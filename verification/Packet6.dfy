/**
 The IPv6 side of the frame checksums: one pseudo-header for TCP, UDP and ICMPv6.
 */
module Packet6 {
  import opened Common
  import opened Checksum
  import opened Packet

  const IPV6_HDR_LEN: nat := 40

  function PayloadLen(s: seq<Byte>, ip: nat): nat
    requires ip + 6 <= |s|
  {
    Word(s, ip + 4)
  }

  function NextHdr(s: seq<Byte>, ip: nat): nat
    requires ip + 7 <= |s|
  {
    s[ip + 6]
  }

  predicate HasCheck6(nextHdr: nat) {
    nextHdr in {IPPROTO_TCP, IPPROTO_UDP, IPPROTO_ICMPV6}
  }

  function CheckPlace6(nextHdr: nat): (r: nat)
    ensures r % 2 == 0 && 2 <= r <= 16
  {
    if nextHdr == IPPROTO_TCP then 16 else if nextHdr == IPPROTO_UDP then 6 else 2
  }

  function Pseudo6(s: seq<Byte>, ip: nat): (r: seq<Byte>)
    requires ip + 40 <= |s|
    ensures |r| == 36
  {
    s[ip + 8..ip + 40] + [0, s[ip + 6]] + WordBytes(PayloadLen(s, ip))
  }

  /** The pseudo-header of section 8.1 of RFC 8200: a 32-bit length, three zero bytes and the next header. */
  function Rfc8200Pseudo(s: seq<Byte>, ip: nat): (r: seq<Byte>)
    requires ip + 40 <= |s|
    ensures |r| == 40
  {
    s[ip + 8..ip + 40] + [0, 0] + WordBytes(PayloadLen(s, ip)) + [0, 0, 0, s[ip + 6]]
  }

  /** The shorter pseudo-header gives the checksum of the standard one, whatever follows. */
  lemma PseudoIsStandard(s: seq<Byte>, ip: nat, data: seq<Byte>)
    requires ip + 40 <= |s|
    ensures Sum(Pseudo6(s, ip) + data) == Sum(Rfc8200Pseudo(s, ip) + data)
  {
    var addrs, len, next := s[ip + 8..ip + 40], WordBytes(PayloadLen(s, ip)), s[ip + 6];
    SumAppend(Pseudo6(s, ip), data);
    SumAppend(Rfc8200Pseudo(s, ip), data);
    SumAppend(addrs + [0, next], len);
    SumAppend(addrs, [0, next]);
    SumAppend(addrs + [0, 0] + len, [0, 0, 0, next]);
    SumAppend(addrs + [0, 0], len);
    SumAppend(addrs, [0, 0]);
    SumsOfFew(next);
  }

  lemma SumsOfFew(next: Byte)
    ensures Sum16([0, next]) == next && Sum16([0, 0]) == 0 && Sum16([0, 0, 0, next]) == next
  {
    assert [0, next][2..] == [] && [0, 0][2..] == [];
    assert [0, 0, 0, next][2..] == [0, next];
  }

  predicate DataFits6(s: seq<Byte>, ip: nat) {
    && ip + 40 <= |s|
    && ip + 40 + CheckPlace6(NextHdr(s, ip)) + 2 <= |s|
    && ip + 40 + PayloadLen(s, ip) <= |s|
  }

  function FieldOf6(s: seq<Byte>, ip: nat): nat
    requires ip + 40 <= |s|
  {
    ip + 40 + CheckPlace6(NextHdr(s, ip))
  }

  function DataCheckOf6(s: seq<Byte>, ip: nat): Word16
    requires DataFits6(s, ip)
  {
    CheckOver(s, FieldOf6(s, ip), Pseudo6(s, ip), ip + 40, PayloadLen(s, ip))
  }

  /** A fragment header is none of the three, so a fragment is left alone. */
  predicate Checkable6(s: seq<Byte>, ip: nat) {
    ip + 40 <= |s| && (HasCheck6(NextHdr(s, ip)) ==> DataFits6(s, ip))
  }

  function Checked6(s: seq<Byte>, ip: nat): (r: seq<Byte>)
    requires Checkable6(s, ip)
    ensures |r| == |s|
  {
    if NextHdr(s, ip) != IPPROTO_FRAGMENT && HasCheck6(NextHdr(s, ip))
    then PutWord(s, FieldOf6(s, ip), DataCheckOf6(s, ip))
    else s
  }

  predicate Sound6(s: seq<Byte>, ip: nat)
    requires Checkable6(s, ip)
  {
    HasCheck6(NextHdr(s, ip)) ==>
      && Word(s, FieldOf6(s, ip)) == DataCheckOf6(s, ip)
      && (CheckPlace6(NextHdr(s, ip)) + 2 <= PayloadLen(s, ip) ==>
            Folds(s, Pseudo6(s, ip), ip + 40, PayloadLen(s, ip)))
  }

  lemma PutKeepsHeader6(s: seq<Byte>, ip: nat, k: nat, w: Word16)
    requires ip + 40 <= k && k + 1 < |s|
    ensures var t := PutWord(s, k, w);
      && t[..ip + 40] == s[..ip + 40]
      && NextHdr(t, ip) == NextHdr(s, ip) && PayloadLen(t, ip) == PayloadLen(s, ip)
      && Pseudo6(t, ip) == Pseudo6(s, ip) && DataFits6(t, ip) == DataFits6(s, ip)
  {
  }

  /** After the update the tests pass and a receiver's sum over the data folds to 0xFFFF. */
  lemma UpdateIsSound6(s: seq<Byte>, ip: nat)
    requires Checkable6(s, ip)
    ensures var t := Checked6(s, ip);
      Checkable6(t, ip) && Sound6(t, ip) && t[..ip + 40] == s[..ip + 40]
  {
    if HasCheck6(NextHdr(s, ip)) {
      var k, w, p, len := FieldOf6(s, ip), DataCheckOf6(s, ip), Pseudo6(s, ip), PayloadLen(s, ip);
      PutKeepsHeader6(s, ip, k, w);
      CheckIsStable(s, k, w, p, ip + 40, len);
      assert DataCheckOf6(PutWord(s, k, w), ip) == w;
      if CheckPlace6(NextHdr(s, ip)) + 2 <= len {
        CheckFolds(s, k, p, ip + 40, len);
      }
    }
  }

  function Summed6(s: seq<Byte>, ip: nat): seq<Byte>
    requires DataFits6(s, ip)
  {
    Pseudo6(s, ip) + Segment(PutWord(s, FieldOf6(s, ip), 0), ip + 40, PayloadLen(s, ip))
  }

  /**
   A UDP checksum that comes out as 0 is stored as 0, although section 8.1 of RFC 8200 wants 0xFFFF:
   exactly if the words of pseudo-header and datagram sum to a positive multiple of 65535.
   */
  lemma UdpZeroIff6(s: seq<Byte>, ip: nat)
    requires Checkable6(s, ip) && NextHdr(s, ip) == IPPROTO_UDP
    ensures Word(Checked6(s, ip), FieldOf6(s, ip)) == 0 <==> ComesToZero(Summed6(s, ip))
  {
    SumIsZeroIff(Summed6(s, ip));
  }

  // ----- The methods on the buffer -----

  method TcpUdpChecksum6(f: array<Byte>, ip: nat) returns (c: Word16)
    requires DataFits6(f[..], ip) && HasCheck6(NextHdr(f[..], ip))
    modifies f
    ensures f[..] == old(f[..]) && c == DataCheckOf6(f[..], ip)
  {
    ghost var s := f[..];
    var len := PayloadLen(f[..], ip);
    var start := AddPseudo(Pseudo6(f[..], ip));
    var k := ip + 40 + if f[ip + 6] == IPPROTO_TCP then 16 else if f[ip + 6] == IPPROTO_UDP then 6 else 2;
    ghost var total: nat := start + Sum16(Segment(PutWord(s, k, 0), ip + 40, len));
    CheckInParts(s, k, Pseudo6(s, ip), ip + 40, len, total);
    c := SumWithoutField(f, k, ip + 40, len, start, total);
  }

  /** `tcp_checksum_wrong6`, `udp_checksum_wrong6` and `icmp_checksum_wrong6`, by protocol. */
  method DataChecksumWrong6(f: array<Byte>, ip: nat) returns (wrong: bool)
    requires DataFits6(f[..], ip) && HasCheck6(NextHdr(f[..], ip))
    modifies f
    ensures f[..] == old(f[..])
    ensures wrong <==> Word(f[..], FieldOf6(f[..], ip)) != DataCheckOf6(f[..], ip)
  {
    var c := TcpUdpChecksum6(f, ip);
    var check := WordAt(f, FieldOf6(f[..], ip));
    wrong := check != c;
  }

  /** `update_check_sum_v6` */
  method UpdateCheckSum6(f: array<Byte>, ip: nat)
    requires Checkable6(f[..], ip)
    modifies f
    ensures f[..] == Checked6(old(f[..]), ip)
  {
    if f[ip + 6] == IPPROTO_FRAGMENT {
      return;
    }
    if HasCheck6(NextHdr(f[..], ip)) {
      var c := TcpUdpChecksum6(f, ip);
      StoreWord(f, FieldOf6(f[..], ip), c);
    }
  }
}
