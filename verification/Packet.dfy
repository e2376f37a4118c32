/**
 Checksums and lengths of Ethernet frames, updated in place.  A frame is a buffer of bytes; `ip`
 is the place of its IP header.  What the checksum functions compute is stated on sequences, and
 the methods that work on the buffer are proved to leave exactly that.
 */
module Packet {
  import opened Common
  import opened Checksum

  const ETH_P_VLAN: nat := 0x8100
  const ETH_P_IP: nat := 0x0800
  const ETH_P_IPV6: nat := 0x86DD

  const IPPROTO_ICMP: nat := 1
  const IPPROTO_IGMP: nat := 2
  const IPPROTO_TCP: nat := 6
  const IPPROTO_UDP: nat := 17
  const IPPROTO_FRAGMENT: nat := 44
  const IPPROTO_ICMPV6: nat := 58

  /** An `int` stored in 16 bits. */
  function U16(n: int): Word16 {
    n % 65536
  }

  function WordBytes(w: Word16): seq<Byte> {
    [w / 256, w % 256]
  }

  // ----- Headers -----

  predicate EthFits(s: seq<Byte>) {
    |s| >= 14 && (Word(s, 12) == ETH_P_VLAN ==> |s| >= 18)
  }

  function EthHdrLen(s: seq<Byte>): nat
    requires EthFits(s)
  {
    if Word(s, 12) == ETH_P_VLAN then 18 else 14
  }

  function EthType(s: seq<Byte>): nat
    requires EthFits(s)
  {
    if Word(s, 12) == ETH_P_VLAN then Word(s, 16) else Word(s, 12)
  }

  /** The buffer holds the fixed part of an IPv4 header and its options. */
  predicate HdrFits(s: seq<Byte>, ip: nat) {
    ip + 20 <= |s| && ip + (s[ip] as nat) % 16 * 4 <= |s|
  }

  function HdrLen(s: seq<Byte>, ip: nat): nat
    requires ip < |s|
  {
    (s[ip] as nat) % 16 * 4
  }

  /** Negative if the header claims to be longer than the packet. */
  function DataLen(s: seq<Byte>, ip: nat): int
    requires ip + 4 <= |s|
  {
    Word(s, ip + 2) - HdrLen(s, ip)
  }

  function Protocol(s: seq<Byte>, ip: nat): nat
    requires ip + 10 <= |s|
  {
    s[ip + 9]
  }

  /** More fragments to come, or not the first. */
  predicate IsFragment(s: seq<Byte>, ip: nat)
    requires ip + 8 <= |s|
  {
    Word(s, ip + 6) % 16384 != 0
  }

  // ----- Checksums -----

  /** The checksum over `prefix` and a stretch of the frame, with the field at `k` taken as zero. */
  function CheckOver(s: seq<Byte>, k: nat, prefix: seq<Byte>, off: nat, len: int): (w: Word16)
    requires k + 1 < |s| && off + len <= |s|
  {
    Sum(prefix + Segment(PutWord(s, k, 0), off, len))
  }

  /** A receiver adds everything up, the field included. */
  predicate Folds(s: seq<Byte>, prefix: seq<Byte>, off: nat, len: int)
    requires off + len <= |s|
  {
    Fold(Sum16(prefix + Segment(s, off, len))) == 65535
  }

  lemma PutTwice(s: seq<Byte>, k: nat, v: Word16, w: Word16)
    requires k + 1 < |s|
    ensures PutWord(PutWord(s, k, v), k, w) == PutWord(s, k, w)
  {
  }

  lemma PutOutside(s: seq<Byte>, k: nat, w: Word16, off: nat, len: int)
    requires k + 1 < |s| && off + len <= |s| && (k + 1 < off || off + len <= k)
    ensures Segment(PutWord(s, k, w), off, len) == Segment(s, off, len)
  {
  }

  lemma PutInside(s: seq<Byte>, k: nat, w: Word16, off: nat, len: int)
    requires off <= k && k + 2 <= off + len <= |s|
    ensures Segment(PutWord(s, k, w), off, len) == PutWord(Segment(s, off, len), k - off, w)
  {
  }

  lemma PutAfter(prefix: seq<Byte>, s: seq<Byte>, k: nat, w: Word16)
    requires k + 1 < |s|
    ensures prefix + PutWord(s, k, w) == PutWord(prefix + s, |prefix| + k, w)
  {
  }

  /** Storing the checksum does not change it, so the receiver's test finds nothing wrong. */
  lemma CheckIsStable(s: seq<Byte>, k: nat, w: Word16, prefix: seq<Byte>, off: nat, len: int)
    requires k + 1 < |s| && off + len <= |s|
    ensures CheckOver(PutWord(s, k, w), k, prefix, off, len) == CheckOver(s, k, prefix, off, len)
  {
    PutTwice(s, k, w, 0);
  }

  /** And if the field lies in the stretch, the receiver's sum over everything folds to 0xFFFF. */
  lemma CheckFolds(s: seq<Byte>, k: nat, prefix: seq<Byte>, off: nat, len: int)
    requires off <= k && k + 2 <= off + len <= |s| && (k - off) % 2 == 0 && |prefix| % 2 == 0
    ensures Folds(PutWord(s, k, CheckOver(s, k, prefix, off, len)), prefix, off, len)
  {
    var w, r, at := CheckOver(s, k, prefix, off, len), prefix + Segment(s, off, len), |prefix| + (k - off);
    var zeroed, stored := prefix + Segment(PutWord(s, k, 0), off, len), prefix + Segment(PutWord(s, k, w), off, len);
    AllInside(s, k, 0, prefix, off, len);
    AllInside(s, k, w, prefix, off, len);
    CompletesWith(r, at, zeroed, w, stored);
  }

  lemma CompletesWith(r: seq<Byte>, at: nat, zeroed: seq<Byte>, w: Word16, stored: seq<Byte>)
    requires at + 1 < |r| && at % 2 == 0
    requires zeroed == PutWord(r, at, 0) && w == Sum(zeroed) && stored == PutWord(r, at, w)
    ensures Fold(Sum16(stored)) == 65535
  {
    ChecksumCompletes(r, at);
  }

  lemma AllInside(s: seq<Byte>, k: nat, w: Word16, prefix: seq<Byte>, off: nat, len: int)
    requires off <= k && k + 2 <= off + len <= |s|
    ensures prefix + Segment(PutWord(s, k, w), off, len) ==
      PutWord(prefix + Segment(s, off, len), |prefix| + (k - off), w)
  {
    PutInside(s, k, w, off, len);
    PutAfter(prefix, Segment(s, off, len), k - off, w);
  }

  /** A change outside the stretch does not matter to its checksum ... */
  lemma CheckIsLocal(s: seq<Byte>, j: nat, v: Word16, k: nat, prefix: seq<Byte>, off: nat, len: int)
    requires j + 1 < |s| && k + 1 < |s| && off + len <= |s|
    requires (j + 1 < off || off + len <= j) && (j + 1 < k || k + 1 < j)
    ensures CheckOver(PutWord(s, j, v), k, prefix, off, len) == CheckOver(s, k, prefix, off, len)
  {
    PutCommutes(s, j, v, k, 0);
    PutOutside(PutWord(s, k, 0), j, v, off, len);
  }

  // ----- IPv4 -----

  function IpCheckOf(s: seq<Byte>, ip: nat): Word16
    requires HdrFits(s, ip)
  {
    CheckOver(s, ip + 10, [], ip, HdrLen(s, ip))
  }

  function Pseudo4(s: seq<Byte>, ip: nat): (r: seq<Byte>)
    requires ip + 20 <= |s|
    ensures |r| == 12
  {
    s[ip + 12..ip + 20] + [0, s[ip + 9]] + WordBytes(U16(DataLen(s, ip)))
  }

  lemma SumOfWord(w: Word16)
    ensures Sum16(WordBytes(w)) == w
  {
    assert WordBytes(w)[2..] == [];
  }

  /** What the pseudo-header adds to the sum: both addresses, the protocol and the length of the data. */
  lemma PseudoSum(s: seq<Byte>, ip: nat)
    requires ip + 20 <= |s|
    ensures Sum16(Pseudo4(s, ip)) == Word(s, ip + 12) + Word(s, ip + 14) + Word(s, ip + 16) + Word(s, ip + 18) +
      Protocol(s, ip) + U16(DataLen(s, ip))
  {
    var a, b, c, d := Word(s, ip + 12), Word(s, ip + 14), Word(s, ip + 16), Word(s, ip + 18);
    var addrs, next, len := s[ip + 12..ip + 20], [0, s[ip + 9]], WordBytes(U16(DataLen(s, ip)));
    SumAppend(addrs + next, len);
    SumAppend(addrs, next);
    SumOfWord(U16(DataLen(s, ip)));
    assert next[2..] == [];
    assert forall i | 0 <= i < 8 :: addrs[i] == s[ip + 12 + i];
    FourWords(addrs, a, b, c, d);
  }

  lemma FourWords(s: seq<Byte>, a: Word16, b: Word16, c: Word16, d: Word16)
    requires |s| == 8 && a == Word(s, 0) && b == Word(s, 2) && c == Word(s, 4) && d == Word(s, 6)
    ensures Sum16(s) == a + b + c + d
  {
    var t := s[2..];
    var u := t[2..];
    assert Sum16(s) == Word(s, 0) + Sum16(t) && Sum16(t) == Word(t, 0) + Sum16(u);
    assert Sum16(u) == Word(u, 0) + Sum16(u[2..]) && Sum16(u[2..]) == Word(u[2..], 0) + Sum16(u[2..][2..]);
    assert u[2..][2..] == [];
  }

  /** Where the protocol keeps its checksum, counted from the end of the IP header. */
  function CheckPlace4(protocol: nat): (r: nat)
    ensures r % 2 == 0 && 2 <= r <= 16
  {
    if protocol == IPPROTO_TCP then 16
    else if protocol == IPPROTO_ICMP || protocol == IPPROTO_IGMP then 2
    else 6
  }

  function FieldOf(s: seq<Byte>, ip: nat): (k: nat)
    requires HdrFits(s, ip)
    ensures k >= ip + 2
  {
    ip + HdrLen(s, ip) + CheckPlace4(Protocol(s, ip))
  }

  predicate NoPrefix(protocol: nat) {
    protocol == IPPROTO_ICMP || protocol == IPPROTO_IGMP
  }

  /** A header is a number of 4-byte words, so the field is an aligned word and never that of the protocol. */
  lemma FieldIsAligned(s: seq<Byte>, ip: nat)
    requires HdrFits(s, ip)
    ensures (FieldOf(s, ip) - ip) % 2 == 0 && FieldOf(s, ip) != ip + 8
    ensures FieldOf(s, ip) == ip + 2 <==> NoPrefix(Protocol(s, ip)) && HdrLen(s, ip) == 0
  {
  }

  /**
   The length of the data is read while the field is zero.  For ICMP or IGMP behind a header of no
   length the field is the length of the packet.
   */
  function SummedLen(s: seq<Byte>, ip: nat): int
    requires ip + 20 <= |s|
  {
    if NoPrefix(Protocol(s, ip)) && HdrLen(s, ip) == 0 then 0 else DataLen(s, ip)
  }

  lemma LengthIsRead(s: seq<Byte>, ip: nat)
    requires HdrFits(s, ip) && FieldOf(s, ip) + 2 <= |s|
    ensures SummedLen(s, ip) == DataLen(PutWord(s, FieldOf(s, ip), 0), ip)
  {
    FieldIsAligned(s, ip);
    var t := PutWord(s, FieldOf(s, ip), 0);
    assert t[ip] == s[ip];
    if FieldOf(s, ip) == ip + 2 {
      assert Word(t, ip + 2) == 0;
    } else {
      assert t[ip + 2] == s[ip + 2] && t[ip + 3] == s[ip + 3];
    }
  }

  /** The buffer holds the data that the header announces and the checksum field. */
  predicate DataFits(s: seq<Byte>, ip: nat) {
    && HdrFits(s, ip)
    && FieldOf(s, ip) + 2 <= |s|
    && ip + HdrLen(s, ip) + SummedLen(s, ip) <= |s|
  }

  function PrefixOf(s: seq<Byte>, ip: nat): (r: seq<Byte>)
    requires ip + 20 <= |s|
    ensures |r| % 2 == 0
  {
    if NoPrefix(Protocol(s, ip)) then [] else Pseudo4(s, ip)
  }

  /** The checksum of the protocol that the packet carries. */
  function DataCheckOf(s: seq<Byte>, ip: nat): Word16
    requires DataFits(s, ip)
  {
    CheckOver(s, FieldOf(s, ip), PrefixOf(s, ip), ip + HdrLen(s, ip), SummedLen(s, ip))
  }

  predicate HasCheck4(protocol: nat) {
    protocol in {IPPROTO_ICMP, IPPROTO_IGMP, IPPROTO_TCP, IPPROTO_UDP}
  }

  /** The packet goes through a checksum update of its data. */
  predicate DataChecked(s: seq<Byte>, ip: nat)
    requires ip + 20 <= |s|
  {
    !IsFragment(s, ip) && HasCheck4(Protocol(s, ip))
  }

  function WithIpCheck(s: seq<Byte>, ip: nat): (r: seq<Byte>)
    requires HdrFits(s, ip)
    ensures |r| == |s|
  {
    PutWord(s, ip + 10, IpCheckOf(s, ip))
  }

  function WithDataCheck(s: seq<Byte>, ip: nat): (r: seq<Byte>)
    requires DataFits(s, ip)
    ensures |r| == |s|
  {
    PutWord(s, FieldOf(s, ip), DataCheckOf(s, ip))
  }

  /** What the code demands of the frame before an update of the checksums. */
  predicate Checkable4(s: seq<Byte>, ip: nat) {
    HdrFits(s, ip) && (DataChecked(s, ip) ==> DataFits(s, ip))
  }

  function Checked4(s: seq<Byte>, ip: nat): (r: seq<Byte>)
    requires Checkable4(s, ip)
    ensures |r| == |s|
  {
    IpCheckKeeps(s, ip);
    var t := WithIpCheck(s, ip);
    if DataChecked(t, ip) then WithDataCheck(t, ip) else t
  }

  // A header of fewer than five words, which section 3.1 of RFC 791 does not allow, is taken as it is.
  // The field of the data's checksum may then be a field of the header.

  /** The same header length, protocol and, unless it is not read, packet length. */
  predicate SameShape(s: seq<Byte>, t: seq<Byte>, ip: nat)
    requires ip + 20 <= |s|
  {
    && |t| == |s| && t[ip] == s[ip] && t[ip + 9] == s[ip + 9]
    && ((NoPrefix(s[ip + 9]) && HdrLen(s, ip) == 0) || (t[ip + 2] == s[ip + 2] && t[ip + 3] == s[ip + 3]))
  }

  lemma SameShapeSameFields(s: seq<Byte>, t: seq<Byte>, ip: nat)
    requires HdrFits(s, ip) && SameShape(s, t, ip)
    ensures HdrFits(t, ip) && HdrLen(t, ip) == HdrLen(s, ip) && Protocol(t, ip) == Protocol(s, ip)
    ensures FieldOf(t, ip) == FieldOf(s, ip) && SummedLen(t, ip) == SummedLen(s, ip)
    ensures DataFits(t, ip) == DataFits(s, ip)
  {
  }

  lemma PutKeepsShape(s: seq<Byte>, ip: nat, k: nat, w: Word16)
    requires HdrFits(s, ip) && k + 1 < |s|
    requires ip + 4 <= k < ip + 8 || ip + 10 <= k || (k == ip + 2 && NoPrefix(Protocol(s, ip)) && HdrLen(s, ip) == 0)
    ensures SameShape(s, PutWord(s, k, w), ip)
  {
  }

  lemma PseudoStays(s: seq<Byte>, ip: nat, k: nat, w: Word16)
    requires ip + 20 <= |s| && k + 1 < |s| && (ip + 4 <= k < ip + 8 || k == ip + 10 || ip + 20 <= k)
    ensures Pseudo4(PutWord(s, k, w), ip) == Pseudo4(s, ip)
  {
    var t := PutWord(s, k, w);
    assert t[ip + 12..ip + 20] == s[ip + 12..ip + 20];
    assert t[ip] == s[ip] && t[ip + 2] == s[ip + 2] && t[ip + 3] == s[ip + 3] && t[ip + 9] == s[ip + 9];
  }

  lemma IpCheckKeeps(s: seq<Byte>, ip: nat)
    requires HdrFits(s, ip)
    ensures var t := WithIpCheck(s, ip);
      && SameShape(s, t, ip) && HdrFits(t, ip) && HdrLen(t, ip) == HdrLen(s, ip) && FieldOf(t, ip) == FieldOf(s, ip)
      && Word(t, ip + 10) == IpCheckOf(t, ip) == IpCheckOf(s, ip)
      && DataChecked(t, ip) == DataChecked(s, ip) && DataFits(t, ip) == DataFits(s, ip)
      && PrefixOf(t, ip) == PrefixOf(s, ip)
  {
    var w := IpCheckOf(s, ip);
    PutKeepsShape(s, ip, ip + 10, w);
    SameShapeSameFields(s, PutWord(s, ip + 10, w), ip);
    PseudoStays(s, ip, ip + 10, w);
    CheckIsStable(s, ip + 10, w, [], ip, HdrLen(s, ip));
  }

  /** The data's field is behind the header, so the header's checksum is the same, but it may be stored there. */
  /** A word stored in the field of the data leaves the shape of the packet and, elsewhere, the header's checksum. */
  lemma FieldPutKeeps(s: seq<Byte>, ip: nat, k: nat, w: Word16)
    requires DataFits(s, ip) && k == FieldOf(s, ip)
    ensures var t := PutWord(s, k, w);
      && SameShape(s, t, ip) && HdrFits(t, ip) && HdrLen(t, ip) == HdrLen(s, ip) && FieldOf(t, ip) == k
      && Protocol(t, ip) == Protocol(s, ip) && SummedLen(t, ip) == SummedLen(s, ip) && DataFits(t, ip)
      && IpCheckOf(t, ip) == IpCheckOf(s, ip)
      && Word(t, ip + 10) == if k == ip + 10 then w else Word(s, ip + 10)
  {
    FieldIsAligned(s, ip);
    PutKeepsShape(s, ip, k, w);
    SameShapeSameFields(s, PutWord(s, k, w), ip);
    if k == ip + 10 {
      CheckIsStable(s, k, w, [], ip, HdrLen(s, ip));
    } else {
      CheckIsLocal(s, k, w, ip + 10, [], ip, HdrLen(s, ip));
    }
  }

  lemma DataCheckKeeps(s: seq<Byte>, ip: nat)
    requires DataFits(s, ip)
    ensures var t, k := WithDataCheck(s, ip), FieldOf(s, ip);
      && SameShape(s, t, ip) && HdrFits(t, ip) && HdrLen(t, ip) == HdrLen(s, ip) && FieldOf(t, ip) == k
      && Protocol(t, ip) == Protocol(s, ip) && SummedLen(t, ip) == SummedLen(s, ip) && DataFits(t, ip)
      && IpCheckOf(t, ip) == IpCheckOf(s, ip)
      && Word(t, ip + 10) == if k == ip + 10 then DataCheckOf(s, ip) else Word(s, ip + 10)
  {
    FieldPutKeeps(s, ip, FieldOf(s, ip), DataCheckOf(s, ip));
  }

  /** The data's field is one of the address words that the pseudo-header repeats. */
  predicate InAddresses(s: seq<Byte>, ip: nat)
    requires HdrFits(s, ip)
  {
    !NoPrefix(Protocol(s, ip)) && ip + 12 <= FieldOf(s, ip) < ip + 20
  }

  lemma PrefixStays(s: seq<Byte>, ip: nat)
    requires DataFits(s, ip) && !InAddresses(s, ip)
    ensures PrefixOf(WithDataCheck(s, ip), ip) == PrefixOf(s, ip)
  {
    FieldIsAligned(s, ip);
    if !NoPrefix(Protocol(s, ip)) {
      PseudoStays(s, ip, FieldOf(s, ip), DataCheckOf(s, ip));
    }
    DataCheckKeeps(s, ip);
  }

  /** The stored checksum is in the pseudo-header, where the sum was made with what it has replaced. */
  lemma PrefixChanges(s: seq<Byte>, ip: nat)
    requires DataFits(s, ip) && InAddresses(s, ip)
    ensures var t, k := WithDataCheck(s, ip), FieldOf(s, ip);
      && Sum16(PrefixOf(t, ip)) + Word(s, k) == Sum16(PrefixOf(s, ip)) + Word(t, k)
      && Sum16(PrefixOf(s, ip)) >= Word(s, k) + Protocol(s, ip)
  {
    FieldIsAligned(s, ip);
    var t, k := WithDataCheck(s, ip), FieldOf(s, ip);
    DataCheckKeeps(s, ip);
    AddressWord(s, ip, k, DataCheckOf(s, ip));
  }

  lemma AddressWord(s: seq<Byte>, ip: nat, k: nat, w: Word16)
    requires ip + 20 <= |s| && ip + 12 <= k < ip + 20 && (k - ip) % 2 == 0
    ensures var t := PutWord(s, k, w);
      && Sum16(Pseudo4(t, ip)) + Word(s, k) == Sum16(Pseudo4(s, ip)) + w
      && Sum16(Pseudo4(s, ip)) >= Word(s, k) + Protocol(s, ip)
  {
    var t := PutWord(s, k, w);
    PseudoSum(s, ip);
    PseudoSum(t, ip);
    assert DataLen(t, ip) == DataLen(s, ip) && Protocol(t, ip) == Protocol(s, ip);
    assert k == ip + 12 || k == ip + 14 || k == ip + 16 || k == ip + 18;
  }

  /** The data checksum passes its test, and if its field is part of the data, the receiver's sum folds to 0xFFFF. */
  predicate DataSound(s: seq<Byte>, ip: nat)
    requires DataFits(s, ip)
  {
    && Word(s, FieldOf(s, ip)) == DataCheckOf(s, ip)
    && (CheckPlace4(Protocol(s, ip)) + 2 <= SummedLen(s, ip) ==>
          Folds(s, PrefixOf(s, ip), ip + HdrLen(s, ip), SummedLen(s, ip)))
  }

  lemma DataCheckIs(s: seq<Byte>, ip: nat, k: nat, off: nat, len: int)
    requires HdrFits(s, ip) && k == FieldOf(s, ip) && off == ip + HdrLen(s, ip) && len == SummedLen(s, ip)
    requires k + 2 <= |s| && off + len <= |s|
    ensures DataFits(s, ip) && DataCheckOf(s, ip) == CheckOver(s, k, PrefixOf(s, ip), off, len)
  {
    var prefix := PrefixOf(s, ip);
    assert DataCheckOf(s, ip) == CheckOver(s, k, prefix, off, len);
  }

  /** Storing a word in the field: the checksum is then over the same bytes behind the prefix there is now. */
  lemma CheckAfterPut(s: seq<Byte>, t: seq<Byte>, ip: nat, k: nat, w: Word16, off: nat, len: int)
    requires k + 1 < |s| && t == PutWord(s, k, w) && off + len <= |s|
    requires DataFits(t, ip) && k == FieldOf(t, ip) && off == ip + HdrLen(t, ip) && len == SummedLen(t, ip)
    ensures DataCheckOf(t, ip) == CheckOver(s, k, PrefixOf(t, ip), off, len)
  {
    DataCheckIs(t, ip, k, off, len);
    CheckIsStable(s, k, w, PrefixOf(t, ip), off, len);
  }

  lemma SoundIs(t: seq<Byte>, ip: nat, k: nat, off: nat, len: int)
    requires DataFits(t, ip) && k == FieldOf(t, ip) && off == ip + HdrLen(t, ip) && len == SummedLen(t, ip)
    requires Word(t, k) == DataCheckOf(t, ip) && (k + 2 <= off + len ==> Folds(t, PrefixOf(t, ip), off, len))
    ensures DataSound(t, ip)
  {
  }

  lemma SoundAfterPut(s: seq<Byte>, t: seq<Byte>, ip: nat, k: nat, w: Word16, prefix: seq<Byte>, off: nat, len: int)
    requires k + 1 < |s| && t == PutWord(s, k, w) && off + len <= |s| && w == CheckOver(s, k, prefix, off, len)
    requires DataFits(t, ip) && k == FieldOf(t, ip) && off == ip + HdrLen(t, ip) && len == SummedLen(t, ip)
    requires prefix == PrefixOf(t, ip)
    ensures DataSound(t, ip)
  {
    CheckAfterPut(s, t, ip, k, w, off, len);
    if k + 2 <= off + len {
      CheckFolds(s, k, prefix, off, len);
    }
    SoundIs(t, ip, k, off, len);
  }

  lemma DataCheckStands(s: seq<Byte>, ip: nat)
    requires DataFits(s, ip) && !InAddresses(s, ip)
    ensures DataFits(WithDataCheck(s, ip), ip) && DataSound(WithDataCheck(s, ip), ip)
  {
    DataCheckKeeps(s, ip);
    PrefixStays(s, ip);
    var k, off, len := FieldOf(s, ip), ip + HdrLen(s, ip), SummedLen(s, ip);
    DataCheckIs(s, ip, k, off, len);
    SoundAfterPut(s, WithDataCheck(s, ip), ip, k, DataCheckOf(s, ip), PrefixOf(s, ip), off, len);
  }

  /** Two words that count for the same in a sum. */
  predicate SameWeight(v: Word16, w: Word16) {
    v == w || Exchanged(v, w)
  }

  lemma SameWeightIff(rest: nat, v: Word16, w: Word16)
    requires rest > 0
    ensures Fold(rest + v) == Fold(rest + w) <==> SameWeight(v, w)
  {
    FoldIff(rest + v, rest + w);
    if v != w {
      SameRest(rest, v, w);
    }
  }

  lemma CheckInParts(s: seq<Byte>, k: nat, prefix: seq<Byte>, off: nat, len: int, total: nat)
    requires k + 1 < |s| && off + len <= |s| && |prefix| % 2 == 0
    requires total == Sum16(prefix) + Sum16(Segment(PutWord(s, k, 0), off, len))
    ensures CheckOver(s, k, prefix, off, len) == 65535 - Fold(total)
  {
    var data := Segment(PutWord(s, k, 0), off, len);
    SumAppend(prefix, data);
    SumIs(prefix + data, total);
  }

  lemma SumIs(s: seq<Byte>, total: nat)
    requires Sum16(s) == total
    ensures Sum(s) == 65535 - Fold(total)
  {
  }

  /** Sums in which a word has been counted as `v` and as `w`. */
  lemma CountedTwice(a: nat, b: nat, v: Word16, w: Word16, x: Word16)
    requires b + v == a + w && a > v && w == 65535 - Fold(a) && x == 65535 - Fold(b)
    ensures w == x <==> SameWeight(v, w)
  {
    SameWeightIff(a - v, v, w);
  }

  /** The field is in the prefix: the test compares sums with the old and with the new word. */
  lemma PrefixTestIff(s: seq<Byte>, k: nat, w: Word16, p: seq<Byte>, q: seq<Byte>, off: nat, len: int)
    requires k + 1 < |s| && off + len <= |s| && |p| % 2 == 0 && |q| % 2 == 0
    requires w == CheckOver(s, k, p, off, len)
    requires Sum16(q) + Word(s, k) == Sum16(p) + w && Sum16(p) > Word(s, k)
    ensures w == CheckOver(s, k, q, off, len) <==> SameWeight(Word(s, k), w)
  {
    var data := Sum16(Segment(PutWord(s, k, 0), off, len));
    var a, b := Sum16(p) + data, Sum16(q) + data;
    CheckInParts(s, k, p, off, len, a);
    CheckInParts(s, k, q, off, len, b);
    CountedTwice(a, b, Word(s, k), w, CheckOver(s, k, q, off, len));
  }

  lemma AddressTestIff(s: seq<Byte>, ip: nat)
    requires DataFits(s, ip) && HasCheck4(Protocol(s, ip)) && InAddresses(s, ip)
    ensures var t, k := WithDataCheck(s, ip), FieldOf(s, ip);
      DataFits(t, ip) && (DataCheckOf(s, ip) == DataCheckOf(t, ip) <==> SameWeight(Word(s, k), DataCheckOf(s, ip)))
  {
    DataCheckKeeps(s, ip);
    PrefixChanges(s, ip);
    var k, off, len, w := FieldOf(s, ip), ip + HdrLen(s, ip), SummedLen(s, ip), DataCheckOf(s, ip);
    var t := WithDataCheck(s, ip);
    DataCheckIs(s, ip, k, off, len);
    CheckAfterPut(s, t, ip, k, w, off, len);
    PrefixTestIff(s, k, w, PrefixOf(s, ip), PrefixOf(t, ip), off, len);
  }

  /** The test of the data's checksum after its update: passed, unless the update has changed the pseudo-header. */
  lemma DataTestIff(s: seq<Byte>, ip: nat)
    requires DataFits(s, ip) && HasCheck4(Protocol(s, ip))
    ensures var t, k := WithDataCheck(s, ip), FieldOf(s, ip);
      && DataFits(t, ip)
      && (Word(t, k) == DataCheckOf(t, ip) <==> !InAddresses(s, ip) || SameWeight(Word(s, k), DataCheckOf(s, ip)))
  {
    if InAddresses(s, ip) {
      AddressTestIff(s, ip);
    } else {
      DataCheckKeeps(s, ip);
      DataCheckStands(s, ip);
    }
  }

  /** The header's checksum passes its test, and if the header reaches to it, the receiver's sum folds to 0xFFFF. */
  predicate HdrSound(s: seq<Byte>, ip: nat)
    requires HdrFits(s, ip)
  {
    && Word(s, ip + 10) == IpCheckOf(s, ip)
    && (HdrLen(s, ip) >= 12 ==> Folds(s, [], ip, HdrLen(s, ip)))
  }

  /** A header whose checksum passes the test sums to 0xFFFF. */
  lemma PassedHeaderFolds(s: seq<Byte>, ip: nat)
    requires HdrFits(s, ip) && Word(s, ip + 10) == IpCheckOf(s, ip)
    ensures HdrSound(s, ip)
  {
    if HdrLen(s, ip) >= 12 {
      PutSame(s, ip + 10);
      CheckFolds(s, ip + 10, [], ip, HdrLen(s, ip));
    }
  }

  /** The data's checksum, if there is one, is neither in the header's own field nor in an address. */
  predicate FieldsApart(s: seq<Byte>, ip: nat)
    requires HdrFits(s, ip)
  {
    DataChecked(s, ip) ==> FieldOf(s, ip) != ip + 10 && !InAddresses(s, ip)
  }

  lemma FullHeaderKeepsApart(s: seq<Byte>, ip: nat)
    requires HdrFits(s, ip) && HdrLen(s, ip) >= 20
    ensures FieldsApart(s, ip)
  {
  }

  /** No test finds a wrong checksum, and a receiver's sums over header and data fold to 0xFFFF. */
  predicate Sound4(s: seq<Byte>, ip: nat)
    requires Checkable4(s, ip)
  {
    HdrSound(s, ip) && (DataChecked(s, ip) ==> DataSound(s, ip))
  }

  /** After the update the frame is sound, whatever the header says, if its fields are apart. */
  lemma UpdateIsSound4(s: seq<Byte>, ip: nat)
    requires Checkable4(s, ip)
    ensures Checkable4(Checked4(s, ip), ip) && SameShape(s, Checked4(s, ip), ip)
    ensures FieldsApart(s, ip) ==> Sound4(Checked4(s, ip), ip)
  {
    var t := WithIpCheck(s, ip);
    IpCheckKeeps(s, ip);
    if DataChecked(t, ip) {
      DataCheckKeeps(t, ip);
      if FieldsApart(s, ip) {
        DataCheckStands(t, ip);
      }
    }
    if FieldsApart(s, ip) {
      PassedHeaderFolds(Checked4(s, ip), ip);
    }
  }

  lemma UpdateKeepsShape4(s: seq<Byte>, ip: nat)
    requires Checkable4(s, ip)
    ensures var u := Checked4(s, ip);
      |u| == |s| && Protocol(u, ip) == Protocol(s, ip) && HdrLen(u, ip) == HdrLen(s, ip)
  {
    IpCheckKeeps(s, ip);
    if DataChecked(s, ip) {
      DataCheckKeeps(WithIpCheck(s, ip), ip);
    }
  }

  /**
   With any header: after the update the header's test passes exactly if its field has not been taken
   for the data's, and the data's exactly if its field is not an address, but for coincidences.
   */
  lemma UpdatePassesIff4(s: seq<Byte>, ip: nat)
    requires Checkable4(s, ip) && DataChecked(s, ip)
    ensures var (t, u, k) := (WithIpCheck(s, ip), Checked4(s, ip), FieldOf(s, ip));
      && HdrFits(u, ip) && DataFits(u, ip) && DataFits(t, ip) && FieldOf(u, ip) == k
      && (Word(u, ip + 10) == IpCheckOf(u, ip) <==> k != ip + 10 || DataCheckOf(t, ip) == IpCheckOf(s, ip))
      && (Word(u, k) == DataCheckOf(u, ip) <==> !InAddresses(s, ip) || SameWeight(Word(t, k), DataCheckOf(t, ip)))
  {
    var t := WithIpCheck(s, ip);
    IpCheckKeeps(s, ip);
    DataCheckKeeps(t, ip);
    DataTestIff(t, ip);
  }

  /** Only checksum fields have changed. */
  lemma UpdateChangesOnlyChecks4(s: seq<Byte>, ip: nat, j: nat)
    requires Checkable4(s, ip) && j < |s| && j != ip + 10 && j != ip + 11
    requires DataChecked(s, ip) ==> j != FieldOf(s, ip) && j != FieldOf(s, ip) + 1
    ensures Checked4(s, ip)[j] == s[j]
  {
    IpCheckKeeps(s, ip);
  }

  // ----- A checksum of zero -----

  /** What the data's checksum is made of, with the field as zero. */
  function Summed(s: seq<Byte>, ip: nat): seq<Byte>
    requires DataFits(s, ip)
  {
    PrefixOf(s, ip) + Segment(PutWord(s, FieldOf(s, ip), 0), ip + HdrLen(s, ip), SummedLen(s, ip))
  }

  predicate ComesToZero(s: seq<Byte>) {
    Sum16(s) > 0 && Sum16(s) % 65535 == 0
  }

  lemma SumIsZeroIff(s: seq<Byte>)
    ensures Sum(s) == 0 <==> ComesToZero(s)
  {
    if Sum16(s) > 0 {
      FoldRest(Sum16(s));
    }
  }

  /**
   A UDP checksum that comes out as 0 is stored as 0, which receivers take for none: exactly if the
   words of pseudo-header and datagram sum to a positive multiple of 65535.
   */
  lemma UdpZeroIff4(s: seq<Byte>, ip: nat)
    requires Checkable4(s, ip) && DataChecked(s, ip) && Protocol(s, ip) == IPPROTO_UDP
    ensures DataFits(s, ip) && DataFits(WithIpCheck(s, ip), ip)
    ensures Word(Checked4(s, ip), FieldOf(s, ip)) == 0 <==> ComesToZero(Summed(WithIpCheck(s, ip), ip))
    ensures HdrLen(s, ip) >= 12 ==> (Word(Checked4(s, ip), FieldOf(s, ip)) == 0 <==> ComesToZero(Summed(s, ip)))
  {
    IpCheckKeeps(s, ip);
    SumIsZeroIff(Summed(WithIpCheck(s, ip), ip));
    if HdrLen(s, ip) >= 12 {
      SummedStays(s, ip);
      SumIsZeroIff(Summed(s, ip));
    }
  }

  /** The header's checksum is no part of the data, if the header reaches beyond it. */
  lemma SummedStays(s: seq<Byte>, ip: nat)
    requires DataFits(s, ip) && HdrLen(s, ip) >= 12
    ensures DataFits(WithIpCheck(s, ip), ip) && DataCheckOf(WithIpCheck(s, ip), ip) == Sum(Summed(s, ip))
  {
    var w, k, off, len := IpCheckOf(s, ip), FieldOf(s, ip), ip + HdrLen(s, ip), SummedLen(s, ip);
    IpCheckKeeps(s, ip);
    PutKeepsShape(s, ip, ip + 10, w);
    SameShapeSameFields(s, WithIpCheck(s, ip), ip);
    DataCheckIs(WithIpCheck(s, ip), ip, k, off, len);
    CheckIsLocal(s, ip + 10, w, k, PrefixOf(s, ip), off, len);
    SummedIs(s, ip, k, off, len);
  }

  lemma SummedIs(s: seq<Byte>, ip: nat, k: nat, off: nat, len: int)
    requires DataFits(s, ip) && k == FieldOf(s, ip) && off == ip + HdrLen(s, ip) && len == SummedLen(s, ip)
    ensures Sum(Summed(s, ip)) == CheckOver(s, k, PrefixOf(s, ip), off, len)
  {
  }

  // ----- The methods on the buffer -----

  method WordAt(f: array<Byte>, i: nat) returns (w: Word16)
    requires i + 1 < f.Length
    ensures w == Word(f[..], i)
  {
    w := (f[i] as nat) * 256 + f[i + 1];
  }

  method StoreWord(f: array<Byte>, i: nat, w: Word16)
    requires i + 1 < f.Length
    modifies f
    ensures f[..] == PutWord(old(f[..]), i, w)
  {
    f[i], f[i + 1] := w / 256, w % 256;
    assert f[..] == PutWord(old(f[..]), i, w);
  }

  /** Zeroes the field at `k`, adds up `start` and a stretch of the frame, and puts the field back. */
  method SumWithoutField(f: array<Byte>, k: nat, off: nat, len: int, start: nat, ghost total: nat) returns (c: Word16)
    requires k + 1 < f.Length && off + len <= f.Length
    requires total == start + Sum16(Segment(PutWord(f[..], k, 0), off, len))
    modifies f
    ensures f[..] == old(f[..]) && c == 65535 - Fold(total)
  {
    var ori := WordAt(f, k);
    StoreWord(f, k, 0);
    var sum := AddBytes(f, off, len, start);
    assert sum == total;
    var folded := FoldSum(sum);
    c := 65535 - folded;
    StoreWord(f, k, ori);
    PutTwice(old(f[..]), k, 0, ori);
    PutSame(old(f[..]), k);
  }

  method IpCheck(f: array<Byte>, ip: nat) returns (c: Word16)
    requires HdrFits(f[..], ip)
    modifies f
    ensures f[..] == old(f[..]) && c == IpCheckOf(f[..], ip)
  {
    ghost var header := Segment(PutWord(f[..], ip + 10, 0), ip, HdrLen(f[..], ip));
    assert [] + header == header;
    c := SumWithoutField(f, ip + 10, ip, HdrLen(f[..], ip), 0, Sum16(header));
  }

  method IpUpdateCheck(f: array<Byte>, ip: nat)
    requires HdrFits(f[..], ip)
    modifies f
    ensures f[..] == WithIpCheck(old(f[..]), ip)
  {
    var c := IpCheck(f, ip);
    StoreWord(f, ip + 10, c);
  }

  method IpChecksumWrong(f: array<Byte>, ip: nat) returns (wrong: bool)
    requires HdrFits(f[..], ip)
    modifies f
    ensures f[..] == old(f[..]) && (wrong <==> Word(f[..], ip + 10) != IpCheckOf(f[..], ip))
  {
    var c := IpCheck(f, ip);
    var check := WordAt(f, ip + 10);
    wrong := check != c;
  }

  /** The first loop, over the pseudo-header on the stack. */
  method AddPseudo(p: seq<Byte>) returns (sum: nat)
    ensures sum == Sum16(p)
  {
    var pseudo := new Byte[|p|](i requires 0 <= i < |p| => p[i]);
    assert Segment(pseudo[..], 0, |p|) == p;
    sum := AddBytes(pseudo, 0, |p|, 0);
  }

  lemma TcpUdpIs(s: seq<Byte>, ip: nat, k: nat, off: nat, len: int) returns (total: nat)
    requires DataFits(s, ip) && !NoPrefix(Protocol(s, ip)) && off == ip + HdrLen(s, ip) && len == DataLen(s, ip)
    requires k == off + if Protocol(s, ip) == IPPROTO_TCP then 16 else 6
    ensures k + 2 <= |s| && off + len <= |s|
    ensures total == Sum16(Pseudo4(s, ip)) + Sum16(Segment(PutWord(s, k, 0), off, len))
    ensures DataCheckOf(s, ip) == 65535 - Fold(total)
  {
    DataCheckIs(s, ip, k, off, len);
    total := Sum16(Pseudo4(s, ip)) + Sum16(Segment(PutWord(s, k, 0), off, len));
    CheckInParts(s, k, Pseudo4(s, ip), off, len, total);
  }

  /** The sum of the pseudo-header and the sum of the data, in two loops. */
  method TcpUdpChecksum(f: array<Byte>, ip: nat) returns (c: Word16)
    requires DataFits(f[..], ip) && !NoPrefix(Protocol(f[..], ip))
    modifies f
    ensures f[..] == old(f[..]) && c == DataCheckOf(old(f[..]), ip)
  {
    var off, len := ip + HdrLen(f[..], ip), DataLen(f[..], ip);
    var k := off + if f[ip + 9] == IPPROTO_TCP then 16 else 6;
    ghost var total := TcpUdpIs(f[..], ip, k, off, len);
    var start := AddPseudo(Pseudo4(f[..], ip));
    c := SumWithoutField(f, k, off, len, start, total);
  }

  /** Zeroes the field, reads the length, adds up and puts the field back. */
  method SumOfMessage(f: array<Byte>, ip: nat, off: nat, ghost t: seq<Byte>) returns (c: Word16)
    requires ip + 4 <= f.Length && off + 4 <= f.Length && t == PutWord(f[..], off + 2, 0)
    requires off + DataLen(t, ip) <= f.Length
    modifies f
    ensures f[..] == old(f[..]) && c == Sum(Segment(t, off, DataLen(t, ip)))
  {
    ghost var s := f[..];
    var check := WordAt(f, off + 2);
    StoreWord(f, off + 2, 0);
    c := Csum(f, off, DataLen(f[..], ip));
    StoreWord(f, off + 2, check);
    PutTwice(s, off + 2, 0, check);
    PutSame(s, off + 2);
  }

  lemma IcmpCheckIs(s: seq<Byte>, ip: nat, off: nat) returns (t: seq<Byte>)
    requires DataFits(s, ip) && NoPrefix(Protocol(s, ip)) && off == ip + HdrLen(s, ip)
    ensures off + 4 <= |s| && t == PutWord(s, off + 2, 0) && off + DataLen(t, ip) <= |s|
    ensures DataCheckOf(s, ip) == Sum(Segment(t, off, DataLen(t, ip)))
  {
    LengthIsRead(s, ip);
    t := PutWord(s, off + 2, 0);
    var len := DataLen(t, ip);
    DataCheckIs(s, ip, off + 2, off, len);
    WithoutPrefix(s, off + 2, PrefixOf(s, ip), off, len);
  }

  lemma WithoutPrefix(s: seq<Byte>, k: nat, prefix: seq<Byte>, off: nat, len: int)
    requires k + 1 < |s| && off + len <= |s| && prefix == []
    ensures CheckOver(s, k, prefix, off, len) == Sum(Segment(PutWord(s, k, 0), off, len))
  {
    assert [] + Segment(PutWord(s, k, 0), off, len) == Segment(PutWord(s, k, 0), off, len);
  }

  method IcmpIgmpCheck(f: array<Byte>, ip: nat) returns (c: Word16)
    requires DataFits(f[..], ip) && NoPrefix(Protocol(f[..], ip))
    modifies f
    ensures f[..] == old(f[..]) && c == DataCheckOf(old(f[..]), ip)
  {
    var off := ip + HdrLen(f[..], ip);
    ghost var t := IcmpCheckIs(f[..], ip, off);
    c := SumOfMessage(f, ip, off, t);
  }

  method DataUpdateCheck(f: array<Byte>, ip: nat)
    requires DataFits(f[..], ip) && HasCheck4(Protocol(f[..], ip))
    modifies f
    ensures f[..] == WithDataCheck(old(f[..]), ip)
  {
    var c := DataCheck(f, ip);
    StoreWord(f, FieldOf(f[..], ip), c);
  }

  method DataCheck(f: array<Byte>, ip: nat) returns (c: Word16)
    requires DataFits(f[..], ip) && HasCheck4(Protocol(f[..], ip))
    modifies f
    ensures f[..] == old(f[..]) && c == DataCheckOf(f[..], ip)
  {
    if f[ip + 9] == IPPROTO_ICMP || f[ip + 9] == IPPROTO_IGMP {
      c := IcmpIgmpCheck(f, ip);
    } else {
      c := TcpUdpChecksum(f, ip);
    }
  }

  /** `tcp_checksum_wrong`, `udp_checksum_wrong` and `icmp_igmp_checksum_wrong`, by protocol. */
  method DataChecksumWrong(f: array<Byte>, ip: nat) returns (wrong: bool)
    requires DataFits(f[..], ip) && HasCheck4(Protocol(f[..], ip))
    modifies f
    ensures f[..] == old(f[..])
    ensures wrong <==> Word(f[..], FieldOf(f[..], ip)) != DataCheckOf(f[..], ip)
  {
    var c := DataCheck(f, ip);
    var check := WordAt(f, FieldOf(f[..], ip));
    wrong := check != c;
  }

  /** `update_check_sum_v4` */
  method UpdateCheckSum4(f: array<Byte>, ip: nat)
    requires Checkable4(f[..], ip)
    modifies f
    ensures f[..] == Checked4(old(f[..]), ip)
  {
    IpCheckKeeps(f[..], ip);
    IpUpdateCheck(f, ip);
    if IsFragment(f[..], ip) {
      return;
    }
    if HasCheck4(Protocol(f[..], ip)) {
      DataUpdateCheck(f, ip);
    }
  }
}
