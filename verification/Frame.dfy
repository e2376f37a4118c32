/**
 Whole Ethernet frames, with or without a VLAN tag: setting the length and then the checksums.
 */
module Frame {
  import opened Common
  import opened Checksum
  import opened Packet
  import opened Packet6

  // ----- Lengths -----

  predicate LenFits4(s: seq<Byte>, ip: nat) {
    HdrFits(s, ip) && (Protocol(s, ip) == IPPROTO_UDP ==> ip + HdrLen(s, ip) + 6 <= |s|)
  }

  /** `update_len_v4`: the packet's length, and of a UDP datagram its own. */
  function WithLen4(s: seq<Byte>, ip: nat, len: int): (r: seq<Byte>)
    requires LenFits4(s, ip)
    ensures |r| == |s|
  {
    var t := PutWord(s, ip + 2, U16(len));
    if Protocol(t, ip) == IPPROTO_UDP then PutWord(t, ip + HdrLen(s, ip) + 4, U16(DataLen(t, ip))) else t
  }

  predicate LenFits6(s: seq<Byte>, ip: nat) {
    ip + 40 <= |s| && (NextHdr(s, ip) == IPPROTO_UDP ==> ip + 46 <= |s|)
  }

  function WithLen6(s: seq<Byte>, ip: nat, len: int): (r: seq<Byte>)
    requires LenFits6(s, ip)
    ensures |r| == |s|
  {
    var t := PutWord(s, ip + 4, U16(len - IPV6_HDR_LEN));
    if NextHdr(t, ip) == IPPROTO_UDP then PutWord(t, ip + 44, PayloadLen(t, ip)) else t
  }

  // ----- Frames -----

  predicate LenFits(s: seq<Byte>) {
    && EthFits(s)
    && (EthType(s) == ETH_P_IP ==> LenFits4(s, EthHdrLen(s)))
    && (EthType(s) == ETH_P_IPV6 ==> LenFits6(s, EthHdrLen(s)))
  }

  function WithLen(s: seq<Byte>, len: int): (r: seq<Byte>)
    requires LenFits(s)
    ensures |r| == |s|
  {
    if EthType(s) == ETH_P_IP then WithLen4(s, EthHdrLen(s), len - EthHdrLen(s))
    else if EthType(s) == ETH_P_IPV6 then WithLen6(s, EthHdrLen(s), len - EthHdrLen(s))
    else s
  }

  predicate Checkable(s: seq<Byte>) {
    && EthFits(s)
    && (EthType(s) == ETH_P_IP ==> Checkable4(s, EthHdrLen(s)))
    && (EthType(s) == ETH_P_IPV6 ==> Checkable6(s, EthHdrLen(s)))
  }

  function Checked(s: seq<Byte>): (r: seq<Byte>)
    requires Checkable(s)
    ensures |r| == |s|
  {
    if EthType(s) == ETH_P_IP then Checked4(s, EthHdrLen(s))
    else if EthType(s) == ETH_P_IPV6 then Checked6(s, EthHdrLen(s))
    else s
  }

  predicate Sound(s: seq<Byte>)
    requires Checkable(s)
  {
    && (EthType(s) == ETH_P_IP ==> Sound4(s, EthHdrLen(s)))
    && (EthType(s) == ETH_P_IPV6 ==> Sound6(s, EthHdrLen(s)))
  }

  /** Bytes that hold a length of this frame. */
  predicate IsLenField(s: seq<Byte>, j: nat)
    requires LenFits(s)
  {
    var ip := EthHdrLen(s);
    if EthType(s) == ETH_P_IP then
      || j in {ip + 2, ip + 3}
      || (Protocol(s, ip) == IPPROTO_UDP && ip + HdrLen(s, ip) + 4 <= j < ip + HdrLen(s, ip) + 6)
    else if EthType(s) == ETH_P_IPV6 then
      || j in {ip + 4, ip + 5}
      || (NextHdr(s, ip) == IPPROTO_UDP && ip + 44 <= j < ip + 46)
    else
      false
  }

  /** Bytes that hold a checksum of this frame. */
  predicate IsCheckField(s: seq<Byte>, j: nat)
    requires Checkable(s)
  {
    var ip := EthHdrLen(s);
    if EthType(s) == ETH_P_IP then
      || j in {ip + 10, ip + 11}
      || (DataChecked(s, ip) && FieldOf(s, ip) <= j <= FieldOf(s, ip) + 1)
    else if EthType(s) == ETH_P_IPV6 then
      HasCheck6(NextHdr(s, ip)) && FieldOf6(s, ip) <= j <= FieldOf6(s, ip) + 1
    else
      false
  }

  lemma EthIsKept(s: seq<Byte>, t: seq<Byte>)
    requires EthFits(s) && |t| == |s| && forall j | 0 <= j < EthHdrLen(s) :: t[j] == s[j]
    ensures EthFits(t) && EthType(t) == EthType(s) && EthHdrLen(t) == EthHdrLen(s)
  {
    assert Word(t, 12) == Word(s, 12);
  }

  /** The header carries the length `n`, truncated to 16 bits, and a UDP datagram the length of the data. */
  predicate LengthsAre4(s: seq<Byte>, ip: nat, n: int)
    requires ip + 20 <= |s|
  {
    && Word(s, ip + 2) == U16(n)
    && (Protocol(s, ip) == IPPROTO_UDP ==>
          ip + HdrLen(s, ip) + 6 <= |s| && Word(s, ip + HdrLen(s, ip) + 4) == U16(DataLen(s, ip)))
  }

  predicate LengthsAre6(s: seq<Byte>, ip: nat, n: int)
    requires ip + 40 <= |s|
  {
    && PayloadLen(s, ip) == U16(n - IPV6_HDR_LEN)
    && (NextHdr(s, ip) == IPPROTO_UDP ==> ip + 46 <= |s| && Word(s, ip + 44) == PayloadLen(s, ip))
  }

  predicate LengthsAre(s: seq<Byte>, len: int)
    requires Checkable(s)
  {
    && (EthType(s) == ETH_P_IP ==> LengthsAre4(s, EthHdrLen(s), len - EthHdrLen(s)))
    && (EthType(s) == ETH_P_IPV6 ==> LengthsAre6(s, EthHdrLen(s), len - EthHdrLen(s)))
  }

  lemma CheckedKeeps4(s: seq<Byte>)
    requires Checkable(s) && EthType(s) == ETH_P_IP
    ensures Checkable(Checked(s)) && SameShape(s, Checked(s), EthHdrLen(s))
    ensures FieldsApart(s, EthHdrLen(s)) ==> Sound(Checked(s))
    ensures EthHdrLen(Checked(s)) == EthHdrLen(s) && EthType(Checked(s)) == ETH_P_IP
  {
    var ip, t := EthHdrLen(s), Checked(s);
    UpdateIsSound4(s, ip);
    forall j | 0 <= j < ip
      ensures t[j] == s[j]
    {
      UpdateChangesOnlyChecks4(s, ip, j);
    }
    EthIsKept(s, t);
  }

  lemma CheckedKeeps6(s: seq<Byte>)
    requires Checkable(s) && EthType(s) == ETH_P_IPV6
    ensures Checkable(Checked(s)) && Sound(Checked(s)) && EthHdrLen(Checked(s)) == EthHdrLen(s)
    ensures EthType(Checked(s)) == ETH_P_IPV6 && Checked(s)[..EthHdrLen(s) + 40] == s[..EthHdrLen(s) + 40]
  {
    var ip, t := EthHdrLen(s), Checked(s);
    UpdateIsSound6(s, ip);
    forall j | 0 <= j < ip
      ensures t[j] == s[j]
    {
      assert t[..ip + 40][j] == s[..ip + 40][j];
    }
    EthIsKept(s, t);
  }

  /** Nothing in the way of soundness: an IPv4 frame's checksum fields are apart, as with any header of five words. */
  predicate Regular(s: seq<Byte>)
    requires Checkable(s)
  {
    EthType(s) == ETH_P_IP ==> FieldsApart(s, EthHdrLen(s))
  }

  /** Checksum updates keep every frame checkable and make it sound. */
  lemma UpdateIsSound(s: seq<Byte>)
    requires Checkable(s)
    ensures Checkable(Checked(s)) && (Regular(s) ==> Sound(Checked(s)))
  {
    if EthType(s) == ETH_P_IP {
      CheckedKeeps4(s);
    } else if EthType(s) == ETH_P_IPV6 {
      CheckedKeeps6(s);
    }
  }

  lemma WithLenKeepsEth(s: seq<Byte>, len: int)
    requires LenFits(s)
    ensures var t := WithLen(s, len);
      EthFits(t) && EthType(t) == EthType(s) && EthHdrLen(t) == EthHdrLen(s)
  {
    EthIsKept(s, WithLen(s, len));
  }

  /** Setting the length and then the checksums changes no byte outside their fields. */
  lemma OnlyFieldsChange(s: seq<Byte>, len: int, j: nat)
    requires LenFits(s) && Checkable(WithLen(s, len)) && j < |s|
    requires !IsLenField(s, j) && !IsCheckField(WithLen(s, len), j)
    ensures Checked(WithLen(s, len))[j] == s[j]
  {
    var t := WithLen(s, len);
    WithLenKeepsEth(s, len);
    var ip := EthHdrLen(s);
    if EthType(s) == ETH_P_IP {
      UpdateChangesOnlyChecks4(t, ip, j);
      Len4Field(s, ip, len - ip, j);
    } else if EthType(s) == ETH_P_IPV6 {
      Len6Field(s, ip, len - ip, j);
    }
  }

  lemma Len4Field(s: seq<Byte>, ip: nat, len: int, j: nat)
    requires LenFits4(s, ip) && j < |s|
    ensures var t, udp := WithLen4(s, ip, len), ip + HdrLen(s, ip);
      t[j] == s[j] || j == ip + 2 || j == ip + 3 || (Protocol(s, ip) == IPPROTO_UDP && udp + 4 <= j < udp + 6)
  {
  }

  lemma Len6Field(s: seq<Byte>, ip: nat, len: int, j: nat)
    requires LenFits6(s, ip) && j < |s|
    ensures var t := WithLen6(s, ip, len);
      && NextHdr(t, ip) == NextHdr(s, ip)
      && (t[j] == s[j] || j == ip + 4 || j == ip + 5 || (NextHdr(t, ip) == IPPROTO_UDP && ip + 44 <= j < ip + 46))
  {
  }

  /** The length of the packet is where the checksum of an ICMP or IGMP message behind no header goes. */
  predicate LengthIsField(s: seq<Byte>, ip: nat)
    requires HdrFits(s, ip)
  {
    DataChecked(s, ip) && NoPrefix(Protocol(s, ip)) && HdrLen(s, ip) == 0
  }

  predicate LengthsApart(s: seq<Byte>)
    requires Checkable(s)
  {
    EthType(s) == ETH_P_IP ==> !LengthIsField(s, EthHdrLen(s))
  }

  lemma LengthsStandIff4(s: seq<Byte>, t: seq<Byte>, ip: nat, len: int)
    requires LenFits4(s, ip) && t == WithLen4(s, ip, len) && Checkable4(t, ip)
    ensures LengthsAre4(Checked4(t, ip), ip, len) <==> !LengthIsField(t, ip) || U16(len) == 65535
  {
    if LengthIsField(t, ip) {
      LengthOverwritten(t, ip);
    } else {
      LengthsStand4(s, ip, len);
    }
  }

  /** After both updates the header and the datagram carry the length, truncated to 16 bits. */
  lemma LengthsStand(s: seq<Byte>, len: int)
    requires LenFits(s) && Checkable(WithLen(s, len))
    ensures Checkable(Checked(WithLen(s, len)))
    ensures LengthsAre(Checked(WithLen(s, len)), len) <==>
      LengthsApart(WithLen(s, len)) || U16(len - EthHdrLen(s)) == 65535
  {
    var t := WithLen(s, len);
    var ip, u := EthHdrLen(s), Checked(t);
    WithLenKeepsEth(s, len);
    UpdateIsSound(t);
    if EthType(s) == ETH_P_IP {
      CheckedKeeps4(t);
      LengthsStandIff4(s, t, ip, len - ip);
    } else if EthType(s) == ETH_P_IPV6 {
      CheckedKeeps6(t);
      LengthsStand6(s, ip, len - ip);
    }
  }

  /** The checksum over nothing takes the place of the length. */
  lemma LengthOverwritten(t: seq<Byte>, ip: nat)
    requires Checkable4(t, ip) && LengthIsField(t, ip)
    ensures var u := Checked4(t, ip);
      Protocol(u, ip) != IPPROTO_UDP && |u| == |t| && Word(u, ip + 2) == 65535
  {
    FieldIsAligned(t, ip);
    IpCheckKeeps(t, ip);
    UpdateKeepsShape4(t, ip);
    OverNothing(WithIpCheck(t, ip), ip);
  }

  lemma OverNothing(s: seq<Byte>, ip: nat)
    requires DataFits(s, ip) && NoPrefix(Protocol(s, ip)) && HdrLen(s, ip) == 0
    ensures DataCheckOf(s, ip) == 65535
  {
    DataCheckIs(s, ip, FieldOf(s, ip), ip, 0);
    WithoutPrefix(s, FieldOf(s, ip), PrefixOf(s, ip), ip, 0);
  }

  lemma LengthsStand4(s: seq<Byte>, ip: nat, len: int)
    requires LenFits4(s, ip) && Checkable4(WithLen4(s, ip, len), ip) && !LengthIsField(WithLen4(s, ip, len), ip)
    ensures LengthsAre4(Checked4(WithLen4(s, ip, len), ip), ip, len)
  {
    var t := WithLen4(s, ip, len);
    LengthsSet4(s, ip, len);
    LengthsSurvive4(t, ip, len);
  }

  lemma LengthsSet4(s: seq<Byte>, ip: nat, len: int)
    requires LenFits4(s, ip)
    ensures LengthsAre4(WithLen4(s, ip, len), ip, len)
  {
  }

  lemma LengthsSurvive4(t: seq<Byte>, ip: nat, len: int)
    requires Checkable4(t, ip) && LengthsAre4(t, ip, len) && !LengthIsField(t, ip)
    ensures LengthsAre4(Checked4(t, ip), ip, len)
  {
    UpdateKeepsShape4(t, ip);
    PacketLenSurvives(t, ip);
    if Protocol(t, ip) == IPPROTO_UDP {
      UdpLenSurvives(t, ip, ip + HdrLen(t, ip) + 4);
    }
  }

  lemma PacketLenSurvives(t: seq<Byte>, ip: nat)
    requires Checkable4(t, ip) && !LengthIsField(t, ip)
    ensures Word(Checked4(t, ip), ip + 2) == Word(t, ip + 2)
  {
    FieldIsAligned(t, ip);
    UpdateChangesOnlyChecks4(t, ip, ip + 2);
    UpdateChangesOnlyChecks4(t, ip, ip + 3);
  }

  lemma UdpLenSurvives(t: seq<Byte>, ip: nat, at: nat)
    requires Checkable4(t, ip) && Protocol(t, ip) == IPPROTO_UDP && at == ip + HdrLen(t, ip) + 4 && at + 1 < |t|
    ensures Word(Checked4(t, ip), at) == Word(t, at)
  {
    assert at != ip + 10 && at + 1 != ip + 10 && at != ip + 11;
    UpdateChangesOnlyChecks4(t, ip, at);
    UpdateChangesOnlyChecks4(t, ip, at + 1);
  }

  lemma LengthsStand6(s: seq<Byte>, ip: nat, len: int)
    requires LenFits6(s, ip) && Checkable6(WithLen6(s, ip, len), ip)
    ensures LengthsAre6(Checked6(WithLen6(s, ip, len), ip), ip, len)
  {
    var t := WithLen6(s, ip, len);
    assert LengthsAre6(t, ip, len);
    if HasCheck6(NextHdr(t, ip)) {
      PutKeepsHeader6(t, ip, FieldOf6(t, ip), DataCheckOf6(t, ip));
    }
  }

  // ----- The methods on the buffer -----

  method UpdateLen(f: array<Byte>, len: int)
    requires LenFits(f[..])
    modifies f
    ensures f[..] == WithLen(old(f[..]), len)
  {
    var ip, ethType := EthHdrLen(f[..]), EthType(f[..]);
    if ethType == ETH_P_IP {
      var udp := ip + HdrLen(f[..], ip);
      StoreWord(f, ip + 2, U16(len - ip));
      if f[ip + 9] == IPPROTO_UDP {
        StoreWord(f, udp + 4, U16(DataLen(f[..], ip)));
      }
    } else if ethType == ETH_P_IPV6 {
      StoreWord(f, ip + 4, U16(len - ip - IPV6_HDR_LEN));
      if f[ip + 6] == IPPROTO_UDP {
        StoreWord(f, ip + 44, U16(PayloadLen(f[..], ip)));
      }
    }
  }

  method UpdateCheckSum(f: array<Byte>)
    requires Checkable(f[..])
    modifies f
    ensures f[..] == Checked(old(f[..]))
  {
    var ip, ethType := EthHdrLen(f[..]), EthType(f[..]);
    if ethType == ETH_P_IP {
      UpdateCheckSum4(f, ip);
    } else if ethType == ETH_P_IPV6 {
      UpdateCheckSum6(f, ip);
    }
  }

  /** Both updates in a row, for a frame about to be sent. */
  method PrepareFrame(f: array<Byte>, len: int)
    requires LenFits(f[..]) && Checkable(WithLen(f[..], len))
    modifies f
    ensures f[..] == Checked(WithLen(old(f[..]), len)) && Checkable(f[..])
    ensures Regular(WithLen(old(f[..]), len)) ==> Sound(f[..])
    ensures LengthsAre(f[..], len) <==>
      LengthsApart(WithLen(old(f[..]), len)) || U16(len - EthHdrLen(old(f[..]))) == 65535
    ensures forall j | 0 <= j < f.Length && !IsLenField(old(f[..]), j) && !IsCheckField(WithLen(old(f[..]), len), j) ::
      f[j] == old(f[j])
  {
    ghost var s := f[..];
    UpdateLen(f, len);
    UpdateCheckSum(f);
    UpdateIsSound(WithLen(s, len));
    LengthsStand(s, len);
    forall j | 0 <= j < f.Length && !IsLenField(s, j) && !IsCheckField(WithLen(s, len), j)
      ensures f[j] == s[j]
    {
      OnlyFieldsChange(s, len, j);
    }
  }
}
