/**
 What the updates do to a frame, byte by byte and in the numbers of the standards: where the IP header
 is, which protocols have a checksum, at which place, and what that checksum covers.
 */
module FrameSums {
  import opened Common
  import opened Checksum
  import opened Packet
  import opened Packet6
  import opened Frame

  /** All words of these bytes, the checksum among them, add up to 0xFFFF. */
  predicate Complete(s: seq<Byte>) {
    Fold(Sum16(s)) == 65535
  }

  /** Behind the Ethernet header, with or without a VLAN tag, comes at `ip` a header of this type. */
  predicate TypeAt(s: seq<Byte>, ip: nat, ethType: nat) {
    || (ip == 14 && |s| >= 14 && Word(s, 12) == ethType != 0x8100)
    || (ip == 18 && |s| >= 18 && Word(s, 12) == 0x8100 && Word(s, 16) == ethType)
  }

  lemma TypeIs(s: seq<Byte>, ip: nat, ethType: nat)
    requires TypeAt(s, ip, ethType)
    ensures EthFits(s) && EthHdrLen(s) == ip && EthType(s) == ethType
  {
  }

  // ----- IPv4 -----

  /** A whole header of `hl` bytes and a packet of `total` bytes. */
  predicate HeaderAt(s: seq<Byte>, ip: nat, hl: nat, total: nat) {
    && TypeAt(s, ip, 0x0800) && ip + 20 <= |s|
    && hl == (s[ip] as nat) % 16 * 4 && 20 <= hl <= total == Word(s, ip + 2) && ip + total <= |s|
  }

  predicate Whole(s: seq<Byte>, ip: nat)
    requires ip + 8 <= |s|
  {
    Word(s, ip + 6) % 0x4000 == 0
  }

  /** ICMP, IGMP, TCP and UDP, and where in their headers the checksum is. */
  predicate PlaceIs4(protocol: nat, place: nat) {
    || ((protocol == 1 || protocol == 2) && place == 2)
    || (protocol == 6 && place == 16)
    || (protocol == 17 && place == 6)
  }

  /** The data, behind the pseudo-header of section 3.1 of RFC 793 if the protocol is TCP or UDP. */
  function Covered4(s: seq<Byte>, ip: nat, hl: nat, total: nat): seq<Byte>
    requires ip + 20 <= |s| && hl <= total < 65536 && ip + total <= |s|
  {
    (if s[ip + 9] == 6 || s[ip + 9] == 17
     then s[ip + 12..ip + 20] + [0, s[ip + 9], (total - hl) / 256, (total - hl) % 256]
     else [])
    + s[ip + hl..ip + total]
  }

  lemma PlaceIsField4(s: seq<Byte>, ip: nat, hl: nat, total: nat, place: nat)
    requires HeaderAt(s, ip, hl, total) && PlaceIs4(s[ip + 9] as nat, place) && hl + place + 2 <= total
    ensures DataFits(s, ip) && FieldOf(s, ip) == ip + hl + place
    ensures SummedLen(s, ip) == total - hl && HdrLen(s, ip) == hl
    ensures HasCheck4(Protocol(s, ip)) && CheckPlace4(Protocol(s, ip)) == place
  {
  }

  lemma CoveredIs4(s: seq<Byte>, ip: nat, hl: nat, total: nat)
    requires ip + 20 <= |s| && hl == HdrLen(s, ip) <= total == Word(s, ip + 2) && ip + total <= |s|
    requires HasCheck4(Protocol(s, ip))
    ensures Covered4(s, ip, hl, total) == PrefixOf(s, ip) + s[ip + hl..ip + total]
  {
  }

  lemma HeaderStays(s: seq<Byte>, t: seq<Byte>, ip: nat, hl: nat, total: nat)
    requires HeaderAt(s, ip, hl, total) && |t| == |s|
    requires forall j | 0 <= j < ip + 10 :: t[j] == s[j]
    ensures HeaderAt(t, ip, hl, total) && t[ip + 9] == s[ip + 9] && (Whole(t, ip) <==> Whole(s, ip))
  {
    assert Word(t, ip + 6) == Word(s, ip + 6);
    assert Word(t, 12) == Word(s, 12) && Word(t, ip + 2) == Word(s, ip + 2);
    assert ip == 18 ==> Word(t, 16) == Word(s, 16);
  }

  lemma OnlyChecksChange4(s: seq<Byte>, ip: nat, k: nat)
    requires TypeAt(s, ip, 0x0800) && Checkable4(s, ip) && DataChecked(s, ip) && k == FieldOf(s, ip)
    ensures Checkable(s)
    ensures forall j | 0 <= j < |s| && j != ip + 10 && j != ip + 11 && j != k && j != k + 1 :: Checked(s)[j] == s[j]
  {
    TypeIs(s, ip, 0x0800);
    forall j | 0 <= j < |s| && j != ip + 10 && j != ip + 11 && j != k && j != k + 1
      ensures Checked(s)[j] == s[j]
    {
      UpdateChangesOnlyChecks4(s, ip, j);
    }
  }

  lemma OthersStay4(s: seq<Byte>, ip: nat, hl: nat, total: nat, place: nat)
    requires HeaderAt(s, ip, hl, total) && Whole(s, ip)
    requires PlaceIs4(s[ip + 9] as nat, place) && hl + place + 2 <= total
    ensures Checkable(s)
    ensures var k := ip + hl + place;
      forall j | 0 <= j < |s| && j != ip + 10 && j != ip + 11 && j != k && j != k + 1 :: Checked(s)[j] == s[j]
  {
    PlaceIsField4(s, ip, hl, total, place);
    OnlyChecksChange4(s, ip, ip + hl + place);
  }

  lemma BecomesSound4(s: seq<Byte>, ip: nat)
    requires TypeAt(s, ip, 0x0800) && Checkable4(s, ip) && HdrLen(s, ip) >= 20
    ensures Checkable(s) && Checkable4(Checked(s), ip) && Sound4(Checked(s), ip)
  {
    TypeIs(s, ip, 0x0800);
    FullHeaderKeepsApart(s, ip);
    UpdateIsSound4(s, ip);
  }

  /**
   `update_check_sum` on a TCP, UDP, ICMP or IGMP packet that is no fragment: header and data are
   complete, and nothing but the two checksums has changed.
   */
  lemma UpdateCompletes4(s: seq<Byte>, ip: nat, hl: nat, total: nat, place: nat)
    requires HeaderAt(s, ip, hl, total) && Whole(s, ip)
    requires PlaceIs4(s[ip + 9] as nat, place) && hl + place + 2 <= total
    ensures Checkable(s)
    ensures var t := Checked(s);
      && Complete(t[ip..ip + hl]) && Complete(Covered4(t, ip, hl, total))
      && forall j | 0 <= j < |s| && j != ip + 10 && j != ip + 11 && j != ip + hl + place && j != ip + hl + place + 1 ::
           t[j] == s[j]
  {
    OthersStay4(s, ip, hl, total, place);
    HeaderStays(s, Checked(s), ip, hl, total);
    PlaceIsField4(s, ip, hl, total, place);
    BecomesSound4(s, ip);
    SoundIsComplete4(Checked(s), ip, hl, total, place);
  }

  lemma SoundParts(t: seq<Byte>, ip: nat)
    ensures Checkable4(t, ip) && Sound4(t, ip) && DataChecked(t, ip) ==>
      HdrFits(t, ip) && HdrSound(t, ip) && DataFits(t, ip) && DataSound(t, ip)
  {
  }

  lemma HeaderFolds(t: seq<Byte>, ip: nat, hl: nat)
    requires ip + hl <= |t|
    ensures HdrFits(t, ip) && HdrSound(t, ip) && hl == HdrLen(t, ip) >= 12 ==> Complete(t[ip..ip + hl])
  {
    FoldsIs(t, [], ip, hl);
    assert [] + t[ip..ip + hl] == t[ip..ip + hl];
  }

  lemma SoundFolds(t: seq<Byte>, ip: nat, off: nat, len: nat, prefix: seq<Byte>)
    requires DataFits(t, ip) && off == ip + HdrLen(t, ip) && len == SummedLen(t, ip) && off + len <= |t|
    requires CheckPlace4(Protocol(t, ip)) + 2 <= len && prefix == PrefixOf(t, ip)
    ensures DataSound(t, ip) ==> Folds(t, prefix, off, len)
  {
  }

  lemma RegionFolds(t: seq<Byte>, prefix: seq<Byte>, off: nat, len: nat, region: seq<Byte>)
    requires off + len <= |t| && region == prefix + t[off..off + len]
    ensures Folds(t, prefix, off, len) ==> Complete(region)
  {
    FoldsIs(t, prefix, off, len);
  }

  lemma DataFolds(t: seq<Byte>, ip: nat, off: nat, len: nat, prefix: seq<Byte>, region: seq<Byte>)
    requires DataFits(t, ip) && off == ip + HdrLen(t, ip) && len == SummedLen(t, ip) && off + len <= |t|
    requires CheckPlace4(Protocol(t, ip)) + 2 <= len
    requires prefix == PrefixOf(t, ip) && region == prefix + t[off..off + len]
    ensures DataSound(t, ip) ==> Complete(region)
  {
    SoundFolds(t, ip, off, len, prefix);
    RegionFolds(t, prefix, off, len, region);
  }

  lemma SoundIsComplete4(t: seq<Byte>, ip: nat, hl: nat, total: nat, place: nat)
    requires HeaderAt(t, ip, hl, total) && Whole(t, ip) && PlaceIs4(t[ip + 9] as nat, place) && hl + place + 2 <= total
    ensures Checkable4(t, ip) && Sound4(t, ip) ==> Complete(t[ip..ip + hl]) && Complete(Covered4(t, ip, hl, total))
  {
    PlaceIsField4(t, ip, hl, total, place);
    SoundParts(t, ip);
    HeaderFolds(t, ip, hl);
    CoveredIs4(t, ip, hl, total);
    DataFolds(t, ip, ip + hl, total - hl, PrefixOf(t, ip), Covered4(t, ip, hl, total));
  }

  lemma FoldsIs(t: seq<Byte>, prefix: seq<Byte>, off: nat, len: nat)
    requires off + len <= |t|
    ensures Folds(t, prefix, off, len) <==> Complete(prefix + t[off..off + len])
  {
    assert Segment(t, off, len) == t[off..off + len];
  }

  lemma OnlyHeaderChecks4(s: seq<Byte>, ip: nat)
    requires TypeAt(s, ip, 0x0800) && Checkable4(s, ip) && !DataChecked(s, ip)
    ensures Checkable(s) && forall j | 0 <= j < |s| && j != ip + 10 && j != ip + 11 :: Checked(s)[j] == s[j]
  {
    TypeIs(s, ip, 0x0800);
    forall j | 0 <= j < |s| && j != ip + 10 && j != ip + 11
      ensures Checked(s)[j] == s[j]
    {
      UpdateChangesOnlyChecks4(s, ip, j);
    }
  }

  lemma SoundHeader(t: seq<Byte>, ip: nat)
    ensures Checkable4(t, ip) && Sound4(t, ip) ==> HdrFits(t, ip) && HdrSound(t, ip)
  {
  }

  /** On a fragment, or with another protocol, only the header's checksum is touched, and completes it. */
  lemma UpdateLeavesData4(s: seq<Byte>, ip: nat, hl: nat, total: nat)
    requires HeaderAt(s, ip, hl, total) && (!Whole(s, ip) || s[ip + 9] !in {1, 2, 6, 17})
    ensures Checkable(s)
    ensures var t := Checked(s);
      && Complete(t[ip..ip + hl])
      && forall j | 0 <= j < |s| && j != ip + 10 && j != ip + 11 :: t[j] == s[j]
  {
    BecomesSound4(s, ip);
    OnlyHeaderChecks4(s, ip);
    HeaderStays(s, Checked(s), ip, hl, total);
    SoundHeader(Checked(s), ip);
    HeaderFolds(Checked(s), ip, hl);
  }

  /** A header of `hl` bytes, and room for a packet of `total` bytes, whatever length it carries now. */
  predicate RoomAt(s: seq<Byte>, ip: nat, hl: nat, total: nat) {
    && TypeAt(s, ip, 0x0800) && ip + 20 <= |s|
    && hl == (s[ip] as nat) % 16 * 4 && 20 <= hl <= total < 65536 && ip + total <= |s|
  }

  /** A byte of the packet's length, or of a UDP datagram's. */
  predicate OfLength4(s: seq<Byte>, ip: nat, hl: nat, j: nat)
    requires ip + 10 <= |s|
  {
    j == ip + 2 || j == ip + 3 || (s[ip + 9] == 17 && (j == ip + hl + 4 || j == ip + hl + 5))
  }

  lemma LengthIsPut(s: seq<Byte>, ip: nat, len: Word16)
    requires ip + 10 <= |s|
    ensures var t := PutWord(s, ip + 2, len);
      HdrLen(t, ip) == HdrLen(s, ip) && Protocol(t, ip) == Protocol(s, ip) && Word(t, ip + 2) == len
  {
  }

  lemma DatagramLength(t: seq<Byte>, k: nat, n: int)
    requires k + 1 < |t| && 0 <= n < 65536
    ensures Word(PutWord(t, k, U16(n)), k) == n
  {
  }

  lemma UdpLength(s: seq<Byte>, ip: nat, len: Word16)
    requires LenFits4(s, ip) && Protocol(s, ip) == IPPROTO_UDP && HdrLen(s, ip) <= len
    ensures Word(WithLen4(s, ip, len), ip + HdrLen(s, ip) + 4) == len - HdrLen(s, ip)
  {
    LengthIsPut(s, ip, U16(len));
    var t := PutWord(s, ip + 2, U16(len));
    assert WithLen4(s, ip, len) == PutWord(t, ip + HdrLen(s, ip) + 4, U16(DataLen(t, ip)));
    DatagramLength(t, ip + HdrLen(s, ip) + 4, DataLen(t, ip));
  }

  lemma UdpLengthGoesIn4(s: seq<Byte>, ip: nat, hl: nat, total: nat)
    requires RoomAt(s, ip, hl, total) && s[ip + 9] == 17 && hl + 8 <= total
    ensures LenFits(s) && Word(WithLen(s, ip + total), ip + hl + 4) == total - hl
  {
    TypeIs(s, ip, 0x0800);
    UdpLength(s, ip, total);
  }

  lemma LengthsGoIn4(s: seq<Byte>, ip: nat, hl: nat, total: nat)
    requires RoomAt(s, ip, hl, total) && (s[ip + 9] == 17 ==> hl + 8 <= total)
    ensures LenFits(s)
    ensures var t := WithLen(s, ip + total);
      && HeaderAt(t, ip, hl, total) && t[ip + 9] == s[ip + 9] && (Whole(t, ip) <==> Whole(s, ip))
      && (s[ip + 9] == 17 ==> Word(t, ip + hl + 4) == total - hl)
      && forall j | 0 <= j < |s| && !OfLength4(s, ip, hl, j) :: t[j] == s[j]
  {
    TypeIs(s, ip, 0x0800);
    var t := WithLen(s, ip + total);
    forall j | 0 <= j < |s| && !OfLength4(s, ip, hl, j)
      ensures t[j] == s[j]
    {
      Len4Field(s, ip, total, j);
    }
    if s[ip + 9] == 17 {
      UdpLengthGoesIn4(s, ip, hl, total);
    }
    assert Word(t, 12) == Word(s, 12) && Word(t, ip + 6) == Word(s, ip + 6);
    assert ip == 18 ==> Word(t, 16) == Word(s, 16);
  }

  /**
   A frame made ready to be sent, by `update_len` and then `update_check_sum`: it carries its length, a
   UDP datagram its own, header and data are complete, and nothing else has changed.
   */
  lemma PreparedIsComplete4(s: seq<Byte>, ip: nat, hl: nat, total: nat, place: nat)
    requires RoomAt(s, ip, hl, total) && Whole(s, ip)
    requires PlaceIs4(s[ip + 9] as nat, place) && hl + place + 2 <= total
    ensures LenFits(s) && Checkable(WithLen(s, ip + total))
    ensures var t := Checked(WithLen(s, ip + total));
      && Word(t, ip + 2) == total && (s[ip + 9] == 17 ==> Word(t, ip + hl + 4) == total - hl)
      && Complete(t[ip..ip + hl]) && Complete(Covered4(t, ip, hl, total))
      && forall j | 0 <= j < |s| && !OfLength4(s, ip, hl, j) && j != ip + 10 && j != ip + 11 &&
                    j != ip + hl + place && j != ip + hl + place + 1 :: t[j] == s[j]
  {
    LengthsGoIn4(s, ip, hl, total);
    UpdateCompletes4(WithLen(s, ip + total), ip, hl, total, place);
  }

  // ----- What the tests find -----

  lemma {:induction false} TestOfWhole(r: seq<Byte>, at: nat, zeroed: seq<Byte>)
    requires at + 1 < |r| && at % 2 == 0 && zeroed == PutWord(r, at, 0)
    ensures Complete(r) <==> Word(r, at) == Sum(zeroed) || (Sum(zeroed) == 0 && Word(r, at) == 65535)
  {
    TestAgainstSum(r, at);
  }

  /** The test of a field against the sum over all: a field of 0xFFFF is rejected where the checksum is 0. */
  lemma TestIsSum(s: seq<Byte>, k: nat, prefix: seq<Byte>, off: nat, len: nat)
    requires off <= k && k + 2 <= off + len <= |s| && (k - off) % 2 == 0 && |prefix| % 2 == 0
    ensures var check := CheckOver(s, k, prefix, off, len);
      Complete(prefix + s[off..off + len]) <==> Word(s, k) == check || (check == 0 && Word(s, k) == 65535)
  {
    var r, at := prefix + Segment(s, off, len), |prefix| + (k - off);
    AllInside(s, k, 0, prefix, off, len);
    TestOfWhole(r, at, prefix + Segment(PutWord(s, k, 0), off, len));
    assert r[at] == s[k] && r[at + 1] == s[k + 1];
  }

  /** What `ip_checksum_wrong` compares: a header passes if complete, but for the field 0xFFFF. */
  lemma HeaderTestIs4(s: seq<Byte>, ip: nat, hl: nat, total: nat)
    requires HeaderAt(s, ip, hl, total)
    ensures HdrFits(s, ip)
    ensures var (field, check) := (Word(s, ip + 10), IpCheckOf(s, ip));
      Complete(s[ip..ip + hl]) <==> field == check || (check == 0 && field == 65535)
  {
    TestIsSum(s, ip + 10, [], ip, hl);
    assert [] + s[ip..ip + hl] == s[ip..ip + hl];
  }

  lemma RegionTestIs(s: seq<Byte>, k: nat, prefix: seq<Byte>, off: nat, len: nat, region: seq<Byte>, check: Word16)
    requires off <= k && k + 2 <= off + len <= |s| && (k - off) % 2 == 0 && |prefix| % 2 == 0
    requires region == prefix + s[off..off + len] && check == CheckOver(s, k, prefix, off, len)
    ensures Complete(region) <==> Word(s, k) == check || (check == 0 && Word(s, k) == 65535)
  {
    TestIsSum(s, k, prefix, off, len);
  }

  lemma FieldTestIs4(s: seq<Byte>, ip: nat, k: nat, off: nat, len: nat, prefix: seq<Byte>, region: seq<Byte>,
                     check: Word16)
    requires DataFits(s, ip) && off == ip + HdrLen(s, ip) && len == SummedLen(s, ip) && off + len <= |s|
    requires CheckPlace4(Protocol(s, ip)) + 2 <= len && k == FieldOf(s, ip) && check == DataCheckOf(s, ip)
    requires prefix == PrefixOf(s, ip) && region == prefix + s[off..off + len]
    ensures Complete(region) <==> Word(s, k) == check || (check == 0 && Word(s, k) == 65535)
  {
    DataCheckIs(s, ip, k, off, len);
    RegionTestIs(s, k, prefix, off, len, region, check);
  }

  lemma CoveredTestIs4(s: seq<Byte>, ip: nat, hl: nat, total: nat)
    requires DataFits(s, ip) && HasCheck4(Protocol(s, ip)) && hl == HdrLen(s, ip) <= total == Word(s, ip + 2)
    requires SummedLen(s, ip) == total - hl >= CheckPlace4(Protocol(s, ip)) + 2 && ip + total <= |s|
    ensures var (field, check) := (Word(s, FieldOf(s, ip)), DataCheckOf(s, ip));
      Complete(Covered4(s, ip, hl, total)) <==> field == check || (check == 0 && field == 65535)
  {
    var k := FieldOf(s, ip);
    CoveredIs4(s, ip, hl, total);
    FieldTestIs4(s, ip, k, ip + hl, total - hl, PrefixOf(s, ip), Covered4(s, ip, hl, total), DataCheckOf(s, ip));
  }

  /** And the tests of TCP, UDP, ICMP and IGMP, behind the pseudo-header that the protocol has. */
  lemma DataTestIs4(s: seq<Byte>, ip: nat, hl: nat, total: nat, place: nat)
    requires HeaderAt(s, ip, hl, total) && PlaceIs4(s[ip + 9] as nat, place) && hl + place + 2 <= total
    ensures DataFits(s, ip) && FieldOf(s, ip) == ip + hl + place
    ensures var (field, check) := (Word(s, FieldOf(s, ip)), DataCheckOf(s, ip));
      Complete(Covered4(s, ip, hl, total)) <==> field == check || (check == 0 && field == 65535)
  {
    PlaceIsField4(s, ip, hl, total, place);
    CoveredTestIs4(s, ip, hl, total);
  }

  // ----- IPv6 -----

  predicate HeaderAt6(s: seq<Byte>, ip: nat, payload: nat) {
    TypeAt(s, ip, 0x86DD) && ip + 40 <= |s| && payload == Word(s, ip + 4) && ip + 40 + payload <= |s|
  }

  /** TCP, UDP and ICMPv6. */
  predicate PlaceIs6(nextHdr: nat, place: nat) {
    (nextHdr == 6 && place == 16) || (nextHdr == 17 && place == 6) || (nextHdr == 58 && place == 2)
  }

  /** The payload behind the pseudo-header of section 8.1 of RFC 8200. */
  function Covered6(s: seq<Byte>, ip: nat, payload: nat): seq<Byte>
    requires ip + 40 + payload <= |s| && payload < 65536
  {
    s[ip + 8..ip + 40] + [0, 0, payload / 256, payload % 256, 0, 0, 0, s[ip + 6]] + s[ip + 40..ip + 40 + payload]
  }

  lemma PlaceIsField6(s: seq<Byte>, ip: nat, payload: nat, place: nat)
    requires HeaderAt6(s, ip, payload) && PlaceIs6(s[ip + 6] as nat, place) && place + 2 <= payload
    ensures Checkable6(s, ip) && DataFits6(s, ip) && FieldOf6(s, ip) == ip + 40 + place
    ensures HasCheck6(NextHdr(s, ip)) && CheckPlace6(NextHdr(s, ip)) == place && PayloadLen(s, ip) == payload
  {
  }

  lemma CoveredIs6(s: seq<Byte>, ip: nat, payload: nat)
    requires ip + 40 + payload <= |s| && payload == PayloadLen(s, ip)
    ensures Covered6(s, ip, payload) == Rfc8200Pseudo(s, ip) + s[ip + 40..ip + 40 + payload]
  {
  }

  lemma SoundIsComplete6(t: seq<Byte>, ip: nat, payload: nat, place: nat)
    requires HeaderAt6(t, ip, payload) && PlaceIs6(t[ip + 6] as nat, place) && place + 2 <= payload
    requires Checkable6(t, ip) && Sound6(t, ip)
    ensures Complete(Covered6(t, ip, payload))
  {
    var data := t[ip + 40..ip + 40 + payload];
    PlaceIsField6(t, ip, payload, place);
    FoldsIs(t, Pseudo6(t, ip), ip + 40, payload);
    PseudoIsStandard(t, ip, data);
    CoveredIs6(t, ip, payload);
  }

  lemma HeaderStays6(s: seq<Byte>, t: seq<Byte>, ip: nat, payload: nat)
    requires HeaderAt6(s, ip, payload) && |t| == |s| && forall j | 0 <= j < ip + 40 :: t[j] == s[j]
    ensures HeaderAt6(t, ip, payload) && t[ip + 6] == s[ip + 6]
  {
    assert Word(t, 12) == Word(s, 12) && Word(t, ip + 4) == Word(s, ip + 4);
    assert ip == 18 ==> Word(t, 16) == Word(s, 16);
  }

  /** `update_check_sum` on a TCP, UDP or ICMPv6 packet. */
  lemma UpdateCompletes6(s: seq<Byte>, ip: nat, payload: nat, place: nat)
    requires HeaderAt6(s, ip, payload) && PlaceIs6(s[ip + 6] as nat, place) && place + 2 <= payload
    ensures Checkable(s)
    ensures var t := Checked(s);
      && Complete(Covered6(t, ip, payload))
      && forall j | 0 <= j < |s| && j != ip + 40 + place && j != ip + 40 + place + 1 :: t[j] == s[j]
  {
    TypeIs(s, ip, 0x86DD);
    PlaceIsField6(s, ip, payload, place);
    UpdateIsSound6(s, ip);
    var t := Checked(s);
    assert t == PutWord(s, ip + 40 + place, DataCheckOf6(s, ip));
    HeaderStays6(s, t, ip, payload);
    SoundIsComplete6(t, ip, payload, place);
  }

  /** What the tests of TCP, UDP and ICMPv6 compare. */
  lemma DataTestIs6(s: seq<Byte>, ip: nat, payload: nat, place: nat)
    requires HeaderAt6(s, ip, payload) && PlaceIs6(s[ip + 6] as nat, place) && place + 2 <= payload
    ensures DataFits6(s, ip) && FieldOf6(s, ip) == ip + 40 + place
    ensures var (field, check) := (Word(s, FieldOf6(s, ip)), DataCheckOf6(s, ip));
      Complete(Covered6(s, ip, payload)) <==> field == check || (check == 0 && field == 65535)
  {
    PlaceIsField6(s, ip, payload, place);
    CoveredIs6(s, ip, payload);
    PseudoIsStandard(s, ip, s[ip + 40..ip + 40 + payload]);
    TestIsSum(s, ip + 40 + place, Pseudo6(s, ip), ip + 40, payload);
  }

  predicate RoomAt6(s: seq<Byte>, ip: nat, payload: nat) {
    TypeAt(s, ip, 0x86DD) && payload < 65536 && ip + 40 + payload <= |s|
  }

  predicate OfLength6(s: seq<Byte>, ip: nat, j: nat)
    requires ip + 7 <= |s|
  {
    j == ip + 4 || j == ip + 5 || (s[ip + 6] == 17 && (j == ip + 44 || j == ip + 45))
  }

  lemma LengthsAreIn6(s: seq<Byte>, ip: nat, payload: Word16)
    requires LenFits6(s, ip)
    ensures var r := WithLen6(s, ip, 40 + payload);
      Word(r, ip + 4) == payload && r[ip + 6] == s[ip + 6] && (s[ip + 6] == 17 ==> Word(r, ip + 44) == payload)
  {
    var t := PutWord(s, ip + 4, U16(payload));
    assert t[ip + 6] == s[ip + 6] && PayloadLen(t, ip) == payload;
    if s[ip + 6] == 17 {
      assert WithLen6(s, ip, 40 + payload) == PutWord(t, ip + 44, PayloadLen(t, ip));
    } else {
      assert WithLen6(s, ip, 40 + payload) == t;
    }
  }

  lemma LengthsGoIn6(s: seq<Byte>, ip: nat, payload: nat)
    requires RoomAt6(s, ip, payload) && (s[ip + 6] == 17 ==> 8 <= payload)
    ensures LenFits(s)
    ensures var t := WithLen(s, ip + 40 + payload);
      && HeaderAt6(t, ip, payload) && t[ip + 6] == s[ip + 6] && (s[ip + 6] == 17 ==> Word(t, ip + 44) == payload)
      && forall j | 0 <= j < |s| && !OfLength6(s, ip, j) :: t[j] == s[j]
  {
    TypeIs(s, ip, 0x86DD);
    var t := WithLen(s, ip + 40 + payload);
    forall j | 0 <= j < |s| && !OfLength6(s, ip, j)
      ensures t[j] == s[j]
    {
      Len6Field(s, ip, 40 + payload, j);
    }
    LengthsAreIn6(s, ip, payload);
    assert Word(t, 12) == Word(s, 12) && (ip == 18 ==> Word(t, 16) == Word(s, 16));
  }

  /** The same over IPv6. */
  lemma PreparedIsComplete6(s: seq<Byte>, ip: nat, payload: nat, place: nat)
    requires RoomAt6(s, ip, payload) && PlaceIs6(s[ip + 6] as nat, place) && place + 2 <= payload
    ensures LenFits(s) && Checkable(WithLen(s, ip + 40 + payload))
    ensures var t := Checked(WithLen(s, ip + 40 + payload));
      && Word(t, ip + 4) == payload && (s[ip + 6] == 17 ==> Word(t, ip + 44) == payload)
      && Complete(Covered6(t, ip, payload))
      && forall j | 0 <= j < |s| && !OfLength6(s, ip, j) && j != ip + 40 + place && j != ip + 40 + place + 1 ::
           t[j] == s[j]
  {
    LengthsGoIn6(s, ip, payload);
    UpdateCompletes6(WithLen(s, ip + 40 + payload), ip, payload, place);
  }

  /** Other IPv6 packets, fragments among them, and frames that carry neither IPv4 nor IPv6 stay as they are. */
  lemma UpdateLeavesOthers(s: seq<Byte>, ip: nat, ethType: nat)
    requires TypeAt(s, ip, ethType) && ethType != 0x0800
    requires ethType == 0x86DD ==> ip + 40 <= |s| && s[ip + 6] !in {6, 17, 58}
    ensures Checkable(s) && Checked(s) == s
  {
    TypeIs(s, ip, ethType);
  }
}
