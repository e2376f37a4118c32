/**
 Frames at which the updates do what they are not meant to do.  Each has its IP header at byte 14.
 */
module FrameCases {
  import opened Common
  import opened Checksum
  import opened Packet
  import opened Frame

  // ----- A UDP checksum of 0 -----

  /** An empty UDP datagram from 255.222.0.0, ports and destination 0. */
  function UnluckyFrame(): (s: seq<Byte>)
    ensures |s| == 42
  {
    seq(42, i requires 0 <= i < 42 =>
      if i == 12 then 8 else if i == 14 then 69 else if i == 17 then 28 else if i == 23 then 17
      else if i == 26 then 255 else if i == 27 then 222 else if i == 39 then 8 else 0)
  }

  lemma UnluckyFields(s: seq<Byte>)
    requires |s| == 42 && s[14] == 69 && s[23] == 17 && Word(s, 16) == 28 && Word(s, 20) == 0
    ensures DataFits(s, 14) && FieldOf(s, 14) == 40 && HdrLen(s, 14) == 20 && Protocol(s, 14) == IPPROTO_UDP
    ensures SummedLen(s, 14) == DataLen(s, 14) == 8 && DataChecked(s, 14) && PrefixOf(s, 14) == Pseudo4(s, 14)
  {
  }

  lemma UnluckyData()
    ensures Sum16(Segment(PutWord(UnluckyFrame(), 40, 0), 34, 8)) == 8
  {
    FourWords(Segment(PutWord(UnluckyFrame(), 40, 0), 34, 8), 0, 0, 8, 0);
  }

  lemma UnluckyPseudo()
    ensures DataLen(UnluckyFrame(), 14) == 8 && Sum16(Pseudo4(UnluckyFrame(), 14)) == 65527
  {
    PseudoOf(UnluckyFrame());
  }

  lemma PseudoOf(s: seq<Byte>)
    requires |s| == 42 && s[14] == 69 && s[23] == 17 && Word(s, 16) == 28
    requires Word(s, 26) == 65502 && Word(s, 28) == 0 && Word(s, 30) == 0 && Word(s, 32) == 0
    ensures DataLen(s, 14) == 8 && Sum16(Pseudo4(s, 14)) == 65527
  {
    PseudoSum(s, 14);
  }

  lemma UnluckySum()
    ensures DataFits(UnluckyFrame(), 14) && Sum16(Summed(UnluckyFrame(), 14)) == 65535
  {
    var s := UnluckyFrame();
    UnluckyFields(s);
    UnluckyData();
    UnluckyPseudo();
    SumAppend(Pseudo4(s, 14), Segment(PutWord(s, 40, 0), 34, 8));
  }

  lemma UnluckyShape()
    ensures Checkable(UnluckyFrame()) && EthHdrLen(UnluckyFrame()) == 14 && EthType(UnluckyFrame()) == ETH_P_IP
    ensures LengthsAre(UnluckyFrame(), 42)
  {
    var s := UnluckyFrame();
    assert Word(s, 12) == ETH_P_IP && Word(s, 38) == 8 && Word(s, 16) == 28;
    UnluckyFields(s);
  }

  /** Its checksum comes out as 0 and is stored so: the frame is sent as one without a checksum. */
  lemma UdpZeroHappens()
    ensures Checkable(UnluckyFrame()) && Regular(UnluckyFrame()) && LengthsAre(UnluckyFrame(), 42)
    ensures EthHdrLen(UnluckyFrame()) == 14 && Protocol(UnluckyFrame(), 14) == IPPROTO_UDP
    ensures Word(Checked(UnluckyFrame()), 40) == 0
  {
    var s := UnluckyFrame();
    UnluckyShape();
    UnluckyFields(s);
    FullHeaderKeepsApart(s, 14);
    UnluckySum();
    UnluckyStored(s);
  }

  lemma UnluckyStored(s: seq<Byte>)
    requires Checkable4(s, 14) && DataChecked(s, 14) && Protocol(s, 14) == IPPROTO_UDP && HdrLen(s, 14) == 20
    requires DataFits(s, 14) && FieldOf(s, 14) == 40 && Sum16(Summed(s, 14)) == 65535
    ensures Word(Checked4(s, 14), 40) == 0
  {
    UdpZeroIff4(s, 14);
  }

  // ----- Headers of fewer than five words -----

  /** A packet of 46 zero bytes but for the first byte of its header and its protocol. */
  function ShortFrame(first: Byte, protocol: Byte): (s: seq<Byte>)
    ensures |s| == 60
  {
    seq(60, i requires 0 <= i < 60 => if i == 12 then 8 else if i == 14 then first else if i == 23 then protocol else 0)
  }

  /** A UDP packet whose header claims to be of one or two words, and not to have any data. */
  predicate IsShort(t: seq<Byte>, words: nat) {
    && |t| == 60 && 1 <= words <= 2 && t[14] == 64 + words && t[23] == 17 && Word(t, 16) == 0 && Word(t, 20) == 0
    && forall i | 26 <= i < 34 :: t[i] == 0
  }

  lemma ShortFields(t: seq<Byte>, words: nat)
    requires IsShort(t, words)
    ensures DataFits(t, 14) && FieldOf(t, 14) == 20 + 4 * words && HdrLen(t, 14) == 4 * words
    ensures Protocol(t, 14) == IPPROTO_UDP && DataChecked(t, 14) && PrefixOf(t, 14) == Pseudo4(t, 14)
    ensures SummedLen(t, 14) == DataLen(t, 14) == -4 * words
  {
  }

  /** The pseudo-header alone is added up: protocol 17 and a negative length in 16 bits. */
  lemma ShortDataSum(t: seq<Byte>, words: nat)
    requires IsShort(t, words)
    ensures DataFits(t, 14) && DataCheckOf(t, 14) == 65535 - (18 - 4 * words)
  {
    ShortFields(t, words);
    PseudoSum(t, 14);
    DataCheckIs(t, 14, 20 + 4 * words, 14 + 4 * words, -4 * words);
    CheckInParts(t, 20 + 4 * words, Pseudo4(t, 14), 14 + 4 * words, -4 * words, 17 + 65536 - 4 * words);
  }

  lemma ShortIsChecked(words: nat)
    requires 1 <= words <= 2
    ensures var s := ShortFrame(64 + words, 17);
      && IsShort(s, words) && Checkable(s) && EthHdrLen(s) == 14 && EthType(s) == ETH_P_IP
      && IsShort(WithIpCheck(s, 14), words)
  {
    var s := ShortFrame(64 + words, 17);
    assert Word(s, 12) == ETH_P_IP;
    ShortFields(s, words);
  }

  lemma ShortHeaderSum()
    ensures HdrFits(ShortFrame(65, 17), 14) && IpCheckOf(ShortFrame(65, 17), 14) == 65535 - 65 * 256
  {
    var s := ShortFrame(65, 17);
    ShortIsChecked(1);
    ShortFields(s, 1);
    var header := Segment(PutWord(s, 24, 0), 14, 4);
    assert [] + header == [65, 0, 0, 0];
    assert [65, 0, 0, 0][2..] == [0, 0] && [0, 0][2..] == [];
  }

  /** A header of one word: the data's checksum goes into the header's field, and the header fails its test. */
  lemma ShortHeaderFails()
    ensures Checkable(ShortFrame(65, 17)) && !Regular(ShortFrame(65, 17))
    ensures var t := Checked(ShortFrame(65, 17));
      HdrFits(t, 14) && Word(t, 24) != IpCheckOf(t, 14)
  {
    var s := ShortFrame(65, 17);
    ShortIsChecked(1);
    ShortFields(s, 1);
    ShortHeaderSum();
    ShortDataSum(WithIpCheck(s, 14), 1);
    UpdatePassesIff4(s, 14);
  }

  /** A header of two words: the data's checksum goes into the source address, and the data fails its test. */
  lemma ShortAddressFails()
    ensures Checkable(ShortFrame(66, 17)) && !Regular(ShortFrame(66, 17))
    ensures var t := Checked(ShortFrame(66, 17));
      DataFits(t, 14) && FieldOf(t, 14) == 28 && Word(t, 28) != DataCheckOf(t, 14)
  {
    var s := ShortFrame(66, 17);
    ShortIsChecked(2);
    ShortFields(s, 2);
    ShortDataSum(WithIpCheck(s, 14), 2);
    UpdatePassesIff4(s, 14);
  }

  lemma NoHeaderShape(t: seq<Byte>)
    requires |t| == 60 && Word(t, 12) == ETH_P_IP && t[14] == 64 && t[23] == 1 && Word(t, 20) == 0
    ensures LenFits(t) && Checkable(t) && EthHdrLen(t) == 14 && EthType(t) == ETH_P_IP && !LengthsApart(t)
  {
  }

  /** An ICMP message behind a header of no length: its checksum is stored over the length. */
  lemma LengthIsLost()
    ensures LenFits(ShortFrame(64, 1)) && Checkable(WithLen(ShortFrame(64, 1), 60))
    ensures var t := Checked(WithLen(ShortFrame(64, 1), 60));
      Checkable(t) && !LengthsAre(t, 60)
  {
    var s := ShortFrame(64, 1);
    assert Word(s, 12) == ETH_P_IP;
    NoHeaderShape(s);
    NoHeaderShape(WithLen(s, 60));
    LengthsStand(s, 60);
  }
}
