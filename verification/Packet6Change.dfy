/**
 What the IPv6 checksums find: packets that differ in one covered word, of which one passes the test.
 */
module Packet6Change {
  import opened Common
  import opened Checksum
  import opened Packet6
  import opened PacketChange

  /** The payload of a packet with a checksum, holding the field, behind its pseudo-header. */
  ghost predicate Carries6(s: seq<Byte>, ip: nat, st: Stretch) {
    && DataFits6(s, ip) && HasCheck6(NextHdr(s, ip))
    && st == Stretch(FieldOf6(s, ip), Pseudo6(s, ip), ip + 40, PayloadLen(s, ip))
    && st.field + 2 <= st.off + st.len
  }

  /** The packet passes the test. */
  ghost predicate DataPasses6(s: seq<Byte>, ip: nat) {
    DataFits6(s, ip) && Word(s, FieldOf6(s, ip)) == DataCheckOf6(s, ip)
  }

  predicate InAddress6(ip: nat, j: nat) {
    ip + 8 <= j < ip + 40 && (j - ip) % 2 == 0
  }

  lemma CarriesFits6(s: seq<Byte>, ip: nat, st: Stretch)
    requires Carries6(s, ip, st)
    ensures st.Fits(s) && st.off == ip + 40 && |st.prefix| == 36 && st.prefix[33] > 0 && |s| >= ip + 40
    ensures st.Tested(s) <==> DataPasses6(s, ip)
  {
    assert Pseudo6(s, ip)[33] == s[ip + 6];
  }

  lemma AddressChanges6(s: seq<Byte>, ip: nat, j: nat, w: Word16) returns (p: nat)
    requires ip + 40 <= |s| && InAddress6(ip, j)
    ensures p == j - ip - 8 && p % 2 == 0 && p + 1 < 32
    ensures Pseudo6(PutWord(s, j, w), ip) == PutWord(Pseudo6(s, ip), p, w) && Word(Pseudo6(s, ip), p) == Word(s, j)
    ensures var t := PutWord(s, j, w);
      NextHdr(t, ip) == NextHdr(s, ip) && PayloadLen(t, ip) == PayloadLen(s, ip) && DataFits6(t, ip) == DataFits6(s, ip)
  {
    p := j - ip - 8;
    var t := PutWord(s, j, w);
    assert t[ip + 4] == s[ip + 4] && t[ip + 5] == s[ip + 5] && t[ip + 6] == s[ip + 6];
    assert t[ip + 8..ip + 40] == PutWord(s[ip + 8..ip + 40], p, w);
  }

  /** The word at `j`, in front of the payload, is also at `p` in the pseudo-header, which is changed with it. */
  ghost predicate InPseudo6(s: seq<Byte>, st: Stretch, p: nat, j: nat, w: Word16, st': Stretch) {
    && st.Fits(s) && j + 2 <= st.off && |st.prefix| == 36 && st.prefix[33] > 0
    && p + 1 < 32 && p % 2 == 0 && Word(st.prefix, p) == Word(s, j)
    && st' == st.(prefix := PutWord(st.prefix, p, w))
  }

  /** Where the payload is, and behind which pseudo-header, after the change. */
  lemma StillCarries6(s: seq<Byte>, ip: nat, st: Stretch, j: nat, w: Word16) returns (st': Stretch)
    requires Carries6(s, ip, st) && j + 1 < |s| && (InAddress6(ip, j) || st.off <= j)
    ensures Carries6(PutWord(s, j, w), ip, st')
    ensures if st.off <= j then st' == st else InPseudo6(s, st, j - ip - 8, j, w, st')
  {
    CarriesFits6(s, ip, st);
    st' := st;
    if st.off <= j {
      PutKeepsHeader6(s, ip, j, w);
    } else {
      var p := AddressChanges6(s, ip, j, w);
      st' := st.(prefix := PutWord(st.prefix, p, w));
    }
  }

  /** Behind the pseudo-header the next header always counts. */
  lemma NextHdrCounts(r: seq<Byte>, at: nat, i: nat)
    requires at + 1 < |r| && i + 1 < |r| && at >= 36 && i % 2 == 0 && i != 32 && r[33] > 0
    ensures OthersCount(r, at, i)
  {
    NonZeroCounts(PutWord(PutWord(r, at, 0), i, 0), 33);
  }

  lemma PayloadWord6(s: seq<Byte>, st: Stretch, j: nat, w: Word16)
    requires st.Fits(s) && |st.prefix| == 36 && st.prefix[33] > 0
    requires st.off <= j && j + 2 <= st.off + st.len && (j - st.off) % 2 == 0 && w != Word(s, j)
    ensures st.Fits(PutWord(s, j, w))
    ensures st.Tested(s) ==> (st.Tested(PutWord(s, j, w)) <==> j != st.field && Exchanged(Word(s, j), w))
  {
    var r, at, i := LayOut(s, st, j);
    assert r[33] == st.prefix[33];
    StretchWordPasses(s, st, j, w, r, at, i);
    NextHdrCounts(r, at, i);
  }

  lemma AddressWord6(s: seq<Byte>, st: Stretch, p: nat, j: nat, w: Word16, st': Stretch)
    requires j + 1 < |s| && w != Word(s, j)
    ensures InPseudo6(s, st, p, j, w, st') && st.Tested(s) ==>
      st'.Fits(PutWord(s, j, w)) && (st'.Tested(PutWord(s, j, w)) <==> Exchanged(Word(s, j), w))
  {
    if InPseudo6(s, st, p, j, w, st') {
      var t, r, at := PutWord(s, j, w), st.Region(s), st.At(st.field);
      assert r[33] == st.prefix[33];
      assert t[st.off..st.off + st.len] == s[st.off..st.off + st.len];
      PrefixWordPasses(s, t, st, p, w, r, at, st');
      NextHdrCounts(r, at, p);
    }
  }

  /**
   A change of one word of the payload or of an address is found unless it exchanges 0x0000 and 0xFFFF
   outside the field.
   */
  lemma WordPasses6(s: seq<Byte>, ip: nat, st: Stretch, j: nat, w: Word16)
    requires Carries6(s, ip, st) && DataPasses6(s, ip) && j + 1 < |s| && w != Word(s, j)
    requires InAddress6(ip, j) || (st.off <= j && j + 2 <= st.off + st.len && (j - st.off) % 2 == 0)
    ensures DataPasses6(PutWord(s, j, w), ip) <==> j != st.field && Exchanged(Word(s, j), w)
  {
    CarriesFits6(s, ip, st);
    var st' := StillCarries6(s, ip, st, j, w);
    CarriesFits6(PutWord(s, j, w), ip, st');
    if st.off <= j {
      PayloadWord6(s, st, j, w);
    } else {
      AddressWord6(s, st, j - ip - 8, j, w, st');
    }
  }
}
