/**
 What the checksums find: packets that differ in one 16-bit word, of which one passes the test.
 */
module PacketChange {
  import opened Common
  import opened Checksum
  import opened Packet

  // ----- A stretch of a frame with its checksum field and prefix -----

  datatype Stretch = Stretch(field: nat, prefix: seq<Byte>, off: nat, len: nat) {
    /** The field is an aligned word of the stretch. */
    predicate Fits(s: seq<Byte>) {
      off <= field && field + 2 <= off + len <= |s| && (field - off) % 2 == 0 && |prefix| % 2 == 0
    }

    predicate Tested(s: seq<Byte>)
      requires Fits(s)
    {
      Word(s, field) == CheckOver(s, field, prefix, off, len)
    }

    /** All that is added up, the field included. */
    function Region(s: seq<Byte>): seq<Byte>
      requires Fits(s)
    {
      prefix + s[off..off + len]
    }

    /** Where the byte at `j` of the frame is in the region. */
    function At(j: nat): nat
      requires off <= j
    {
      |prefix| + (j - off)
    }
  }

  lemma TestOfRegion(s: seq<Byte>, st: Stretch)
    requires st.Fits(s)
    ensures st.At(st.field) + 1 < |st.Region(s)| && st.At(st.field) % 2 == 0
    ensures st.Tested(s) <==> Passes(st.Region(s), st.At(st.field))
  {
    var r, at := st.Region(s), st.At(st.field);
    AllInside(s, st.field, 0, st.prefix, st.off, st.len);
    assert r[at] == s[st.field] && r[at + 1] == s[st.field + 1];
  }

  lemma WordOfRegion(s: seq<Byte>, st: Stretch, j: nat, w: Word16)
    requires st.Fits(s) && st.off <= j && j + 2 <= st.off + st.len
    ensures st.Fits(PutWord(s, j, w)) && st.At(j) + 1 < |st.Region(s)| && Word(st.Region(s), st.At(j)) == Word(s, j)
    ensures st.Region(PutWord(s, j, w)) == PutWord(st.Region(s), st.At(j), w)
  {
    AllInside(s, j, w, st.prefix, st.off, st.len);
    assert st.Region(s)[st.At(j)] == s[j] && st.Region(s)[st.At(j) + 1] == s[j + 1];
  }

  /** The region, where the field is in it, and where the word at `j` of the frame is. */
  predicate Laid(s: seq<Byte>, st: Stretch, j: nat, r: seq<Byte>, at: nat, i: nat) {
    && st.Fits(s) && st.off <= j && j + 2 <= st.off + st.len && (j - st.off) % 2 == 0
    && r == st.Region(s) && at == st.At(st.field) && i == st.At(j)
    && i + 1 < |r| && i % 2 == 0 && at + 1 < |r| && at % 2 == 0
  }

  /**
   A change of one word of the stretch, the field or another, goes unnoticed exactly if it exchanges
   0x0000 and 0xFFFF outside the field, and something else in the region is not zero.
   */
  lemma StretchWordPasses(s: seq<Byte>, st: Stretch, j: nat, w: Word16, r: seq<Byte>, at: nat, i: nat)
    requires Laid(s, st, j, r, at, i) && w != Word(s, j)
    ensures st.Fits(PutWord(s, j, w))
    ensures st.Tested(s) ==>
      (st.Tested(PutWord(s, j, w)) <==> i != at && Exchanged(Word(r, i), w) && OthersCount(r, at, i))
    ensures Word(r, i) == Word(s, j)
  {
    WordOfRegion(s, st, j, w);
    TestOfRegion(s, st);
    TestOfRegion(PutWord(s, j, w), st);
    if Passes(r, at) {
      OneWordPasses(r, at, i, w);
    }
  }

  lemma PutInPrefix(p: seq<Byte>, data: seq<Byte>, i: nat, w: Word16)
    requires i + 1 < |p|
    ensures PutWord(p, i, w) + data == PutWord(p + data, i, w)
  {
  }

  lemma PrefixRegion(s: seq<Byte>, t: seq<Byte>, st: Stretch, i: nat, w: Word16, r: seq<Byte>, at: nat, st': Stretch)
    requires st.Fits(s) && r == st.Region(s) && at == st.At(st.field)
    requires |t| == |s| && t[st.off..st.off + st.len] == s[st.off..st.off + st.len]
    requires i + 1 < |st.prefix| && i % 2 == 0 && st' == st.(prefix := PutWord(st.prefix, i, w))
    ensures st'.Fits(t) && st'.Region(t) == PutWord(r, i, w) && st'.At(st'.field) == at
    ensures at + 1 < |r| && at % 2 == 0 && i + 1 < |r| && Word(r, i) == Word(st.prefix, i)
  {
    assert r[i] == st.prefix[i] && r[i + 1] == st.prefix[i + 1];
    PutInPrefix(st.prefix, s[st.off..st.off + st.len], i, w);
  }

  /** The same of a word of the prefix. */
  lemma PrefixWordPasses(s: seq<Byte>, t: seq<Byte>, st: Stretch, i: nat, w: Word16, r: seq<Byte>, at: nat,
                         st': Stretch)
    requires st.Fits(s) && r == st.Region(s) && at == st.At(st.field)
    requires |t| == |s| && t[st.off..st.off + st.len] == s[st.off..st.off + st.len]
    requires i + 1 < |st.prefix| && i % 2 == 0 && w != Word(st.prefix, i)
    requires st' == st.(prefix := PutWord(st.prefix, i, w))
    ensures st'.Fits(t) && at + 1 < |r| && i + 1 < |r| && Word(r, i) == Word(st.prefix, i)
    ensures st.Tested(s) ==> (st'.Tested(t) <==> Exchanged(Word(r, i), w) && OthersCount(r, at, i))
  {
    PrefixRegion(s, t, st, i, w, r, at, st');
    TestOfRegion(s, st);
    TestOfRegion(t, st');
    if Passes(r, at) {
      OneWordPasses(r, at, i, w);
    }
  }

  // ----- Headers -----

  /** A header that has a length does not begin with a zero byte. */
  lemma HeaderCounts(r: seq<Byte>, i: nat)
    requires |r| >= 12 && r[0] > 0 && i + 1 < |r| && i >= 2
    ensures OthersCount(r, 10, i)
  {
    NonZeroCounts(PutWord(PutWord(r, 10, 0), i, 0), 0);
  }

  lemma FirstWordCounts(s: seq<Byte>, ip: nat)
    requires ip + 1 < |s| && HdrLen(s, ip) > 0
    ensures s[ip] > 0 && Word(s, ip) > 0
  {
  }

  lemma HeaderIs(s: seq<Byte>, ip: nat, st: Stretch)
    requires HdrFits(s, ip) && HdrLen(s, ip) >= 12 && st == Stretch(ip + 10, [], ip, HdrLen(s, ip))
    ensures st.Fits(s) && (st.Tested(s) <==> Word(s, ip + 10) == IpCheckOf(s, ip))
  {
  }

  lemma HeaderStretch(s: seq<Byte>, ip: nat, st: Stretch, i: nat, w: Word16)
    requires st.Fits(s) && st.field == ip + 10 && st.prefix == [] && st.off == ip
    requires i % 2 == 0 && i + 2 <= st.len && w != Word(s, ip + i) && s[ip] > 0
    requires i == 0 ==> w > 0 && Word(s, ip) > 0
    ensures st.Fits(PutWord(s, ip + i, w))
    ensures st.Tested(s) ==> (st.Tested(PutWord(s, ip + i, w)) <==> i != 10 && Exchanged(Word(s, ip + i), w))
  {
    var r := st.Region(s);
    assert r[0] == s[ip];
    StretchWordPasses(s, st, ip + i, w, r, 10, i);
    if i > 0 {
      HeaderCounts(r, i);
    }
  }

  /**
   Two headers of one length that differ in one word, the checksum or another, and of which one passes
   the test: the other passes it exactly if 0x0000 and 0xFFFF were exchanged, and not in the checksum.
   */
  lemma HeaderWordPasses(s: seq<Byte>, ip: nat, i: nat, w: Word16)
    requires HdrFits(s, ip) && HdrLen(s, ip) >= 12 && Word(s, ip + 10) == IpCheckOf(s, ip)
    requires i % 2 == 0 && i + 2 <= HdrLen(s, ip) && w != Word(s, ip + i)
    requires HdrLen(PutWord(s, ip + i, w), ip) == HdrLen(s, ip)
    ensures var t := PutWord(s, ip + i, w);
      HdrFits(t, ip) && (Word(t, ip + 10) == IpCheckOf(t, ip) <==> i != 10 && Exchanged(Word(s, ip + i), w))
  {
    var t, st := PutWord(s, ip + i, w), Stretch(ip + 10, [], ip, HdrLen(s, ip));
    HeaderIs(s, ip, st);
    HeaderIs(t, ip, st);
    FirstWordCounts(s, ip);
    FirstWordCounts(t, ip);
    HeaderStretch(s, ip, st, i, w);
  }

  // ----- Data, and the addresses in the pseudo-header -----

  // With a header of fewer than five words the data begins inside the first twenty bytes, so a word of
  // the data may also be one of the header: an address is then added twice, in the pseudo-header and as data.

  /** The data of a packet with a checksum, holding the field, behind its prefix. */
  ghost predicate Carries(s: seq<Byte>, ip: nat, st: Stretch) {
    && DataFits(s, ip) && HasCheck4(Protocol(s, ip))
    && st == Stretch(FieldOf(s, ip), PrefixOf(s, ip), ip + HdrLen(s, ip), st.len) && st.len == SummedLen(s, ip)
    && st.field + 2 <= st.off + st.len
  }

  /** With ICMP or IGMP behind a header of no length nothing is added up, so there the field is not in the data. */
  lemma CarriesFits(s: seq<Byte>, ip: nat, st: Stretch)
    requires Carries(s, ip, st)
    ensures st.Fits(s) && ip <= st.off && (st.off - ip) % 2 == (ip - st.off) % 2 == 0 && |s| >= ip + 20
    ensures !(NoPrefix(Protocol(s, ip)) && HdrLen(s, ip) == 0)
    ensures !NoPrefix(Protocol(s, ip)) ==> |st.prefix| == 12 && st.prefix[9] > 0 && st.field >= st.off + 6
  {
    assert !NoPrefix(Protocol(s, ip)) ==> Pseudo4(s, ip)[9] == s[ip + 9];
  }

  lemma TestOfData(s: seq<Byte>, ip: nat, st: Stretch)
    requires Carries(s, ip, st)
    ensures st.Fits(s) && (st.Tested(s) <==> Word(s, FieldOf(s, ip)) == DataCheckOf(s, ip))
  {
    CarriesFits(s, ip, st);
    DataCheckIs(s, ip, st.field, st.off, st.len);
    TestIs(s, st, FieldOf(s, ip), DataCheckOf(s, ip));
  }

  lemma TestIs(s: seq<Byte>, st: Stretch, k: nat, w: Word16)
    requires st.Fits(s) && k == st.field && w == CheckOver(s, st.field, st.prefix, st.off, st.len)
    ensures st.Tested(s) <==> Word(s, k) == w
  {
  }

  predicate InAddress(ip: nat, j: nat) {
    ip + 12 <= j < ip + 20 && (j - ip) % 2 == 0
  }

  /** The word at `j` is also at `p` in the pseudo-header, which is changed with it. */
  ghost predicate Doubled(s: seq<Byte>, st: Stretch, p: nat, j: nat, w: Word16, st': Stretch) {
    && j + 1 < |s| && |st.prefix| == 12 && st.prefix[9] > 0
    && p <= 6 && p % 2 == 0 && Word(st.prefix, p) == Word(s, j)
    && st' == st.(prefix := PutWord(st.prefix, p, w))
  }

  lemma AddressChanges(s: seq<Byte>, ip: nat, j: nat, w: Word16)
    requires ip + 20 <= |s| && InAddress(ip, j)
    ensures Pseudo4(PutWord(s, j, w), ip) == PutWord(Pseudo4(s, ip), j - ip - 12, w)
    ensures Word(Pseudo4(s, ip), j - ip - 12) == Word(s, j)
  {
    var t := PutWord(s, j, w);
    assert t[ip] == s[ip] && t[ip + 2] == s[ip + 2] && t[ip + 3] == s[ip + 3] && t[ip + 9] == s[ip + 9];
    assert t[ip + 12..ip + 20] == PutWord(s[ip + 12..ip + 20], j - ip - 12, w);
  }

  lemma AddressesStay(s: seq<Byte>, ip: nat, j: nat, w: Word16)
    requires HdrFits(s, ip) && ip <= j && j + 1 < |s| && (j - ip) % 2 == 0 && !InAddress(ip, j)
    requires SameShape(s, PutWord(s, j, w), ip) && !NoPrefix(Protocol(s, ip))
    ensures Pseudo4(PutWord(s, j, w), ip) == Pseudo4(s, ip)
  {
    assert PutWord(s, j, w)[ip + 12..ip + 20] == s[ip + 12..ip + 20];
  }

  /** Where the data is, and behind which prefix, after a change that leaves the shape of the packet. */
  lemma StillCarries(s: seq<Byte>, ip: nat, st: Stretch, j: nat, w: Word16) returns (st': Stretch)
    requires Carries(s, ip, st) && ip <= j && j + 1 < |s| && (j - ip) % 2 == 0 && SameShape(s, PutWord(s, j, w), ip)
    ensures Carries(PutWord(s, j, w), ip, st')
    ensures if InAddress(ip, j) && !NoPrefix(Protocol(s, ip)) then Doubled(s, st, j - ip - 12, j, w, st') else st' == st
  {
    CarriesFits(s, ip, st);
    SameShapeSameFields(s, PutWord(s, j, w), ip);
    st' := st;
    if InAddress(ip, j) && !NoPrefix(Protocol(s, ip)) {
      AddressChanges(s, ip, j, w);
      st' := st.(prefix := PutWord(st.prefix, j - ip - 12, w));
    } else if !NoPrefix(Protocol(s, ip)) {
      AddressesStay(s, ip, j, w);
    }
  }

  /** The packet passes the test. */
  ghost predicate DataPasses(s: seq<Byte>, ip: nat) {
    DataFits(s, ip) && Word(s, FieldOf(s, ip)) == DataCheckOf(s, ip)
  }

  /** The stretches in which the two packets are tested. */
  lemma TestedBeforeAndAfter(s: seq<Byte>, ip: nat, st: Stretch, j: nat, w: Word16) returns (st': Stretch)
    requires Carries(s, ip, st) && ip <= j && j + 1 < |s| && (j - ip) % 2 == 0 && SameShape(s, PutWord(s, j, w), ip)
    ensures st.Fits(s) && (st.Tested(s) <==> DataPasses(s, ip))
    ensures st'.Fits(PutWord(s, j, w)) && (st'.Tested(PutWord(s, j, w)) <==> DataPasses(PutWord(s, j, w), ip))
    ensures if InAddress(ip, j) && !NoPrefix(Protocol(s, ip)) then Doubled(s, st, j - ip - 12, j, w, st') else st' == st
  {
    st' := StillCarries(s, ip, st, j, w);
    TestOfData(s, ip, st);
    TestOfData(PutWord(s, j, w), ip, st');
  }

  /** The regions of the two packets, where a word of the data is also one of the pseudo-header. */
  lemma BothRegion(s: seq<Byte>, st: Stretch, p: nat, j: nat, w: Word16, r: seq<Byte>, at: nat, i: nat, st': Stretch)
    requires Laid(s, st, j, r, at, i) && Doubled(s, st, p, j, w, st')
    ensures st'.Fits(PutWord(s, j, w)) && st'.Region(PutWord(s, j, w)) == PutWord(PutWord(r, p, w), i, w)
    ensures Word(r, p) == Word(r, i) == Word(s, j) && r[9] == st.prefix[9] && st'.At(st'.field) == at >= 12 && i >= 12
  {
    WordOfRegion(s, st, j, w);
    PutInPrefix(st.prefix, s[st.off..st.off + st.len], p, w);
    WordOfRegion(s, st', j, w);
    assert r[p] == st.prefix[p] && r[p + 1] == st.prefix[p + 1] && r[9] == st.prefix[9];
  }

  lemma BothWordPasses(s: seq<Byte>, st: Stretch, p: nat, j: nat, w: Word16, r: seq<Byte>, at: nat, i: nat,
                       st': Stretch)
    requires Laid(s, st, j, r, at, i) && w != Word(s, j)
    ensures Doubled(s, st, p, j, w, st') && st.Tested(s) ==> st'.Fits(PutWord(s, j, w)) && Word(r, i) == Word(s, j)
    ensures Doubled(s, st, p, j, w, st') && st.Tested(s) ==>
      (st'.Tested(PutWord(s, j, w)) <==> i != at && Exchanged(Word(r, i), w) && OthersCount(r, at, i))
  {
    if Doubled(s, st, p, j, w, st') {
      BothRegion(s, st, p, j, w, r, at, i, st');
      TestOfRegion(s, st);
      TestOfRegion(PutWord(s, j, w), st');
      TwoWordsPass(r, at, p, i, w, 9);
      ProtocolCounts(r, at, i);
    }
  }

  /** Behind a pseudo-header the protocol number always counts. */
  lemma ProtocolCounts(r: seq<Byte>, at: nat, i: nat)
    requires at + 1 < |r| && i + 1 < |r| && at >= 12 && i % 2 == 0 && i != 8 && r[9] > 0
    ensures OthersCount(r, at, i)
  {
    NonZeroCounts(PutWord(PutWord(r, at, 0), i, 0), 9);
  }

  /** The two packets are tested in these stretches, of which the second has the changed word. */
  ghost predicate Compared(s: seq<Byte>, st: Stretch, ip: nat, j: nat, w: Word16, st': Stretch, doubled: bool) {
    && st.Fits(s) && ip <= j && j + 1 < |s| && st'.Fits(PutWord(s, j, w))
    && (if doubled then ip + 12 <= j && Doubled(s, st, j - ip - 12, j, w, st') else st' == st)
  }

  lemma ComparedData(s: seq<Byte>, ip: nat, st: Stretch, j: nat, w: Word16) returns (st': Stretch)
    requires Carries(s, ip, st) && ip <= j && j + 1 < |s| && (j - st.off) % 2 == 0 && SameShape(s, PutWord(s, j, w), ip)
    ensures Compared(s, st, ip, j, w, st', InAddress(ip, j) && !NoPrefix(Protocol(s, ip)))
    ensures st.Tested(s) <==> DataPasses(s, ip)
    ensures st'.Tested(PutWord(s, j, w)) <==> DataPasses(PutWord(s, j, w), ip)
  {
    CarriesFits(s, ip, st);
    Aligned(j, st.off, ip);
    st' := TestedBeforeAndAfter(s, ip, st, j, w);
  }

  lemma ComparedWord(s: seq<Byte>, st: Stretch, ip: nat, j: nat, w: Word16, st': Stretch, doubled: bool,
                     r: seq<Byte>, at: nat, i: nat)
    requires Laid(s, st, j, r, at, i) && w != Word(s, j)
    ensures Word(r, i) == Word(s, j)
    ensures Compared(s, st, ip, j, w, st', doubled) && st.Tested(s) ==>
      (st'.Tested(PutWord(s, j, w)) <==> i != at && Exchanged(Word(r, i), w) && OthersCount(r, at, i))
  {
    StretchWordPasses(s, st, j, w, r, at, i);
    if Compared(s, st, ip, j, w, st', true) {
      BothWordPasses(s, st, j - ip - 12, j, w, r, at, i, st');
    }
  }

  /**
   Two packets of one shape that differ in one word of the data, the field or another, and of which one
   passes the test: the other passes it exactly if 0x0000 and 0xFFFF were exchanged, not in the field,
   and something else that is covered is not zero.
   */
  lemma DataWordPasses(s: seq<Byte>, ip: nat, st: Stretch, j: nat, w: Word16, r: seq<Byte>, at: nat, i: nat)
    requires Carries(s, ip, st) && DataPasses(s, ip)
    requires Laid(s, st, j, r, at, i) && w != Word(s, j) && SameShape(s, PutWord(s, j, w), ip)
    ensures DataPasses(PutWord(s, j, w), ip) <==> i != at && Exchanged(Word(r, i), w) && OthersCount(r, at, i)
    ensures Word(r, i) == Word(s, j)
  {
    var st' := ComparedData(s, ip, st, j, w);
    ComparedWord(s, st, ip, j, w, st', InAddress(ip, j) && !NoPrefix(Protocol(s, ip)), r, at, i);
  }

  lemma LayOut(s: seq<Byte>, st: Stretch, j: nat) returns (r: seq<Byte>, at: nat, i: nat)
    requires st.Fits(s) && st.off <= j && j + 2 <= st.off + st.len && (j - st.off) % 2 == 0
    ensures Laid(s, st, j, r, at, i) && (i == at <==> j == st.field)
    ensures |st.prefix| == 12 ==> r[9] == st.prefix[9] && at >= 12 && i >= 12
  {
    r, at, i := st.Region(s), st.At(st.field), st.At(j);
  }

  /** TCP and UDP: one changed word of the segment is found unless 0x0000 and 0xFFFF are exchanged outside the field. */
  lemma SegmentWordPasses(s: seq<Byte>, ip: nat, st: Stretch, j: nat, w: Word16)
    requires Carries(s, ip, st) && DataPasses(s, ip) && !NoPrefix(Protocol(s, ip))
    requires st.off <= j && j + 2 <= st.off + st.len && (j - st.off) % 2 == 0 && w != Word(s, j)
    requires SameShape(s, PutWord(s, j, w), ip)
    ensures DataPasses(PutWord(s, j, w), ip) <==> j != st.field && Exchanged(Word(s, j), w)
  {
    CarriesFits(s, ip, st);
    var r, at, i := LayOut(s, st, j);
    DataWordPasses(s, ip, st, j, w, r, at, i);
    ProtocolCounts(r, at, i);
  }

  lemma Aligned(a: int, b: int, c: int)
    requires (a - b) % 2 == 0 && (b - c) % 2 == 0
    ensures (a - c) % 2 == 0
  {
  }

  /** The word is not in the data. */
  lemma AddressApart(s: seq<Byte>, st: Stretch, p: nat, j: nat, w: Word16, st': Stretch)
    requires st.Fits(s) && (j + 2 <= st.off || st.off + st.len <= j) && j + 1 < |s| && w != Word(s, j)
    ensures Doubled(s, st, p, j, w, st') && st.Tested(s) ==>
      st'.Fits(PutWord(s, j, w)) && (st'.Tested(PutWord(s, j, w)) <==> Exchanged(Word(s, j), w))
  {
    if Doubled(s, st, p, j, w, st') {
      var t, r, at := PutWord(s, j, w), st.Region(s), st.At(st.field);
      assert r[9] == st.prefix[9];
      assert t[st.off..st.off + st.len] == s[st.off..st.off + st.len];
      PrefixWordPasses(s, t, st, p, w, r, at, st');
      ProtocolCounts(r, at, p);
    }
  }

  lemma CutBytes(s: seq<Byte>, st: Stretch, p: nat, j: nat, w: Word16, r: seq<Byte>, at: nat, st': Stretch)
    requires st.Fits(s) && st.off + st.len == j + 1 < |s| && (j - st.off) % 2 == 0
    requires Doubled(s, st, p, j, w, st') && r == st.Region(s) && at == st.At(st.field)
    ensures (|r| - 1) % 2 == at % 2 == 0 && p + 1 < 12 <= at && at + 2 < |r|
    ensures r[|r| - 1] == r[p] && r[9] == st.prefix[9] && Word(r, p) == Word(s, j)
  {
    assert st.prefix[p] == s[j];
    assert r[9] == st.prefix[9] && r[p] == st.prefix[p] && r[p + 1] == st.prefix[p + 1] && r[|r| - 1] == s[j];
  }

  lemma CutRegionChanged(s: seq<Byte>, st: Stretch, p: nat, j: nat, w: Word16, r: seq<Byte>, st': Stretch)
    requires st.Fits(s) && st.off + st.len == j + 1 < |s|
    requires Doubled(s, st, p, j, w, st') && r == st.Region(s) && p + 1 < |r|
    ensures st'.Fits(PutWord(s, j, w)) && st'.At(st'.field) == st.At(st.field)
    ensures st'.Region(PutWord(s, j, w)) == PutWord(r, p, w)[|r| - 1 := w / 256]
  {
    var t, data: seq<Byte> := PutWord(s, j, w), s[st.off..st.off + st.len];
    assert t[st.off..st.off + st.len] == data[st.len - 1 := w / 256];
    PutInPrefix(st.prefix, data, p, w);
    assert st'.Region(t) == (PutWord(st.prefix, p, w) + data)[|r| - 1 := w / 256];
  }

  /** The regions of the two packets, where the data ends in the middle of the word. */
  lemma CutRegion(s: seq<Byte>, st: Stretch, p: nat, j: nat, w: Word16, r: seq<Byte>, at: nat, st': Stretch)
    requires st.Fits(s) && st.off + st.len == j + 1 < |s| && (j - st.off) % 2 == 0
    requires Doubled(s, st, p, j, w, st') && r == st.Region(s) && at == st.At(st.field)
    ensures (|r| - 1) % 2 == at % 2 == 0 && p + 1 < 12 <= at && at + 2 < |r|
    ensures r[|r| - 1] == r[p] && r[9] == st.prefix[9] && Word(r, p) == Word(s, j)
    ensures st'.Fits(PutWord(s, j, w)) && st'.At(st'.field) == at
    ensures st'.Region(PutWord(s, j, w)) == PutWord(r, p, w)[|r| - 1 := w / 256]
  {
    CutBytes(s, st, p, j, w, r, at, st');
    CutRegionChanged(s, st, p, j, w, r, st');
  }

  /** The data ends in the middle of the word. */
  lemma AddressCut(s: seq<Byte>, st: Stretch, p: nat, j: nat, w: Word16, st': Stretch)
    requires st.Fits(s) && st.off + st.len == j + 1 < |s| && (j - st.off) % 2 == 0
    ensures Doubled(s, st, p, j, w, st') && st.Tested(s) ==>
      && st'.Fits(PutWord(s, j, w))
      && (st'.Tested(PutWord(s, j, w)) <==> WithHigh(Word(s, j)) % 65535 == WithHigh(w) % 65535)
  {
    if Doubled(s, st, p, j, w, st') {
      var r, at := st.Region(s), st.At(st.field);
      CutRegion(s, st, p, j, w, r, at, st');
      TestOfRegion(s, st);
      TestOfRegion(PutWord(s, j, w), st');
      HighBytePasses(r, at, p, w, 9, |r| - 1);
    }
  }

  /** What makes a change of an address word, which is not wholly in the data, go unnoticed. */
  predicate Unnoticed(st: Stretch, j: nat, v: Word16, w: Word16) {
    if st.off + st.len == j + 1 then WithHigh(v) % 65535 == WithHigh(w) % 65535 else Exchanged(v, w)
  }

  lemma ComparedAddress(s: seq<Byte>, st: Stretch, ip: nat, j: nat, w: Word16, st': Stretch)
    requires (j - st.off) % 2 == 0 && j + 1 < |s| && w != Word(s, j)
    requires j + 2 <= st.off || st.off + st.len < j + 2
    ensures Compared(s, st, ip, j, w, st', true) && st.Tested(s) ==>
      (st'.Tested(PutWord(s, j, w)) <==> Unnoticed(st, j, Word(s, j), w))
  {
    if Compared(s, st, ip, j, w, st', true) {
      if st.off + st.len == j + 1 {
        AddressCut(s, st, j - ip - 12, j, w, st');
      } else {
        AddressApart(s, st, j - ip - 12, j, w, st');
      }
    }
  }

  lemma AddressOutside(s: seq<Byte>, ip: nat, st: Stretch, j: nat, w: Word16)
    requires Carries(s, ip, st) && DataPasses(s, ip) && !NoPrefix(Protocol(s, ip))
    requires InAddress(ip, j) && j + 1 < |s| && w != Word(s, j) && SameShape(s, PutWord(s, j, w), ip)
    requires (j - st.off) % 2 == 0 && (j + 2 <= st.off || st.off + st.len < j + 2)
    ensures DataPasses(PutWord(s, j, w), ip) <==> Unnoticed(st, j, Word(s, j), w)
  {
    var st' := ComparedData(s, ip, st, j, w);
    ComparedAddress(s, st, ip, j, w, st');
  }

  lemma AddressIsAligned(s: seq<Byte>, ip: nat, st: Stretch, j: nat)
    requires Carries(s, ip, st) && InAddress(ip, j)
    ensures (j - st.off) % 2 == 0
  {
    CarriesFits(s, ip, st);
    Aligned(j, ip, st.off);
  }

  /**
   TCP and UDP: so is a change of one word of an address, whether it is also data or not; only where
   the data ends after the first byte of the word are there others that go unnoticed.
   */
  lemma AddressWordPasses(s: seq<Byte>, ip: nat, st: Stretch, j: nat, w: Word16)
    requires Carries(s, ip, st) && DataPasses(s, ip) && !NoPrefix(Protocol(s, ip))
    requires InAddress(ip, j) && j + 1 < |s| && w != Word(s, j)
    ensures DataPasses(PutWord(s, j, w), ip) <==>
      if st.off + st.len == j + 1 then WithHigh(Word(s, j)) % 65535 == WithHigh(w) % 65535
      else j != st.field && Exchanged(Word(s, j), w)
  {
    PutKeepsShape(s, ip, j, w);
    AddressIsAligned(s, ip, st, j);
    if st.off <= j && j + 2 <= st.off + st.len {
      SegmentWordPasses(s, ip, st, j, w);
    } else {
      AddressOutside(s, ip, st, j, w);
    }
  }
}
