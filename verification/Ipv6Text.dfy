/**
 IPv6 addresses as text: the printer, and the parser that lines its groups up in four columns
 with spaces and reads the result two digits at a time.
 */
module Ipv6Text {
  import opened Common

  // ----- Digits -----

  predicate IsHex(c: char) {
    '0' <= c <= '9' || 'a' <= c <= 'f' || 'A' <= c <= 'F'
  }

  function Digit(c: char): (d: nat)
    requires IsHex(c)
    ensures d < 16
  {
    if c <= '9' then c as int - '0' as int
    else if c <= 'F' then c as int - 'A' as int + 10
    else c as int - 'a' as int + 10
  }

  function HexChar(d: nat): (c: char)
    requires d < 16
    ensures IsHex(c) && Digit(c) == d
  {
    if d < 10 then ('0' as int + d) as char else ('a' as int + d - 10) as char
  }

  predicate AllHex(g: string) {
    forall i | 0 <= i < |g| :: IsHex(g[i])
  }

  /** The digits, in either case. */
  lemma DigitsAre(d: nat)
    requires d < 16
    ensures IsHex("0123456789abcdef"[d]) && Digit("0123456789abcdef"[d]) == d && HexChar(d) == "0123456789abcdef"[d]
    ensures IsHex("0123456789ABCDEF"[d]) && Digit("0123456789ABCDEF"[d]) == d
    ensures forall c :: IsHex(c) <==> c in "0123456789abcdefABCDEF"
  {
    forall c
      ensures IsHex(c) <==> c in "0123456789abcdefABCDEF"
    {
    }
  }

  predicate IsAddrChar(c: char) {
    c == ':' || c == '.' || IsHex(c)
  }

  /** The number that hexadecimal digits stand for. */
  function Value(g: string): nat
    requires AllHex(g)
  {
    if g == "" then 0 else Value(g[..|g| - 1]) * 16 + Digit(g[|g| - 1])
  }

  /** What `strtol` in base 16 makes of two characters; leading spaces are skipped. */
  function StrToL(a: char, b: char): (v: Byte)
  {
    if a == ' ' then (if IsHex(b) then Digit(b) else 0)
    else if !IsHex(a) then 0
    else if IsHex(b) then Digit(a) * 16 + Digit(b)
    else Digit(a)
  }

  function Pairs(d: string): seq<Byte> {
    if |d| < 2 then [] else [StrToL(d[0], d[1])] + Pairs(d[2..])
  }

  // ----- Groups -----

  /** `%4s` */
  function Pad4(g: string): (r: string)
    ensures |r| == if |g| < 4 then 4 else |g|
  {
    seq(if |g| < 4 then 4 - |g| else 0, _ => ' ') + g
  }

  /** The characters before the first colon. */
  function FirstGroup(t: string): (g: string)
    ensures |g| <= |t| && g == t[..|g|] && ':' !in g
    ensures |g| < |t| ==> t[|g|] == ':'
  {
    if t == "" || t[0] == ':' then "" else [t[0]] + FirstGroup(t[1..])
  }

  /** `ip6_addr_no_mh`: group `i` is written in columns from `4 * i`; an empty group ends the work. */
  function Pack(t: string, dst: string, i: nat): (r: string)
    requires |dst| >= 4 * i
    decreases |t|
  {
    if t == "" || !IsHex(t[0]) then dst
    else
      var g := FirstGroup(t);
      var dst' := dst[..4 * i] + Pad4(g);
      if |g| == |t| then dst' else Pack(t[|g| + 1..], dst', i + 1)
  }

  // ----- Texts -----

  function Trim(info: string): (a: string)
    ensures forall c | c in a :: IsAddrChar(c)
  {
    if info == "" then ""
    else (if IsAddrChar(info[0]) then [info[0]] else "") + Trim(info[1..])
  }

  predicate DoubleAt(a: string, j: nat) {
    j + 1 < |a| && a[j] == ':' && a[j + 1] == ':'
  }

  /** `strstr(a, "::")` */
  function FindDouble(a: string): (r: Option<nat>)
    ensures r.Some? ==> DoubleAt(a, r.value) && forall j: nat | j < r.value :: !DoubleAt(a, j)
    ensures r.None? ==> forall j: nat :: !DoubleAt(a, j)
  {
    if |a| < 2 then None
    else if a[0] == ':' && a[1] == ':' then Some(0)
    else
      var r := FindDouble(a[1..]);
      assert forall j: nat :: DoubleAt(a, j + 1) == DoubleAt(a[1..], j);
      assert forall j: nat | DoubleAt(a, j) :: j > 0 && DoubleAt(a[1..], j - 1);
      if r.Some? then Some(r.value + 1) else None
  }

  function Header(a: string): string {
    var j := FindDouble(a);
    Pack(if j.Some? then a[..j.value] else a, "", 0)
  }

  function Tail(a: string): string {
    var j := FindDouble(a);
    if j.Some? then Pack(a[j.value + 2..], "", 0) else ""
  }

  type V4 = v: seq<Byte> | |v| == 4 witness [0, 0, 0, 0]

  /** `strrchr(a, ':')` */
  function LastColon(a: string): (r: Option<nat>)
    ensures r.Some? ==> r.value < |a| && a[r.value] == ':' && ':' !in a[r.value + 1..]
    ensures r.None? ==> ':' !in a
  {
    if a == "" then None
    else if a[|a| - 1] == ':' then Some(|a| - 1)
    else
      var r := LastColon(a[..|a| - 1]);
      assert a == a[..|a| - 1] + [a[|a| - 1]];
      assert r.Some? ==> a[r.value + 1..] == a[..|a| - 1][r.value + 1..] + [a[|a| - 1]];
      r
  }

  /** An IPv4 address as the two groups it takes up. */
  function V4Groups(v: V4): (gs: seq<string>)
    ensures |gs| == 2
  {
    [Hex2(v[0]) + Hex2(v[1]), Hex2(v[2]) + Hex2(v[3])]
  }

  /** Where there is a dot, what follows the last colon is an IPv4 address; `inet` is `inet_addr`. */
  function Uniform(a: string, inet: string -> V4): string {
    var c := LastColon(a);
    if '.' !in a || c.None? then a else a[..c.value + 1] + Join(V4Groups(inet(a[c.value + 1..])))
  }

  /** A dotted part has a colon before it, and no group overruns the buffers of 64 and 32 characters. */
  predicate Fits(info: string, inet: string -> V4) {
    var a, u := Trim(info), Uniform(Trim(info), inet);
    && ('.' in a ==> ':' in a) && |a| <= 63
    && |u| <= 62 && |Header(u)| <= 32 && |Tail(u)| <= 32
  }

  /** Thirty-two digits: the header first, the tail last, zeros between. */
  function Digits(hdr: string, tail: string): (d: string)
    requires |hdr| <= 32 && |tail| <= 32
    ensures |d| == 32
  {
    (hdr + seq(32 - |hdr|, _ => '0'))[..32 - |tail|] + tail
  }

  function Str2N(info: string, inet: string -> V4): seq<Byte>
    requires Fits(info, inet)
  {
    var u := Uniform(Trim(info), inet);
    Pairs(Digits(Header(u), Tail(u)))
  }

  function Hex2(b: Byte): (s: string)
    ensures |s| == 2 && IsHex(s[0]) && IsHex(s[1])
  {
    [HexChar(b / 16), HexChar(b % 16)]
  }

  /** Groups with colons between. */
  function Join(gs: seq<string>): string {
    if gs == [] then ""
    else if |gs| == 1 then gs[0]
    else gs[0] + ":" + Join(gs[1..])
  }

  function Groups(a: seq<Byte>): (gs: seq<string>)
    requires |a| % 2 == 0
    ensures |gs| == |a| / 2
  {
    if a == [] then [] else [Hex2(a[0]) + Hex2(a[1])] + Groups(a[2..])
  }

  // ----- What a text means (section 2.2 of RFC 4291) -----

  predicate IsGroup(g: string) {
    1 <= |g| <= 4 && AllHex(g)
  }

  predicate AllGroups(gs: seq<string>) {
    forall i | 0 <= i < |gs| :: IsGroup(gs[i])
  }

  function GroupBytes(gs: seq<string>): (r: seq<Byte>)
    requires AllGroups(gs)
    ensures |r| == 2 * |gs|
  {
    if gs == [] then []
    else
      ValueIsSmall(gs[0]);
      [Value(gs[0]) / 256, Value(gs[0]) % 256] + GroupBytes(gs[1..])
  }

  function Zeros(n: nat): (r: seq<Byte>)
    ensures |r| == n
  {
    seq(n, _ => 0)
  }

  lemma ValueIsSmall(g: string)
    requires IsGroup(g)
    ensures Value(g) < 65536
    ensures Value(g) ==
      (if |g| >= 4 then Digit(g[|g| - 4]) * 4096 else 0) + (if |g| >= 3 then Digit(g[|g| - 3]) * 256 else 0) +
      (if |g| >= 2 then Digit(g[|g| - 2]) * 16 else 0) + Digit(g[|g| - 1])
  {
    var n := |g|;
    if n >= 2 {
      assert g[..n - 1][..n - 2] == g[..n - 2];
    }
    if n >= 3 {
      assert g[..n - 2][..n - 3] == g[..n - 3];
    }
    if n >= 4 {
      assert g[..n - 3][..n - 4] == g[..n - 4];
    }
  }

  // ----- The parser meets the meaning -----

  lemma {:induction false} PairsAppend(a: string, k: nat, b: string)
    requires |a| == 2 * k
    ensures Pairs(a + b) == Pairs(a) + Pairs(b)
    decreases k
  {
    if k == 0 {
      assert a + b == b;
    } else {
      assert (a + b)[2..] == a[2..] + b;
      PairsAppend(a[2..], k - 1, b);
    }
  }

  lemma PairsOfFour(d: string)
    requires |d| == 4
    ensures Pairs(d) == [StrToL(d[0], d[1]), StrToL(d[2], d[3])]
  {
    var e := d[2..];
    assert e[2..] == "";
    assert Pairs(e) == [StrToL(e[0], e[1])] + Pairs(e[2..]);
  }

  lemma HighAndLow(hi: nat, lo: nat)
    requires lo < 256
    ensures (hi * 256 + lo) / 256 == hi && (hi * 256 + lo) % 256 == lo
  {
  }

  /** A padded group reads as its value, whichever columns are spaces. */
  lemma PaddedGroup(g: string)
    requires IsGroup(g)
    ensures Pairs(Pad4(g)) == GroupBytes([g])
  {
    PairsOfFour(Pad4(g));
    ValueIsSmall(g);
    assert [g][1..] == [];
    var p := Pad4(g);
    assert forall i | 0 <= i < 4 :: p[i] == if i < 4 - |g| then ' ' else g[i - (4 - |g|)];
    var hi: nat, lo: nat := StrToL(p[0], p[1]), StrToL(p[2], p[3]);
    assert Value(g) == hi * 256 + lo;
    HighAndLow(hi, lo);
  }

  function Columns(gs: seq<string>): string {
    if gs == [] then "" else Pad4(gs[0]) + Columns(gs[1..])
  }

  lemma {:induction false} ColumnsRead(gs: seq<string>)
    requires AllGroups(gs)
    ensures |Columns(gs)| == 4 * |gs| && Pairs(Columns(gs)) == GroupBytes(gs)
  {
    if gs == [] {
    } else {
      ColumnsRead(gs[1..]);
      PaddedGroup(gs[0]);
      PairsAppend(Pad4(gs[0]), 2, Columns(gs[1..]));
      assert [gs[0]][1..] == [];
    }
  }

  lemma {:induction false} ZerosRead(n: nat)
    ensures Pairs(seq(2 * n, _ => '0')) == Zeros(n)
  {
    if n == 0 {
    } else {
      var z := seq(2 * n, _ => '0');
      assert z[2..] == seq(2 * (n - 1), _ => '0');
      ZerosRead(n - 1);
      assert Zeros(n) == [0] + Zeros(n - 1);
    }
  }

  lemma {:induction false} FirstOfJoin(g: string, rest: string)
    requires ':' !in g
    ensures FirstGroup(g + ":" + rest) == g && FirstGroup(g) == g
  {
    if g == "" {
    } else {
      FirstOfJoin(g[1..], rest);
      assert (g + ":" + rest)[1..] == g[1..] + ":" + rest;
    }
  }

  lemma {:induction false} JoinFirst(gs: seq<string>)
    requires AllGroups(gs) && gs != []
    ensures Join(gs) != "" && Join(gs)[0] == gs[0][0] && FirstGroup(Join(gs)) == gs[0]
    ensures |gs| == 1 ==> Join(gs) == gs[0]
    ensures |gs| > 1 ==> |gs[0]| < |Join(gs)| && Join(gs)[|gs[0]| + 1..] == Join(gs[1..])
  {
    var g := gs[0];
    assert IsGroup(g) && ':' !in g;
    FirstOfJoin(g, Join(gs[1..]));
    if |gs| > 1 {
      assert (g + ":" + Join(gs[1..]))[|g| + 1..] == Join(gs[1..]);
    }
  }

  lemma PackOne(gs: seq<string>, dst: string, i: nat)
    requires AllGroups(gs) && gs != [] && |dst| == 4 * i
    ensures Pack(Join(gs), dst, i) == Pack(Join(gs[1..]), dst + Pad4(gs[0]), i + 1)
  {
    JoinFirst(gs);
    assert IsGroup(gs[0]) && dst[..4 * i] == dst;
  }

  lemma ColumnsFirst(gs: seq<string>, dst: string)
    requires gs != []
    ensures dst + Columns(gs) == (dst + Pad4(gs[0])) + Columns(gs[1..])
  {
  }

  /** Groups land one behind the other in columns of four. */
  lemma {:induction false} PackJoin(gs: seq<string>, dst: string, i: nat)
    requires AllGroups(gs) && |dst| == 4 * i
    ensures Pack(Join(gs), dst, i) == dst + Columns(gs)
    decreases |gs|
  {
    if gs == [] {
      assert dst + "" == dst;
    } else {
      assert IsGroup(gs[0]);
      ColumnsFirst(gs, dst);
      PackOne(gs, dst, i);
      PackJoin(gs[1..], dst + Pad4(gs[0]), i + 1);
    }
  }

  /** Joined groups contain no double colon, and neither begin nor end with a colon. */
  lemma {:induction false} JoinIsPlain(gs: seq<string>)
    requires AllGroups(gs)
    ensures forall i | 0 <= i < |Join(gs)| :: Join(gs)[i] == ':' || IsHex(Join(gs)[i])
    ensures forall j: nat :: !DoubleAt(Join(gs), j)
    ensures gs != [] ==> Join(gs) != "" && Join(gs)[0] != ':' && Join(gs)[|Join(gs)| - 1] != ':'
  {
    if |gs| <= 1 {
    } else {
      var g, rest := gs[0], Join(gs[1..]);
      JoinIsPlain(gs[1..]);
      assert IsGroup(g);
      forall j: nat
        ensures !DoubleAt(Join(gs), j)
      {
        if j > |g| {
          assert !DoubleAt(rest, j - |g| - 1);
        }
      }
    }
  }

  lemma {:induction false} TrimIsIdempotent(a: string)
    requires forall i | 0 <= i < |a| :: IsAddrChar(a[i])
    ensures Trim(a) == a
  {
    if a == "" {
    } else {
      TrimIsIdempotent(a[1..]);
    }
  }

  /** Any other character than hexadecimal digits, colons and dots counts for nothing, wherever it is. */
  lemma {:induction false} OthersAreDropped(a: string, c: char, b: string)
    requires c !in "0123456789abcdefABCDEF:."
    ensures Trim(a + [c] + b) == Trim(a + b)
    decreases |a|
  {
    if a == "" {
      DigitsAre(0);
      assert a + [c] + b == [c] + b && a + b == b && ([c] + b)[1..] == b;
    } else {
      assert (a + [c] + b)[1..] == a[1..] + [c] + b && (a + b)[1..] == a[1..] + b;
      OthersAreDropped(a[1..], c, b);
    }
  }

  lemma {:induction false} JoinLength(gs: seq<string>)
    requires AllGroups(gs)
    ensures |Join(gs)| <= 5 * |gs| && (gs != [] ==> |Join(gs)| < 5 * |gs|)
  {
    if |gs| <= 1 {
    } else {
      JoinLength(gs[1..]);
    }
  }

  /** The text of eight groups, whether typed or made uniform. */
  lemma EightRead(u: string, gs: seq<string>)
    requires AllGroups(gs) && |gs| == 8 && u == Join(gs)
    ensures |u| < 40 && |Header(u)| == 32 && Tail(u) == "" && Pairs(Digits(Header(u), Tail(u))) == GroupBytes(gs)
  {
    JoinIsPlain(gs);
    JoinLength(gs);
    PackJoin(gs, "", 0);
    ColumnsRead(gs);
    assert Header(u) == "" + Columns(gs) == Columns(gs);
    assert Digits(Columns(gs), "") == Columns(gs);
  }

  /** Groups around one "::". */
  lemma DoubleRead(u: string, head: seq<string>, tail: seq<string>)
    requires AllGroups(head) && AllGroups(tail) && |head| + |tail| <= 8 && u == Join(head) + "::" + Join(tail)
    ensures |u| <= 42 && |Header(u)| <= 32 && |Tail(u)| <= 32
    ensures Pairs(Digits(Header(u), Tail(u))) ==
      GroupBytes(head) + Zeros(16 - 2 * |head| - 2 * |tail|) + GroupBytes(tail)
  {
    HeaderAndTail(u, head, tail);
    DoubleIsPlain(head, tail);
    DigitsRead(head, tail);
  }

  /** Eight groups of one to four digits: each stands for its value, whatever noise the text contains. */
  lemma EightGroups(info: string, gs: seq<string>, inet: string -> V4)
    requires AllGroups(gs) && |gs| == 8 && Trim(info) == Join(gs)
    ensures Fits(info, inet) && Str2N(info, inet) == GroupBytes(gs)
  {
    JoinIsPlain(gs);
    EightRead(Join(gs), gs);
  }

  /** Fewer groups around one "::", which stands for as many zero groups as are missing. */
  lemma DoubleColon(info: string, head: seq<string>, tail: seq<string>, inet: string -> V4)
    requires AllGroups(head) && AllGroups(tail) && |head| + |tail| <= 8
    requires Trim(info) == Join(head) + "::" + Join(tail)
    ensures Fits(info, inet)
    ensures Str2N(info, inet) == GroupBytes(head) + Zeros(16 - 2 * |head| - 2 * |tail|) + GroupBytes(tail)
  {
    DoubleIsPlain(head, tail);
    DoubleRead(Trim(info), head, tail);
  }

  // ----- A dotted end -----

  lemma HexGroup(b: Byte, c: Byte)
    ensures IsGroup(Hex2(b) + Hex2(c))
    ensures Value(Hex2(b) + Hex2(c)) / 256 == b && Value(Hex2(b) + Hex2(c)) % 256 == c
  {
    HighAndLow(b, c);
    ValueIsSmall(Hex2(b) + Hex2(c));
    assert b == b / 16 * 16 + b % 16 && c == c / 16 * 16 + c % 16;
  }

  lemma V4GroupsMean(v: V4)
    ensures AllGroups(V4Groups(v)) && GroupBytes(V4Groups(v)) == v
  {
    HexGroup(v[0], v[1]);
    HexGroup(v[2], v[3]);
    var gs := V4Groups(v);
    assert gs[1..] == [gs[1]] && [gs[1]][1..] == [];
  }

  lemma {:induction false} LastColonIs(p: string, dotted: string)
    requires p != "" && p[|p| - 1] == ':' && ':' !in dotted
    ensures LastColon(p + dotted) == Some(|p| - 1)
    decreases |dotted|
  {
    var a := p + dotted;
    if dotted == "" {
      assert a == p;
    } else {
      assert a[|a| - 1] == dotted[|dotted| - 1] && dotted[|dotted| - 1] in dotted;
      assert a[..|a| - 1] == p + dotted[..|dotted| - 1];
      LastColonIs(p, dotted[..|dotted| - 1]);
    }
  }

  lemma UniformIs(p: string, dotted: string, inet: string -> V4)
    requires p != "" && p[|p| - 1] == ':' && ':' !in dotted && '.' in dotted
    ensures Uniform(p + dotted, inet) == p + Join(V4Groups(inet(dotted)))
  {
    LastColonIs(p, dotted);
    var a := p + dotted;
    assert a[..|p|] == p && a[|p|..] == dotted;
  }

  lemma {:induction false} JoinConcat(gs: seq<string>, hs: seq<string>)
    requires gs != [] && hs != []
    ensures Join(gs + hs) == Join(gs) + ":" + Join(hs)
    decreases |gs|
  {
    if |gs| == 1 {
      assert (gs + hs)[1..] == hs;
    } else {
      assert (gs + hs)[1..] == gs[1..] + hs;
      JoinConcat(gs[1..], hs);
      assert gs[0] + ":" + (Join(gs[1..]) + ":" + Join(hs)) == (gs[0] + ":" + Join(gs[1..])) + ":" + Join(hs);
    }
  }

  lemma AllGroupsConcat(gs: seq<string>, hs: seq<string>)
    requires AllGroups(gs) && AllGroups(hs)
    ensures AllGroups(gs + hs)
  {
  }

  lemma {:induction false} GroupBytesConcat(gs: seq<string>, hs: seq<string>)
    requires AllGroups(gs) && AllGroups(hs)
    ensures AllGroups(gs + hs) && GroupBytes(gs + hs) == GroupBytes(gs) + GroupBytes(hs)
    decreases |gs|
  {
    AllGroupsConcat(gs, hs);
    var all := gs + hs;
    if gs == [] {
      assert all == hs;
    } else {
      assert all[0] == gs[0] && all[1..] == gs[1..] + hs;
      GroupBytesConcat(gs[1..], hs);
      ValueIsSmall(gs[0]);
      var first: seq<Byte> := [Value(gs[0]) / 256, Value(gs[0]) % 256];
      assert GroupBytes(all) == first + GroupBytes(all[1..]) && GroupBytes(gs) == first + GroupBytes(gs[1..]);
      assert (first + GroupBytes(gs[1..])) + GroupBytes(hs) == first + (GroupBytes(gs[1..]) + GroupBytes(hs));
    }
  }

  /** Six groups and a dotted IPv4 address. */
  lemma SixAndDotted(info: string, gs: seq<string>, dotted: string, inet: string -> V4)
    requires AllGroups(gs) && |gs| == 6 && ':' !in dotted && '.' in dotted
    requires Trim(info) == Join(gs) + ":" + dotted && |Trim(info)| <= 63
    ensures Fits(info, inet) && Str2N(info, inet) == GroupBytes(gs) + inet(dotted)
  {
    var hs := V4Groups(inet(dotted));
    V4GroupsMean(inet(dotted));
    UniformIs(Join(gs) + ":", dotted, inet);
    JoinConcat(gs, hs);
    GroupBytesConcat(gs, hs);
    JoinLength(gs);
    EightRead(Join(gs + hs), gs + hs);
    assert (Join(gs) + ":")[|Join(gs)|] == ':';
  }

  /** What stands before the dotted part. */
  function BeforeDotted(head: seq<string>, tail: seq<string>): string {
    Join(head) + "::" + if tail == [] then "" else Join(tail) + ":"
  }

  lemma BeforeGroups(head: seq<string>, tail: seq<string>, hs: seq<string>)
    requires hs != []
    ensures BeforeDotted(head, tail) + Join(hs) == Join(head) + "::" + Join(tail + hs)
    ensures BeforeDotted(head, tail) != "" && BeforeDotted(head, tail)[|BeforeDotted(head, tail)| - 1] == ':'
  {
    if tail == [] {
      assert tail + hs == hs;
    } else {
      JoinConcat(tail, hs);
    }
  }

  lemma ReadsAs(info: string, u: string, inet: string -> V4)
    requires u == Uniform(Trim(info), inet) && ('.' in Trim(info) ==> ':' in Trim(info)) && |Trim(info)| <= 63
    requires |u| <= 62 && |Header(u)| <= 32 && |Tail(u)| <= 32
    ensures Fits(info, inet) && Str2N(info, inet) == Pairs(Digits(Header(u), Tail(u)))
  {
  }

  /** At most six groups around one "::", the last of them followed by a dotted IPv4 address. */
  lemma DoubleAndDotted(info: string, head: seq<string>, tail: seq<string>, dotted: string, inet: string -> V4)
    requires AllGroups(head) && AllGroups(tail) && |head| + |tail| <= 6 && ':' !in dotted && '.' in dotted
    requires Trim(info) == BeforeDotted(head, tail) + dotted && |Trim(info)| <= 63
    ensures Fits(info, inet)
    ensures Str2N(info, inet) ==
      GroupBytes(head) + Zeros(12 - 2 * |head| - 2 * |tail|) + (GroupBytes(tail) + inet(dotted))
  {
    var hs, p := V4Groups(inet(dotted)), BeforeDotted(head, tail);
    BeforeGroups(head, tail, hs);
    UniformIs(p, dotted, inet);
    DottedBytes(head, tail, inet(dotted), p + Join(hs));
    assert (p + dotted)[|p| - 1] == ':';
    ReadsAs(info, p + Join(hs), inet);
  }

  lemma DottedBytes(head: seq<string>, tail: seq<string>, v: V4, u: string)
    requires AllGroups(head) && AllGroups(tail) && |head| + |tail| <= 6
    requires u == Join(head) + "::" + Join(tail + V4Groups(v))
    ensures |u| <= 42 && |Header(u)| <= 32 && |Tail(u)| <= 32
    ensures Pairs(Digits(Header(u), Tail(u))) ==
      GroupBytes(head) + Zeros(12 - 2 * |head| - 2 * |tail|) + (GroupBytes(tail) + v)
  {
    V4GroupsMean(v);
    GroupBytesConcat(tail, V4Groups(v));
    var all, n: nat := tail + V4Groups(v), 12 - 2 * |head| - 2 * |tail|;
    DoubleRead(u, head, all);
    assert 16 - 2 * |head| - 2 * |all| == n;
    assert GroupBytes(all) == GroupBytes(tail) + v;
  }

  lemma DoubleIsPlain(head: seq<string>, tail: seq<string>)
    requires AllGroups(head) && AllGroups(tail) && |head| + |tail| <= 8
    ensures |Join(head) + "::" + Join(tail)| <= 42 && '.' !in Join(head) + "::" + Join(tail)
  {
    JoinIsPlain(head);
    JoinIsPlain(tail);
    JoinLength(head);
    JoinLength(tail);
  }

  lemma HeaderAndTail(a: string, head: seq<string>, tail: seq<string>)
    requires AllGroups(head) && AllGroups(tail) && a == Join(head) + "::" + Join(tail)
    ensures Header(a) == Columns(head) && Tail(a) == Columns(tail)
  {
    DoubleIsFound(head, Join(tail));
    assert a[..|Join(head)|] == Join(head) && a[|Join(head)| + 2..] == Join(tail);
    PackJoin(head, "", 0);
    PackJoin(tail, "", 0);
    assert "" + Columns(head) == Columns(head) && "" + Columns(tail) == Columns(tail);
  }

  lemma DigitsMiddle(h: string, t: string, n: nat)
    requires |h| + 2 * n + |t| == 32
    ensures Digits(h, t) == h + seq(2 * n, _ => '0') + t
  {
    var z := seq(32 - |h|, _ => '0');
    assert (h + z)[..32 - |t|] == h + z[..2 * n];
    assert z[..2 * n] == seq(2 * n, _ => '0');
  }

  lemma DigitsRead(head: seq<string>, tail: seq<string>)
    requires AllGroups(head) && AllGroups(tail) && |head| + |tail| <= 8
    ensures |Columns(head)| <= 32 && |Columns(tail)| <= 32
    ensures Pairs(Digits(Columns(head), Columns(tail))) ==
      GroupBytes(head) + Zeros(16 - 2 * |head| - 2 * |tail|) + GroupBytes(tail)
  {
    ColumnsRead(head);
    ColumnsRead(tail);
    var h, t, n := Columns(head), Columns(tail), 16 - 2 * |head| - 2 * |tail|;
    var z := seq(2 * n, _ => '0');
    DigitsMiddle(h, t, n);
    ZerosRead(n);
    PairsAppend(h + z, 2 * |head| + n, t);
    PairsAppend(h, 2 * |head|, z);
  }

  lemma DoubleIsFound(head: seq<string>, rest: string)
    requires AllGroups(head)
    ensures FindDouble(Join(head) + "::" + rest) == Some(|Join(head)|)
  {
    var h, a := Join(head), Join(head) + "::" + rest;
    JoinIsPlain(head);
    assert DoubleAt(a, |h|);
    forall j: nat | j < |h|
      ensures !DoubleAt(a, j)
    {
      assert j + 1 < |h| ==> DoubleAt(a, j) == DoubleAt(h, j);
    }
  }

  // ----- Round trip -----

  function N2Str(a: seq<Byte>): string
    requires |a| % 2 == 0
  {
    Join(Groups(a))
  }

  lemma {:induction false} GroupsMean(a: seq<Byte>)
    requires |a| % 2 == 0
    ensures AllGroups(Groups(a)) && GroupBytes(Groups(a)) == a
    decreases |a|
  {
    if a == [] {
    } else {
      GroupsMean(a[2..]);
      HexGroup(a[0], a[1]);
      var gs := Groups(a);
      assert gs[0] == Hex2(a[0]) + Hex2(a[1]) && gs[1..] == Groups(a[2..]);
      assert GroupBytes(gs) == [a[0], a[1]] + a[2..];
    }
  }

  /** Reading back what was printed gives the address, for every address. */
  lemma PrintThenRead(a: seq<Byte>, inet: string -> V4)
    requires |a| == 16
    ensures Fits(N2Str(a), inet) && Str2N(N2Str(a), inet) == a
  {
    var gs := Groups(a);
    GroupsMean(a);
    JoinIsPlain(gs);
    TrimIsIdempotent(Join(gs));
    EightGroups(N2Str(a), gs, inet);
  }

  lemma PrintedFirst(a: seq<Byte>)
    requires |a| % 2 == 0 && |a| >= 2
    ensures N2Str(a) == Hex2(a[0]) + Hex2(a[1]) + if |a| == 2 then "" else ":" + N2Str(a[2..])
  {
    var gs := Groups(a);
    assert gs[1..] == Groups(a[2..]) && gs[0] == Hex2(a[0]) + Hex2(a[1]);
    if |a| > 2 {
      assert Join(gs) == gs[0] + ":" + Join(gs[1..]);
    }
  }

  lemma HexPair(b: Byte)
    ensures Hex2(b) == ["0123456789abcdef"[b / 16], "0123456789abcdef"[b % 16]]
  {
    DigitsAre(b / 16);
    DigitsAre(b % 16);
  }

  lemma Place(i: nat)
    requires i >= 2
    ensures 2 * (i - 2) + (i - 2) / 2 + 5 == 2 * i + i / 2 && (i - 2) % 2 == i % 2
  {
  }

  /** The two digits of byte `i` stand at `2 * i`, moved on by the colons before them. */
  lemma {:induction false} PrintedAt(a: seq<Byte>, i: nat, at: nat)
    requires |a| % 2 == 0 && i < |a| && at == 2 * i + i / 2
    ensures |N2Str(a)| == |a| / 2 * 5 - 1 && at + 1 < |N2Str(a)|
    ensures N2Str(a)[at] == "0123456789abcdef"[a[i] / 16] && N2Str(a)[at + 1] == "0123456789abcdef"[a[i] % 16]
    ensures i % 2 == 1 && i + 1 < |a| ==> at + 2 < |N2Str(a)| && N2Str(a)[at + 2] == ':'
    decreases |a|
  {
    PrintedFirst(a);
    HexPair(a[0]);
    HexPair(a[1]);
    if |a| > 2 {
      var j := if i < 2 then 0 else i - 2;
      PrintedAt(a[2..], j, 2 * j + j / 2);
    }
    if i >= 2 {
      Place(i);
    }
  }

  // ----- The loops -----

  lemma {:induction false} JoinSnoc(gs: seq<string>, g: string)
    requires gs != []
    ensures Join(gs + [g]) == Join(gs) + ":" + g
    decreases |gs|
  {
    if |gs| == 1 {
      assert (gs + [g])[1..] == [g];
    } else {
      assert (gs + [g])[1..] == gs[1..] + [g];
      JoinSnoc(gs[1..], g);
    }
  }

  lemma {:induction false} GroupsSnoc(a: seq<Byte>, b: Byte, c: Byte)
    requires |a| % 2 == 0
    ensures Groups(a + [b, c]) == Groups(a) + [Hex2(b) + Hex2(c)]
    decreases |a|
  {
    if a == [] {
      assert [] + [b, c] == [b, c] && [b, c][2..] == [];
    } else {
      assert (a + [b, c])[2..] == a[2..] + [b, c];
      GroupsSnoc(a[2..], b, c);
    }
  }

  /** `ip6_n2str` */
  method PrintAddr(a: seq<Byte>) returns (info: string)
    requires |a| == 16
    ensures info == N2Str(a)
  {
    info := Hex2(a[0]) + Hex2(a[1]);
    var i := 2;
    assert a[..2] == [] + [a[0], a[1]];
    GroupsSnoc([], a[0], a[1]);
    while i < 16
      invariant 2 <= i <= 16 && i % 2 == 0
      invariant info == N2Str(a[..i])
    {
      assert a[..i + 2] == a[..i] + [a[i], a[i + 1]];
      GroupsSnoc(a[..i], a[i], a[i + 1]);
      JoinSnoc(Groups(a[..i]), Hex2(a[i]) + Hex2(a[i + 1]));
      info := info + (":" + (Hex2(a[i]) + Hex2(a[i + 1])));
      i := i + 2;
    }
    assert a[..16] == a;
  }

  method TrimAddr(info: string) returns (out: string)
    ensures out == Trim(info)
  {
    out := "";
    var i := 0;
    while i < |info|
      invariant 0 <= i <= |info| && out + Trim(info[i..]) == Trim(info)
    {
      if IsAddrChar(info[i]) {
        out := out + [info[i]];
      }
      i := i + 1;
    }
  }

  function ColonCut(c: char): char {
    if c == ':' then '\0' else c
  }

  /** A text in the buffer after its colons have become NULs. */
  ghost predicate CutAt(src: seq<char>, p: nat, t: string) {
    && p + |t| < |src| && NoNul(t) && src[p + |t|] == '\0'
    && forall j | 0 <= j < |t| :: src[p + j] == ColonCut(t[j])
  }

  method CutColons(src: array<char>, from: nat, ghost t: string)
    requires from + |t| < src.Length && NoNul(t) && src[from + |t|] == '\0'
    requires forall j | 0 <= j < |t| :: src[from + j] == t[j]
    modifies src
    ensures CutAt(src[..], from, t)
    ensures forall j | 0 <= j < src.Length && !(from <= j < from + |t|) :: src[j] == old(src[j])
  {
    var n := 0;
    while src[from + n] != '\0'
      invariant n <= |t| && (n < |t| ==> src[from + n] == t[n])
      invariant forall j | 0 <= j < n :: src[from + j] == ColonCut(t[j])
      invariant forall j | n <= j < |t| :: src[from + j] == t[j]
      invariant forall j | 0 <= j < src.Length && !(from <= j < from + |t|) :: src[j] == old(src[j])
      decreases |t| - n
    {
      if src[from + n] == ':' {
        src[from + n] := '\0';
      }
      n := n + 1;
    }
  }

  /** A piece of the text: up to what was a colon, or the end. */
  method Piece(src: array<char>, p: nat, ghost t: string) returns (g: string)
    requires CutAt(src[..], p, t)
    ensures g == FirstGroup(t)
  {
    ghost var h := FirstGroup(t);
    PieceIsGroup(src[..], p, t);
    var n := 0;
    while src[p + n] != '\0'
      invariant n <= |h| && src[p + n] == if n < |h| then h[n] else '\0'
      decreases |h| - n
    {
      n := n + 1;
    }
    g := src[p..p + n];
  }

  lemma PieceIsGroup(src: seq<char>, p: nat, t: string)
    requires CutAt(src, p, t)
    ensures var g := FirstGroup(t);
      src[p..p + |g|] == g && src[p + |g|] == '\0' && NoNul(g) && forall j | 0 <= j < |g| :: src[p + j] == g[j]
  {
    var g := FirstGroup(t);
    forall j | 0 <= j < |g|
      ensures src[p + j] == g[j] && g[j] != '\0'
    {
      assert g[j] == t[j] && g[j] in g;
    }
  }

  function AfterFirst(t: string): (r: string)
    ensures |r| == if |FirstGroup(t)| == |t| then 0 else |t| - |FirstGroup(t)| - 1
  {
    var n := |FirstGroup(t)|;
    if n == |t| then "" else t[n + 1..]
  }

  lemma PackStep(t: string, dst: string, i: nat)
    requires |dst| >= 4 * i && t != "" && IsHex(t[0])
    ensures Pack(t, dst, i) == Pack(AfterFirst(t), dst[..4 * i] + Pad4(FirstGroup(t)), i + 1)
  {
  }

  /** The walk has `t` ahead of it, up to the first of the two NULs at `end`, or stands on the second. */
  ghost predicate Ahead(src: seq<char>, p: nat, t: string, end: nat) {
    && end + 1 < |src| && src[end + 1] == '\0' && CutAt(src, p, t)
    && (p + |t| == end || (t == "" && p == end + 1))
  }

  lemma CutRest(src: seq<char>, p: nat, t: string, n: nat)
    requires CutAt(src, p, t) && n <= |t|
    ensures CutAt(src, p + n, t[n..])
  {
    var u := t[n..];
    forall j | 0 <= j < |u|
      ensures src[p + n + j] == ColonCut(u[j]) && u[j] != '\0'
    {
      assert u[j] == t[n + j] && src[p + (n + j)] == ColonCut(t[n + j]);
    }
  }

  lemma NextPiece(src: seq<char>, p: nat, t: string, end: nat)
    requires Ahead(src, p, t, end) && t != ""
    ensures Ahead(src, p + |FirstGroup(t)| + 1, AfterFirst(t), end)
  {
    var n := |FirstGroup(t)|;
    if n < |t| {
      CutRest(src, p, t, n + 1);
    }
  }

  /**
   `ip6_addr_no_mh` on the text at `from`, which two NULs end: colons become NULs, and the pieces
   between them are printed in columns of four.
   */
  method AddrNoMh(src: array<char>, from: nat, ghost t: string) returns (dst: string)
    requires from + |t| + 1 < src.Length && NoNul(t) && src[from + |t|] == src[from + |t| + 1] == '\0'
    requires forall j | 0 <= j < |t| :: src[from + j] == t[j]
    modifies src
    ensures dst == Pack(t, "", 0)
    ensures forall j | 0 <= j < src.Length && !(from <= j < from + |t|) :: src[j] == old(src[j])
  {
    CutColons(src, from, t);
    dst := PackPieces(src, from, t);
  }

  /** One round of the walk. */
  method PackPiece(src: array<char>, p: nat, dst: string, i: nat, ghost t: string, ghost end: nat)
    returns (p': nat, dst': string)
    requires Ahead(src[..], p, t, end) && t != "" && IsHex(t[0]) && |dst| >= 4 * i
    ensures Ahead(src[..], p', AfterFirst(t), end) && p < p'
    ensures |dst'| >= 4 * (i + 1) && Pack(AfterFirst(t), dst', i + 1) == Pack(t, dst, i)
  {
    NextPiece(src[..], p, t, end);
    PackStep(t, dst, i);
    var g := Piece(src, p, t);
    p', dst' := p + |g| + 1, dst[..4 * i] + Pad4(g);
  }

  /** The walk over the pieces. */
  method PackPieces(src: array<char>, from: nat, ghost t: string) returns (dst: string)
    requires Ahead(src[..], from, t, from + |t|)
    ensures dst == Pack(t, "", 0)
  {
    ghost var s, end := src[..], from + |t|;
    var p, i := from, 0;
    dst := "";
    ghost var rest := t;
    while IsHex(src[p])
      invariant Ahead(s, p, rest, end) && |dst| >= 4 * i
      invariant Pack(t, "", 0) == Pack(rest, dst, i)
      decreases end + 1 - p
    {
      HexAhead(s, p, rest);
      p, dst := PackPiece(src, p, dst, i, rest, end);
      i := i + 1;
      rest := AfterFirst(rest);
    }
    HexAhead(s, p, rest);
  }

  /** The loop looks at the buffer, the specification at the text. */
  lemma HexAhead(src: seq<char>, p: nat, t: string)
    requires CutAt(src, p, t)
    ensures IsHex(src[p]) <==> t != "" && IsHex(t[0])
  {
    if t != "" {
      assert src[p + 0] == ColonCut(t[0]);
    }
  }

  /** A text in the buffer, and the NUL that ends it. */
  ghost predicate Text(buf: seq<char>, a: string) {
    |a| < |buf| && buf[..|a|] == a && buf[|a|] == '\0' && NoNul(a)
  }

  lemma TextAt(buf: seq<char>, a: string, j: nat)
    requires Text(buf, a) && j < |a|
    ensures buf[j] == a[j] && a[j] != '\0'
  {
    assert buf[..|a|][j] == a[j] && a[j] in a;
  }

  method StrLen(buf: array<char>, ghost a: string) returns (n: nat)
    requires Text(buf[..], a)
    ensures n == |a|
  {
    forall j | 0 <= j < |a|
      ensures buf[j] != '\0'
    {
      TextAt(buf[..], a, j);
    }
    n := 0;
    while buf[n] != '\0'
      invariant n <= |a|
      decreases |a| - n
    {
      n := n + 1;
    }
  }

  /** `sprintf` of a text into the buffer. */
  method Put(buf: array<char>, at: nat, text: string)
    requires at + |text| < buf.Length
    modifies buf
    ensures forall j | 0 <= j < |text| :: buf[at + j] == text[j]
    ensures buf[at + |text|] == '\0'
    ensures forall j | 0 <= j < buf.Length && !(at <= j <= at + |text|) :: buf[j] == old(buf[j])
  {
    var n := 0;
    while n < |text|
      invariant n <= |text|
      invariant forall j | 0 <= j < n :: buf[at + j] == text[j]
      invariant forall j | 0 <= j < buf.Length && !(at <= j < at + n) :: buf[j] == old(buf[j])
    {
      buf[at + n] := text[n];
      n := n + 1;
    }
    buf[at + n] := '\0';
  }

  lemma UniformChars(a: string, begin: nat, v: V4)
    requires begin <= |a| && forall c | c in a :: IsAddrChar(c)
    ensures forall c | c in a[..begin] + Join(V4Groups(v)) :: IsAddrChar(c)
  {
    var u := a[..begin] + Join(V4Groups(v));
    V4GroupsMean(v);
    JoinIsPlain(V4Groups(v));
    forall c | c in u
      ensures IsAddrChar(c)
    {
      var j: nat :| j < |u| && u[j] == c;
      if j < begin {
        assert a[j] in a;
      }
    }
  }

  lemma AddrCharsNoNul(a: string)
    requires forall c | c in a :: IsAddrChar(c)
    ensures NoNul(a)
  {
    forall j | 0 <= j < |a|
      ensures a[j] != '\0'
    {
      assert a[j] in a;
    }
  }

  lemma V4Text(v: V4)
    ensures Join(V4Groups(v)) == Hex2(v[0]) + Hex2(v[1]) + ":" + Hex2(v[2]) + Hex2(v[3])
  {
    assert V4Groups(v)[1..] == [V4Groups(v)[1]];
  }

  method PutV4(buf: array<char>, begin: nat, v: V4, ghost u: string)
    requires begin + 9 < buf.Length && u == buf[..begin] + Join(V4Groups(v))
    modifies buf
    ensures |u| == begin + 9 && buf[..|u|] == u && buf[|u|] == '\0'
  {
    V4Text(v);
    ghost var p := buf[..begin];
    Put(buf, begin, Hex2(v[0]));
    Put(buf, begin + 2, Hex2(v[1]));
    assert buf[..begin + 4] == p + Hex2(v[0]) + Hex2(v[1]);
    buf[begin + 4] := ':';
    assert buf[..begin + 5] == p + Hex2(v[0]) + Hex2(v[1]) + ":";
    Put(buf, begin + 5, Hex2(v[2]));
    assert buf[..begin + 7] == p + Hex2(v[0]) + Hex2(v[1]) + ":" + Hex2(v[2]);
    Put(buf, begin + 7, Hex2(v[3]));
    assert buf[..begin + 9] == p + Hex2(v[0]) + Hex2(v[1]) + ":" + Hex2(v[2]) + Hex2(v[3]);
  }

  lemma UniformParts(a: string, inet: string -> V4, begin: nat)
    requires '.' in a && LastColon(a).Some? && begin == LastColon(a).value + 1
    requires forall c | c in a :: IsAddrChar(c)
    ensures begin <= |a| && Uniform(a, inet) == a[..begin] + Join(V4Groups(inet(a[begin..])))
    ensures NoNul(Uniform(a, inet)) && forall c | c in Uniform(a, inet) :: IsAddrChar(c)
  {
    UniformChars(a, begin, inet(a[begin..]));
    AddrCharsNoNul(Uniform(a, inet));
  }

  /** `ip6_addr_uniform`: the four bytes are printed over the dotted part, in two groups. */
  method AddrUniform(buf: array<char>, ghost a: string, inet: string -> V4)
    requires Text(buf[..], a) && ('.' in a ==> ':' in a) && |Uniform(a, inet)| < buf.Length
    requires forall c | c in a :: IsAddrChar(c)
    modifies buf
    ensures Text(buf[..], Uniform(a, inet))
  {
    var n := StrLen(buf, a);
    var t := buf[..n];
    if '.' in t {
      ReplaceDotted(buf, t, inet);
    }
  }

  method ReplaceDotted(buf: array<char>, t: string, inet: string -> V4)
    requires buf.Length > |Uniform(t, inet)| && |t| <= buf.Length && buf[..|t|] == t && '.' in t && ':' in t
    requires forall c | c in t :: IsAddrChar(c)
    modifies buf
    ensures Text(buf[..], Uniform(t, inet))
  {
    var begin := LastColon(t).value + 1;
    var v := inet(t[begin..]);
    ghost var u := DottedText(t, inet, begin, v);
    assert buf[..begin] == t[..begin];
    PutV4(buf, begin, v, u);
    TextIs(buf[..], u);
  }

  lemma DottedText(t: string, inet: string -> V4, begin: nat, v: V4) returns (u: string)
    requires '.' in t && LastColon(t).Some? && begin == LastColon(t).value + 1 && v == inet(t[begin..])
    requires forall c | c in t :: IsAddrChar(c)
    ensures u == Uniform(t, inet) == t[..begin] + Join(V4Groups(v)) && |u| == begin + 9 && NoNul(u)
  {
    UniformParts(t, inet, begin);
    V4Text(v);
    u := Uniform(t, inet);
  }

  lemma TextIs(buf: seq<char>, a: string)
    requires |a| < |buf| && buf[..|a|] == a && buf[|a|] == '\0' && NoNul(a)
    ensures Text(buf, a)
  {
  }

  /** Two digits at a time. */
  method ReadDigits(digits: string) returns (addr: seq<Byte>)
    requires |digits| == 32
    ensures addr == Pairs(digits)
  {
    addr := [];
    var i := 0;
    while i < 32
      invariant i % 2 == 0 && 0 <= i <= 32
      invariant addr + Pairs(digits[i..]) == Pairs(digits)
    {
      PairsStep(addr, digits, i);
      addr := addr + [StrToL(digits[i], digits[i + 1])];
      i := i + 2;
    }
  }

  /** `ip6_str2n`, on a text that the buffers can hold. */
  method ReadAddr(info: string, inet: string -> V4) returns (addr: seq<Byte>)
    requires Fits(info, inet)
    ensures addr == Str2N(info, inet)
  {
    var a := TrimAddr(info);
    var hdr, tail := HeaderAndTailOf(a, inet);
    addr := ReadDigits(Digits(hdr, tail));
  }

  lemma PairsStep(addr: seq<Byte>, d: string, i: nat)
    requires i + 2 <= |d|
    ensures addr + Pairs(d[i..]) == addr + [StrToL(d[i], d[i + 1])] + Pairs(d[i + 2..])
  {
    assert d[i..][2..] == d[i + 2..];
  }

  /** The text in a buffer of 64 characters, made uniform and cut at the double colon. */
  method HeaderAndTailOf(a: string, inet: string -> V4) returns (hdr: string, tail: string)
    requires |a| <= 63 && (forall c | c in a :: IsAddrChar(c)) && ('.' in a ==> ':' in a)
    requires |Uniform(a, inet)| <= 62
    ensures hdr == Header(Uniform(a, inet)) && tail == Tail(Uniform(a, inet))
  {
    ghost var u := Uniform(a, inet);
    var buf := new char[64](i requires 0 <= i < 64 => if i < |a| then a[i] else '\0');
    assert buf[..|a|] == a;
    AddrCharsNoNul(a);
    AddrUniform(buf, a, inet);
    var n := StrLen(buf, u);
    var t := buf[..n];
    buf[n + 1] := '\0';
    assert buf[..n] == u;
    hdr, tail := Split(buf, t);
  }

  /** From `strstr` on. */
  method Split(buf: array<char>, u: string) returns (hdr: string, tail: string)
    requires |u| + 1 < buf.Length && Text(buf[..], u) && buf[|u| + 1] == '\0'
    modifies buf
    ensures hdr == Header(u) && tail == Tail(u)
  {
    forall j | 0 <= j < |u|
      ensures buf[j] == u[j]
    {
      TextAt(buf[..], u, j);
    }
    var mh := FindDouble(u);
    if mh.None? {
      hdr := AddrNoMh(buf, 0, u);
      tail := "";
    } else {
      hdr, tail := SplitAt(buf, u, mh.value);
    }
  }

  method SplitAt(buf: array<char>, u: string, j: nat) returns (hdr: string, tail: string)
    requires |u| + 1 < buf.Length && NoNul(u) && j + 2 <= |u| && buf[|u|] == buf[|u| + 1] == '\0'
    requires forall i | 0 <= i < |u| :: buf[i] == u[i]
    modifies buf
    ensures hdr == Pack(u[..j], "", 0) && tail == Pack(u[j + 2..], "", 0)
  {
    NoNulParts(u, j);
    var h, t := u[..j], u[j + 2..];
    buf[j], buf[j + 1] := '\0', '\0';
    hdr := AddrNoMh(buf, 0, h);
    assert buf[j + 2 + |t|] == '\0' && buf[j + 2 + |t| + 1] == '\0';
    assert forall i | 0 <= i < |t| :: buf[j + 2 + i] == u[j + 2 + i] == t[i];
    tail := AddrNoMh(buf, j + 2, t);
  }

  lemma NoNulParts(u: string, j: nat)
    requires NoNul(u) && j + 2 <= |u|
    ensures NoNul(u[..j]) && NoNul(u[j + 2..])
  {
  }
}
