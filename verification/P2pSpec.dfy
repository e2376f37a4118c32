/**
 What the rendezvous server's table means: a bounded list of registrations in refresh order.
 The lemmas are about whole histories of requests.
 */
module P2pSpec {
  import opened Common

  const MAX_REQ_NUM: nat := 256
  const GAP: int := 60

  type SChar = c: int | -128 <= c < 128
  type Str = seq<SChar>

  datatype Addr = Addr(ip: nat, port: nat)

  /** Who wants to talk to whom. */
  datatype Pair = Pair(src: Str, dst: Str)

  /** One request as the table remembers it. */
  datatype Reg = Reg(pair: Pair, pass: Str, addr: Addr, time: int)

  function Reverse(p: Pair): Pair {
    Pair(p.dst, p.src)
  }

  /** `m` is the other half of `r`. */
  predicate Matches(m: Reg, r: Reg) {
    m.pair == Reverse(r.pair) && m.pass == r.pass
  }

  predicate Stale(m: Reg, r: Reg) {
    r.time - m.time > GAP
  }

  function Without(t: seq<Reg>, p: Pair): seq<Reg> {
    if t == [] then []
    else if t[0].pair == p then t[1..]
    else [t[0]] + Without(t[1..], p)
  }

  function LastOf(t: seq<Reg>, n: nat): seq<Reg> {
    if |t| <= n then t else t[|t| - n..]
  }

  /** The request becomes the newest of at most 256. */
  function Refresh(t: seq<Reg>, r: Reg): seq<Reg> {
    LastOf(Without(t, r.pair) + [r], MAX_REQ_NUM)
  }

  function FindMatch(t: seq<Reg>, r: Reg): (m: Option<Reg>)
    ensures m.Some? ==> m.value in t && Matches(m.value, r)
    ensures m.None? ==> forall e | e in t :: !Matches(e, r)
  {
    if t == [] then None
    else if Matches(t[0], r) then Some(t[0])
    else
      var m := FindMatch(t[1..], r);
      assert forall e | e in t :: e == t[0] || e in t[1..];
      m
  }

  /** The table without the request's match, if that is stale. */
  function DropStale(t: seq<Reg>, r: Reg): seq<Reg> {
    var m := FindMatch(t, r);
    if m.Some? && Stale(m.value, r) then Without(t, m.value.pair) else t
  }

  function Serve(t: seq<Reg>, r: Reg): seq<Reg> {
    DropStale(Refresh(t, r), r)
  }

  /** The peer's address in the reply, or None for "offline". */
  function Answer(t: seq<Reg>, r: Reg): Option<Addr> {
    var m := FindMatch(Refresh(t, r), r);
    if m.Some? && !Stale(m.value, r) then Some(m.value.addr) else None
  }

  /** The table after a history of requests. */
  function Table(h: seq<Reg>): seq<Reg> {
    if h == [] then [] else Serve(Table(h[..|h| - 1]), h[|h| - 1])
  }

  /** Every pair ever seen, in refresh order: no limit and no dropping. */
  function Seen(h: seq<Reg>): seq<Reg> {
    if h == [] then [] else Without(Seen(h[..|h| - 1]), h[|h| - 1].pair) + [h[|h| - 1]]
  }

  /** Dropping, but no limit. */
  function Live(h: seq<Reg>): seq<Reg> {
    if h == [] then []
    else
      var r := h[|h| - 1];
      DropStale(Without(Live(h[..|h| - 1]), r.pair) + [r], r)
  }

  ghost predicate Distinct(t: seq<Reg>) {
    forall i, j | 0 <= i < j < |t| :: t[i].pair != t[j].pair
  }

  ghost predicate Suffix(t: seq<Reg>, u: seq<Reg>) {
    |t| <= |u| && t == u[|u| - |t|..]
  }

  // ----- Without -----

  ghost predicate Has(t: seq<Reg>, p: Pair) {
    exists i :: 0 <= i < |t| && t[i].pair == p
  }

  lemma {:induction false} WithoutAt(t: seq<Reg>, i: nat)
    requires Distinct(t) && i < |t|
    ensures Without(t, t[i].pair) == Cut(t, i)
  {
    if i == 0 {
    } else {
      WithoutAt(t[1..], i - 1);
      assert Cut(t, i) == [t[0]] + Cut(t[1..], i - 1);
    }
  }

  lemma {:induction false} WithoutNone(t: seq<Reg>, p: Pair)
    requires !Has(t, p)
    ensures Without(t, p) == t
  {
    if t == [] {
    } else {
      assert t[0].pair != p;
      assert forall i | 0 <= i < |t[1..]| :: t[1..][i] == t[i + 1];
      WithoutNone(t[1..], p);
      assert t == [t[0]] + t[1..];
    }
  }

  lemma OnePerPair(t: seq<Reg>, e: Reg, f: Reg)
    requires Distinct(t) && e in t && f in t && e.pair == f.pair
    ensures e == f
  {
    var i, j :| 0 <= i < |t| && 0 <= j < |t| && t[i] == e && t[j] == f;
    assert i == j;
  }

  lemma CutElements<T>(t: seq<T>, i: nat)
    requires i < |t|
    ensures forall j | 0 <= j < |t| && j != i :: t[j] in Cut(t, i)
    ensures forall e | e in Cut(t, i) :: e in t && exists j :: 0 <= j < |t| && j != i && t[j] == e
  {
    var c := Cut(t, i);
    forall j | 0 <= j < |t| && j != i
      ensures t[j] in c
    {
      assert c[if j < i then j else j - 1] == t[j];
    }
    forall e | e in c
      ensures e in t && exists j :: 0 <= j < |t| && j != i && t[j] == e
    {
      var j: nat :| j < |c| && c[j] == e;
      assert t[if j < i then j else j + 1] == e;
    }
  }

  lemma CutMembers(t: seq<Reg>, i: nat)
    requires Distinct(t) && i < |t|
    ensures Distinct(Cut(t, i))
    ensures forall e :: e in Cut(t, i) <==> e in t && e.pair != t[i].pair
  {
    CutElements(t, i);
    forall e | e in t && e.pair != t[i].pair
      ensures e in Cut(t, i)
    {
      var j: nat :| j < |t| && t[j] == e;
    }
  }

  lemma WithoutKeeps(t: seq<Reg>, p: Pair)
    requires Distinct(t)
    ensures Distinct(Without(t, p)) && !Has(Without(t, p), p)
    ensures |Without(t, p)| == if Has(t, p) then |t| - 1 else |t|
    ensures forall e :: e in Without(t, p) <==> e in t && e.pair != p
  {
    if Has(t, p) {
      var i :| 0 <= i < |t| && t[i].pair == p;
      WithoutAt(t, i);
      CutMembers(t, i);
    } else {
      WithoutNone(t, p);
    }
    assert forall i | 0 <= i < |Without(t, p)| :: Without(t, p)[i] in Without(t, p);
  }

  lemma IsSuffix(pre: seq<Reg>, t: seq<Reg>)
    ensures Suffix(t, pre + t)
  {
  }

  lemma {:induction false} WithoutPrefix(pre: seq<Reg>, t: seq<Reg>, p: Pair)
    ensures Without(pre + t, p) == if Has(pre, p) then Without(pre, p) + t else pre + Without(t, p)
  {
    if pre == [] {
      assert pre + t == t && pre + Without(t, p) == Without(t, p);
    } else {
      var rest := pre[1..];
      assert (pre + t)[0] == pre[0] && (pre + t)[1..] == rest + t;
      if pre[0].pair != p {
        WithoutPrefix(rest, t, p);
        assert Has(pre, p) <==> Has(rest, p) by {
          assert forall i | 0 <= i < |rest| :: rest[i] == pre[i + 1];
          assert forall i | 1 <= i < |pre| :: pre[i] == rest[i - 1];
        }
        assert pre == [pre[0]] + rest;
      }
    }
  }

  lemma {:induction false} FindPrefix(pre: seq<Reg>, t: seq<Reg>, r: Reg)
    ensures FindMatch(pre + t, r) == if FindMatch(pre, r).Some? then FindMatch(pre, r) else FindMatch(t, r)
  {
    if pre == [] {
      assert pre + t == t;
    } else {
      assert (pre + t)[0] == pre[0] && (pre + t)[1..] == pre[1..] + t;
      FindPrefix(pre[1..], t, r);
    }
  }

  /** With distinct pairs, a pair is in one half only. */
  lemma HalvesApart(pre: seq<Reg>, t: seq<Reg>, p: Pair)
    requires Distinct(pre + t)
    ensures Distinct(pre) && Distinct(t) && !(Has(pre, p) && Has(t, p))
  {
    var u := pre + t;
    assert forall i | 0 <= i < |pre| :: u[i] == pre[i];
    assert forall i | 0 <= i < |t| :: u[|pre| + i] == t[i];
  }

  lemma SuffixWithout(t: seq<Reg>, u: seq<Reg>, p: Pair)
    requires Distinct(u) && Suffix(t, u)
    ensures Suffix(Without(t, p), Without(u, p))
  {
    var pre := u[..|u| - |t|];
    assert u == pre + t;
    WithoutPrefix(pre, t, p);
    HalvesApart(pre, t, p);
    if Has(pre, p) {
      WithoutNone(t, p);
      IsSuffix(Without(pre, p), t);
    } else {
      IsSuffix(pre, Without(t, p));
    }
  }

  lemma MatchIsUnique(t: seq<Reg>, m: Reg, r: Reg)
    requires Distinct(t) && m in t && Matches(m, r)
    ensures FindMatch(t, r) == Some(m)
  {
  }

  // ----- Every table is a table of latest requests -----

  lemma AppendDistinct(t: seq<Reg>, r: Reg)
    requires Distinct(t)
    ensures Distinct(Without(t, r.pair) + [r])
  {
    WithoutKeeps(t, r.pair);
    var w := Without(t, r.pair);
    assert forall i | 0 <= i < |w| :: w[i].pair != r.pair;
  }

  lemma SuffixKeeps(u: seq<Reg>, k: nat)
    requires Distinct(u) && k < |u|
    ensures Distinct(u[k..]) && u[|u| - 1] in u[k..]
  {
    var f := u[k..];
    assert forall i | 0 <= i < |f| :: f[i] == u[k + i];
    assert f[|f| - 1] == u[|u| - 1];
  }

  lemma LastOfKeeps(t: seq<Reg>, r: Reg)
    requires Distinct(t + [r])
    ensures var f := LastOf(t + [r], MAX_REQ_NUM);
      Distinct(f) && 0 < |f| <= MAX_REQ_NUM && r in f
  {
    var u := t + [r];
    SuffixKeeps(u, if |u| <= MAX_REQ_NUM then 0 else |u| - MAX_REQ_NUM);
    assert u[0..] == u;
  }

  lemma RefreshKeeps(t: seq<Reg>, r: Reg)
    requires Distinct(t) && |t| <= MAX_REQ_NUM
    ensures Distinct(Refresh(t, r)) && 0 < |Refresh(t, r)| <= MAX_REQ_NUM && r in Refresh(t, r)
    ensures Refresh(t, r) == if |t| == MAX_REQ_NUM && !Has(t, r.pair) then t[1..] + [r] else Without(t, r.pair) + [r]
  {
    WithoutKeeps(t, r.pair);
    AppendDistinct(t, r);
    LastOfKeeps(Without(t, r.pair), r);
    if |t| == MAX_REQ_NUM && !Has(t, r.pair) {
      WithoutNone(t, r.pair);
      assert (t + [r])[1..] == t[1..] + [r];
    }
  }

  /** After any history: at most 256 registrations, one per pair, and the newest request is there. */
  lemma {:induction false} TableIsBounded(h: seq<Reg>)
    ensures Distinct(Table(h)) && |Table(h)| <= MAX_REQ_NUM
    ensures h != [] ==> h[|h| - 1] in Table(h)
  {
    if h == [] {
    } else {
      var h', r := h[..|h| - 1], h[|h| - 1];
      TableIsBounded(h');
      RefreshKeeps(Table(h'), r);
      DropKeeps(Refresh(Table(h'), r), r);
    }
  }

  lemma DropKeeps(t: seq<Reg>, r: Reg)
    requires Distinct(t)
    ensures Distinct(DropStale(t, r)) && |DropStale(t, r)| <= |t|
    ensures r in t ==> r in DropStale(t, r)
    ensures forall e :: e in DropStale(t, r) <==> e in t && !(Matches(e, r) && Stale(e, r))
  {
    var m := FindMatch(t, r);
    if m.Some? && Stale(m.value, r) {
      WithoutKeeps(t, m.value.pair);
      forall e | e in t && e.pair == m.value.pair
        ensures e == m.value
      {
        assert Matches(m.value, r);
        var i, j :| 0 <= i < |t| && 0 <= j < |t| && t[i] == e && t[j] == m.value;
        assert i == j;
      }
    } else if m.Some? {
      forall e | e in t && Matches(e, r)
        ensures !Stale(e, r)
      {
        MatchIsUnique(t, e, r);
      }
    }
  }

  lemma {:induction false} LiveIsDistinct(h: seq<Reg>)
    ensures Distinct(Live(h))
  {
    if h == [] {
    } else {
      var h', r := h[..|h| - 1], h[|h| - 1];
      LiveIsDistinct(h');
      AppendDistinct(Live(h'), r);
      DropKeeps(Without(Live(h'), r.pair) + [r], r);
    }
  }

  /** The limit only ever cuts off the oldest registrations: the table is the recent end of an unlimited one. */
  lemma {:induction false} TableIsRecentEnd(h: seq<Reg>)
    ensures Suffix(Table(h), Live(h))
  {
    if h == [] {
    } else {
      var h', r := h[..|h| - 1], h[|h| - 1];
      TableIsRecentEnd(h');
      TableIsBounded(h');
      LiveIsDistinct(h');
      SuffixWithout(Table(h'), Live(h'), r.pair);
      SuffixAppend(Without(Table(h'), r.pair), Without(Live(h'), r.pair), r);
      AppendDistinct(Live(h'), r);
      SuffixDropStale(Refresh(Table(h'), r), Without(Live(h'), r.pair) + [r], r);
    }
  }

  lemma SuffixAppend(t: seq<Reg>, u: seq<Reg>, r: Reg)
    requires Suffix(t, u)
    ensures Suffix(t + [r], u + [r]) && Suffix(LastOf(t + [r], MAX_REQ_NUM), u + [r])
  {
  }

  lemma SuffixDropStale(t: seq<Reg>, u: seq<Reg>, r: Reg)
    requires Distinct(u) && Suffix(t, u)
    ensures Suffix(DropStale(t, r), DropStale(u, r))
  {
    var pre := u[..|u| - |t|];
    assert u == pre + t;
    FindPrefix(pre, t, r);
    var m := FindMatch(u, r);
    if m.Some? {
      HalvesApart(pre, t, m.value.pair);
      SuffixWithout(t, u, m.value.pair);
      if m.value in pre {
        HasIt(pre, m.value);
        assert FindMatch(t, r).None?;
        WithoutNone(t, m.value.pair);
      }
    }
  }

  lemma HasIt(t: seq<Reg>, e: Reg)
    requires e in t
    ensures Has(t, e.pair)
  {
    var i: nat :| i < |t| && t[i] == e;
  }

  lemma TableSnoc(h: seq<Reg>, r: Reg)
    ensures Table(h + [r]) == Serve(Table(h), r)
    ensures Seen(h + [r]) == Without(Seen(h), r.pair) + [r]
  {
    assert (h + [r])[..|h|] == h;
  }

  /** Request `i` of the history is `e`, and its pair has not asked again since. */
  ghost predicate LatestAt(h: seq<Reg>, i: nat, e: Reg) {
    i < |h| && h[i] == e && forall j | i < j < |h| :: h[j].pair != e.pair
  }

  /** The registrations are latest requests of their pairs, those at `at`, in the order of the requests. */
  ghost predicate InOrder(t: seq<Reg>, h: seq<Reg>, at: seq<nat>) {
    && |at| == |t|
    && (forall i | 0 <= i < |t| :: LatestAt(h, at[i], t[i]))
    && (forall i, j | 0 <= i < j < |t| :: at[i] < at[j])
  }

  ghost predicate Tracks(t: seq<Reg>, h: seq<Reg>) {
    exists at :: InOrder(t, h, at)
  }

  lemma TracksIsDistinct(t: seq<Reg>, h: seq<Reg>)
    requires Tracks(t, h)
    ensures Distinct(t)
  {
    var at :| InOrder(t, h, at);
    forall i, j | 0 <= i < j < |t|
      ensures t[i].pair != t[j].pair
    {
      assert LatestAt(h, at[i], t[i]) && LatestAt(h, at[j], t[j]);
    }
  }

  lemma TracksCut(t: seq<Reg>, h: seq<Reg>, i: nat)
    requires Tracks(t, h) && i < |t|
    ensures Tracks(Cut(t, i), h)
  {
    var at :| InOrder(t, h, at);
    assert InOrder(Cut(t, i), h, Cut<nat>(at, i));
  }

  lemma TracksWithout(t: seq<Reg>, h: seq<Reg>, p: Pair)
    requires Tracks(t, h)
    ensures Tracks(Without(t, p), h) && !Has(Without(t, p), p)
  {
    TracksIsDistinct(t, h);
    WithoutKeeps(t, p);
    if Has(t, p) {
      var i: nat :| i < |t| && t[i].pair == p;
      WithoutAt(t, i);
      TracksCut(t, h, i);
    } else {
      WithoutNone(t, p);
    }
  }

  lemma TracksAppend(t: seq<Reg>, h: seq<Reg>, r: Reg)
    requires Tracks(t, h) && !Has(t, r.pair)
    ensures Tracks(t + [r], h + [r])
  {
    var at :| InOrder(t, h, at);
    var t', h' := t + [r], h + [r];
    var last: nat := |h|;
    var at' := at + [last];
    forall i | 0 <= i < |t'|
      ensures LatestAt(h', at'[i], t'[i])
    {
      if i < |t| {
        LatestGrows(h, at[i], t[i], r);
      } else {
        assert at'[i] == |h| && t'[i] == r;
      }
    }
    forall i, j | 0 <= i < j < |t'|
      ensures at'[i] < at'[j]
    {
      assert LatestAt(h, at[i], t[i]);
    }
    assert InOrder(t', h', at');
  }

  lemma LatestGrows(h: seq<Reg>, i: nat, e: Reg, r: Reg)
    requires LatestAt(h, i, e) && e.pair != r.pair
    ensures LatestAt(h + [r], i, e)
  {
  }

  lemma TracksRecent(t: seq<Reg>, h: seq<Reg>, k: nat)
    requires Tracks(t, h) && k <= |t|
    ensures Tracks(t[k..], h)
  {
    var at :| InOrder(t, h, at);
    assert InOrder(t[k..], h, at[k..]);
  }

  lemma RefreshTracks(t: seq<Reg>, h: seq<Reg>, r: Reg)
    requires Tracks(t, h)
    ensures Tracks(Refresh(t, r), h + [r])
  {
    TracksWithout(t, h, r.pair);
    var w := Without(t, r.pair) + [r];
    TracksAppend(Without(t, r.pair), h, r);
    if |w| > MAX_REQ_NUM {
      TracksRecent(w, h + [r], |w| - MAX_REQ_NUM);
    }
  }

  lemma DropTracks(t: seq<Reg>, h: seq<Reg>, r: Reg)
    requires Tracks(t, h)
    ensures Tracks(DropStale(t, r), h)
  {
    var m := FindMatch(t, r);
    if m.Some? {
      TracksWithout(t, h, m.value.pair);
    }
  }

  /** What the table holds is in refresh order, and of each pair only the latest request. */
  lemma {:induction false} TableTracks(h: seq<Reg>)
    ensures Tracks(Table(h), h)
  {
    if h == [] {
      assert InOrder([], [], []);
    } else {
      var h', r := h[..|h| - 1], h[|h| - 1];
      assert h == h' + [r];
      TableTracks(h');
      RefreshTracks(Table(h'), h', r);
      DropTracks(Refresh(Table(h'), r), h, r);
    }
  }

  /** `Seen` is every pair's latest request, in the order of the requests. */
  lemma {:induction false} SeenTracks(h: seq<Reg>)
    ensures Tracks(Seen(h), h) && Distinct(Seen(h))
    ensures forall r | r in h :: Has(Seen(h), r.pair)
  {
    if h == [] {
      assert InOrder([], [], []);
    } else {
      var h', r := h[..|h| - 1], h[|h| - 1];
      assert h == h' + [r];
      SeenTracks(h');
      TracksWithout(Seen(h'), h', r.pair);
      TracksAppend(Without(Seen(h'), r.pair), h', r);
      forall q | q in h
        ensures Has(Seen(h), q.pair)
      {
        SeenHas(Seen(h'), q.pair, r);
      }
    }
    TracksIsDistinct(Seen(h), h);
  }

  lemma SeenHas(s: seq<Reg>, p: Pair, r: Reg)
    requires Distinct(s) && (Has(s, p) || p == r.pair)
    ensures Has(Without(s, r.pair) + [r], p)
  {
    var s' := Without(s, r.pair) + [r];
    assert s'[|s'| - 1] == r;
    if p != r.pair {
      var i: nat :| i < |s| && s[i].pair == p;
      WithoutKeeps(s, r.pair);
      assert s[i] in s && s[i] in s';
    }
  }

  // ----- Retention -----

  function PairsOf(h: seq<Reg>): set<Pair> {
    set r | r in h :: r.pair
  }

  /** A distinct run of registrations has as many pairs as members. */
  lemma {:induction false} PairCount(t: seq<Reg>)
    requires Distinct(t)
    ensures |PairsOf(t)| == |t|
  {
    if t == [] {
    } else {
      var rest := t[..|t| - 1];
      PairCount(rest);
      assert forall e | e in t :: e in rest || e == t[|t| - 1];
      assert forall e | e in rest :: e in t && e.pair != t[|t| - 1].pair;
      assert t[|t| - 1] in t;
      assert PairsOf(t) == PairsOf(rest) + {t[|t| - 1].pair};
    }
  }

  lemma SmallerSet<T>(a: set<T>, b: set<T>)
    requires a <= b
    ensures |a| <= |b|
  {
    assert b == a + (b - a);
  }

  /** `r` is at position `p`, and everything newer belongs to `others`. */
  ghost predicate Held(t: seq<Reg>, p: nat, r: Reg, others: set<Pair>) {
    && Distinct(t) && |t| <= MAX_REQ_NUM && p < |t| && t[p] == r
    && forall i | p < i < |t| :: t[i].pair in others
  }

  lemma HeldBound(t: seq<Reg>, p: nat, r: Reg, others: set<Pair>, extra: Pair)
    requires Held(t, p, r, others) && !Has(t, extra)
    ensures |t| - p <= |others + {extra}|
  {
    var newer := t[p + 1..];
    PairCount(newer);
    assert extra !in PairsOf(newer);
    assert PairsOf(newer) + {extra} <= others + {extra};
    SmallerSet(PairsOf(newer) + {extra}, others + {extra});
  }

  lemma CutHolds(t: seq<Reg>, p: nat, r: Reg, others: set<Pair>, i: nat)
    requires Held(t, p, r, others) && i < |t| && i != p
    ensures Held(Cut(t, i), if i < p then p - 1 else p, r, others)
  {
    CutMembers(t, i);
  }

  lemma AppendHolds(t: seq<Reg>, p: nat, r: Reg, others: set<Pair>, q: Reg)
    requires Held(t, p, r, others) && |t| < MAX_REQ_NUM && !Has(t, q.pair)
    ensures Held(t + [q], p, r, others + {q.pair})
  {
    assert forall i | 0 <= i < |t| :: (t + [q])[i] == t[i] && t[i].pair != q.pair;
  }

  lemma RefreshHolds(t: seq<Reg>, p: nat, r: Reg, others: set<Pair>, q: Reg) returns (p': nat)
    requires Held(t, p, r, others) && q.pair != r.pair && |others + {q.pair}| < MAX_REQ_NUM
    ensures Held(Refresh(t, q), p', r, others + {q.pair})
  {
    WithoutKeeps(t, q.pair);
    if Has(t, q.pair) {
      var i: nat :| i < |t| && t[i].pair == q.pair;
      WithoutAt(t, i);
      CutHolds(t, p, r, others, i);
      p' := if i < p then p - 1 else p;
      AppendHolds(Cut(t, i), p', r, others, q);
    } else {
      WithoutNone(t, q.pair);
      p' := NewPairHolds(t, p, r, others, q);
    }
  }

  lemma NewPairHolds(t: seq<Reg>, p: nat, r: Reg, others: set<Pair>, q: Reg) returns (p': nat)
    requires Held(t, p, r, others) && !Has(t, q.pair) && |others + {q.pair}| < MAX_REQ_NUM
    ensures Held(LastOf(t + [q], MAX_REQ_NUM), p', r, others + {q.pair})
  {
    if |t| == MAX_REQ_NUM {
      HeldBound(t, p, r, others, q.pair);
      CutHolds(t, p, r, others, 0);
      CutMembers(t, 0);
      assert !Has(Cut(t, 0), q.pair);
      AppendHolds(Cut(t, 0), p - 1, r, others, q);
      assert Cut(t, 0) + [q] == (t + [q])[1..];
      p' := p - 1;
    } else {
      AppendHolds(t, p, r, others, q);
      p' := p;
    }
  }

  lemma WithoutHolds(t: seq<Reg>, p: nat, r: Reg, others: set<Pair>, m: Reg) returns (p': nat)
    requires Held(t, p, r, others) && m in t && m != r
    ensures Held(Without(t, m.pair), p', r, others)
  {
    var i: nat :| i < |t| && t[i] == m;
    WithoutAt(t, i);
    CutHolds(t, p, r, others, i);
    p' := if i < p then p - 1 else p;
  }

  lemma DropHolds(t: seq<Reg>, p: nat, r: Reg, others: set<Pair>, q: Reg) returns (p': nat)
    requires Held(t, p, r, others) && !(Matches(r, q) && Stale(r, q))
    ensures Held(DropStale(t, q), p', r, others)
  {
    var m := FindMatch(t, q);
    if m.Some? && Stale(m.value, q) {
      p' := WithoutHolds(t, p, r, others, m.value);
    } else {
      p' := p;
    }
  }

  /** No request of `later` finds `r` too old. */
  ghost predicate NeverStale(r: Reg, later: seq<Reg>) {
    forall q | q in later :: !(Matches(r, q) && Stale(r, q))
  }

  /** Splitting the newest request off. */
  lemma LastRequest(r: Reg, before: seq<Reg>, q: Reg)
    ensures PairsOf(before + [q]) == PairsOf(before) + {q.pair}
    ensures |PairsOf(before)| <= |PairsOf(before + [q])|
    ensures NeverStale(r, before + [q]) <==> NeverStale(r, before) && !(Matches(r, q) && Stale(r, q))
  {
    assert forall e :: e in before + [q] <==> e in before || e == q;
    assert PairsOf(before + [q]) == PairsOf(before) + {q.pair};
    SmallerSet(PairsOf(before), PairsOf(before + [q]));
  }

  lemma {:induction false} StaysHeld(h: seq<Reg>, r: Reg, later: seq<Reg>) returns (p: nat)
    requires r.pair !in PairsOf(later) && |PairsOf(later)| < MAX_REQ_NUM && NeverStale(r, later)
    ensures Held(Table(h + [r] + later), p, r, PairsOf(later))
    decreases |later|
  {
    if later == [] {
      assert h + [r] + later == h + [r];
      p := JustRefreshed(h, r);
    } else {
      var before, q := later[..|later| - 1], later[|later| - 1];
      assert later == before + [q] && h + [r] + later == h + [r] + before + [q];
      LastRequest(r, before, q);
      TableSnoc(h + [r] + before, q);
      p := StaysHeld(h, r, before);
      p := RefreshHolds(Table(h + [r] + before), p, r, PairsOf(before), q);
      p := DropHolds(Refresh(Table(h + [r] + before), q), p, r, PairsOf(later), q);
    }
  }

  lemma JustRefreshed(h: seq<Reg>, r: Reg) returns (p: nat)
    ensures Held(Table(h + [r]), p, r, {})
  {
    assert (h + [r])[..|h|] == h;
    TableIsBounded(h);
    TableIsBounded(h + [r]);
    RefreshKeeps(Table(h), r);
    var t := Refresh(Table(h), r);
    assert t[|t| - 1] == r;
    p := DropHolds(t, |t| - 1, r, {}, r);
  }

  /**
   While fewer than 256 other pairs have asked since, a registration is lost exactly if the other
   half came too late for it.
   */
  lemma LostOnlyAsStale(h: seq<Reg>, r: Reg, later: seq<Reg>)
    requires r.pair !in PairsOf(later) && |PairsOf(later)| < MAX_REQ_NUM
    ensures r in Table(h + [r] + later) <==> NeverStale(r, later)
  {
    if NeverStale(r, later) {
      var p := StaysHeld(h, r, later);
    } else {
      StaleIsGone(h + [r], r, later);
    }
  }

  lemma {:induction false} StaleIsGone(h: seq<Reg>, r: Reg, later: seq<Reg>)
    requires r.pair !in PairsOf(later) && !NeverStale(r, later)
    ensures r !in Table(h + later)
    decreases |later|
  {
    var before, q := later[..|later| - 1], later[|later| - 1];
    assert later == before + [q] && h + later == h + before + [q];
    LastRequest(r, before, q);
    TableSnoc(h + before, q);
    var t := Table(h + before);
    TableIsBounded(h + before);
    RefreshMembers(t, q);
    DropKeeps(Refresh(t, q), q);
    if !NeverStale(r, before) {
      StaleIsGone(h, r, before);
    }
  }

  lemma RefreshMembers(t: seq<Reg>, q: Reg)
    requires Distinct(t) && |t| <= MAX_REQ_NUM
    ensures Distinct(Refresh(t, q)) && forall e | e in Refresh(t, q) :: e in t || e == q
  {
    RefreshKeeps(t, q);
    WithoutKeeps(t, q.pair);
  }

  // ----- Answers -----

  /**
   The reply names the peer exactly if the table holds its half, not too old, and the request
   itself does not push that half out of a full table.  A user who asks for himself is his own peer.
   */
  lemma AnswerIff(t: seq<Reg>, r: Reg, addr: Addr)
    requires Distinct(t) && |t| <= MAX_REQ_NUM
    ensures Answer(t, r) == Some(addr) <==>
      if r.pair.src == r.pair.dst then addr == r.addr
      else exists m :: m in t && Matches(m, r) && !Stale(m, r) && m.addr == addr &&
                       !(|t| == MAX_REQ_NUM && m == t[0] && !Has(t, r.pair))
  {
    RefreshKeeps(t, r);
    var f := Refresh(t, r);
    if r.pair.src == r.pair.dst {
      MatchIsUnique(f, r, r);
    } else {
      forall m | Matches(m, r)
        ensures m in f <==> m in t && !(|t| == MAX_REQ_NUM && m == t[0] && !Has(t, r.pair))
      {
        RefreshOthers(t, r, m);
      }
      AnswerFromFound(t, r, addr);
    }
  }

  lemma RefreshOthers(t: seq<Reg>, r: Reg, m: Reg)
    requires Distinct(t) && |t| <= MAX_REQ_NUM && m.pair != r.pair
    ensures m in Refresh(t, r) <==> m in t && !(|t| == MAX_REQ_NUM && m == t[0] && !Has(t, r.pair))
  {
    RefreshKeeps(t, r);
    if |t| == MAX_REQ_NUM && !Has(t, r.pair) {
      CutMembers(t, 0);
      assert Cut(t, 0) == t[1..];
      if m in t && m.pair == t[0].pair {
        OnePerPair(t, m, t[0]);
      }
    } else {
      WithoutKeeps(t, r.pair);
    }
  }

  lemma AnswerFromFound(t: seq<Reg>, r: Reg, addr: Addr)
    requires Distinct(Refresh(t, r))
    ensures Answer(t, r) == Some(addr) <==>
      exists m :: m in Refresh(t, r) && Matches(m, r) && !Stale(m, r) && m.addr == addr
  {
    if m :| m in Refresh(t, r) && Matches(m, r) && !Stale(m, r) && m.addr == addr {
      MatchIsUnique(Refresh(t, r), m, r);
    }
  }

  ghost predicate TimesRise(h: seq<Reg>) {
    forall i, j | 0 <= i < j < |h| :: h[i].time <= h[j].time
  }

  /**
   The purpose of the server: when B asks for A within 60 seconds of A's latest request for B, under
   the same password, and fewer than 256 pairs other than A's have asked since (B's included), B is
   given A's address.
   */
  lemma Rendezvous(h: seq<Reg>, a: Reg, between: seq<Reg>, b: Reg)
    requires Matches(a, b) && !Stale(a, b) && a.pair != b.pair
    requires a.pair !in PairsOf(between) && |PairsOf(between + [b])| < MAX_REQ_NUM
    requires TimesRise(between + [b])
    ensures Answer(Table(h + [a] + between), b) == Some(a.addr)
  {
    var later := between + [b];
    forall q | q in between
      ensures !Stale(a, q)
    {
      var i :| 0 <= i < |between| && between[i] == q;
      assert later[i] == q && later[|between|] == b;
    }
    LastRequest(a, between, b);
    var t := Table(h + [a] + between);
    var p := StaysHeld(h, a, between);
    var p' := RefreshHolds(t, p, a, PairsOf(between), b);
    MatchIsUnique(Refresh(t, b), a, b);
  }

  // ----- No staleness: exactly the 256 most recent pairs -----

  ghost predicate NoneStale(t: seq<Reg>, r: Reg) {
    forall m | m in t && Matches(m, r) :: !Stale(m, r)
  }

  /** The 256 most recently refreshed pairs. */
  function Recent(h: seq<Reg>): seq<Reg> {
    LastOf(Seen(h), MAX_REQ_NUM)
  }

  /** Among the 256 most recent pairs, request `n` finds no other half that is too old for it. */
  ghost predicate OnTime(h: seq<Reg>, n: nat)
    requires n < |h|
  {
    NoneStale(Recent(h[..n + 1]), h[n])
  }

  /** No request finds the other half's latest registration, if among the 256 most recent pairs, too old. */
  ghost predicate AllOnTime(h: seq<Reg>) {
    forall n | 0 <= n < |h| :: OnTime(h, n)
  }

  lemma LastOfWithout(u: seq<Reg>, p: Pair, r: Reg)
    requires Distinct(u) && r.pair == p
    ensures LastOf(Without(LastOf(u, MAX_REQ_NUM), p) + [r], MAX_REQ_NUM) == LastOf(Without(u, p) + [r], MAX_REQ_NUM)
  {
    var t := LastOf(u, MAX_REQ_NUM);
    assert Suffix(t, u);
    SuffixWithout(t, u, p);
    assert Suffix(Without(t, p) + [r], Without(u, p) + [r]);
    assert Distinct(t);
    WithoutKeeps(t, p);
    WithoutKeeps(u, p);
  }

  lemma NothingDropped(t: seq<Reg>, r: Reg)
    requires Distinct(t)
    ensures DropStale(t, r) == t <==> NoneStale(t, r)
  {
    DropKeeps(t, r);
    if m :| m in t && Matches(m, r) && Stale(m, r) {
      assert m !in DropStale(t, r);
    } else if FindMatch(t, r).Some? {
      assert !Stale(FindMatch(t, r).value, r);
    }
  }

  /** One request more: a table of the most recent pairs stays one exactly if nothing in it is too old. */
  lemma RecentStep(h: seq<Reg>, r: Reg)
    requires Table(h) == Recent(h)
    ensures Table(h + [r]) == Recent(h + [r]) <==> NoneStale(Recent(h + [r]), r)
  {
    TableSnoc(h, r);
    SeenTracks(h);
    TableIsBounded(h);
    LastOfWithout(Seen(h), r.pair, r);
    RefreshKeeps(Table(h), r);
    NothingDropped(Refresh(Table(h), r), r);
  }

  /** Up to request `n` the table has always been that of the most recent pairs. */
  ghost predicate RecentUpTo(h: seq<Reg>, n: nat)
    requires n <= |h|
  {
    forall k | 0 <= k <= n :: Table(h[..k]) == Recent(h[..k])
  }

  lemma RecentOneMore(h: seq<Reg>, n: nat)
    requires n < |h|
    ensures RecentUpTo(h, n + 1) <==> RecentUpTo(h, n) && Table(h[..n + 1]) == Recent(h[..n + 1])
  {
  }

  lemma OnTimeStep(h: seq<Reg>, n: nat)
    requires n < |h| && Table(h[..n]) == Recent(h[..n])
    ensures Table(h[..n + 1]) == Recent(h[..n + 1]) <==> OnTime(h, n)
  {
    assert h[..n + 1] == h[..n] + [h[n]];
    RecentStep(h[..n], h[n]);
  }

  lemma {:induction false} RecentIff(h: seq<Reg>, n: nat)
    requires n <= |h|
    ensures RecentUpTo(h, n) <==> forall k | 0 <= k < n :: OnTime(h, k)
  {
    if n == 0 {
      assert h[..0] == [];
    } else {
      var m: nat := n - 1;
      RecentIff(h, m);
      RecentOneMore(h, m);
      if RecentUpTo(h, m) {
        assert Table(h[..m]) == Recent(h[..m]);
        OnTimeStep(h, m);
      }
    }
  }

  /**
   The table is the 256 most recently refreshed pairs throughout the history exactly if no request
   finds the other half too old among them.
   */
  lemma TableIsLruIff(h: seq<Reg>)
    ensures AllOnTime(h) <==> forall k | 0 <= k <= |h| :: Table(h[..k]) == Recent(h[..k])
  {
    RecentIff(h, |h|);
  }

  /** The table at the end of such a history, however long. */
  lemma TableIsLru(h: seq<Reg>)
    requires AllOnTime(h)
    ensures Table(h) == Recent(h)
  {
    TableIsLruIff(h);
    assert h[..|h|] == h;
  }

  /** Requests of different pairs are all remembered, in the order they came. */
  lemma {:induction false} SeenDistinct(h: seq<Reg>)
    requires Distinct(h)
    ensures Seen(h) == h
  {
    if h == [] {
    } else {
      var h', r := h[..|h| - 1], h[|h| - 1];
      SeenDistinct(h');
      WithoutNone(h', r.pair);
    }
  }

  /** The bound of `Rendezvous` is sharp: 255 other pairs in between are one too many. */
  lemma CrowdedOut(a: Reg, between: seq<Reg>, b: Reg)
    requires Matches(a, b) && |between| == MAX_REQ_NUM - 1
    requires Distinct([a] + between + [b]) && AllOnTime([a] + between)
    ensures Answer(Table([a] + between), b) == None
  {
    var h, t := [a] + between + [b], [a] + between;
    assert t == h[..|h| - 1] && h[|h| - 1] == b && h[0] == a;
    SeenDistinct(t);
    TableIsLru(t);
    assert Table(t) == t;
    PushedOut(t, a, b);
  }

  lemma PushedOut(t: seq<Reg>, a: Reg, b: Reg)
    requires |t| == MAX_REQ_NUM && t[0] == a && Distinct(t + [b]) && Matches(a, b)
    ensures Answer(t, b) == None
  {
    assert forall i | 0 <= i < |t| :: (t + [b])[i] == t[i] && (t + [b])[|t|] == b;
    assert !Has(t, b.pair);
    RefreshKeeps(t, b);
    forall m | m in t[1..] + [b]
      ensures !Matches(m, b)
    {
      if m != b {
        var i: nat :| i < |t[1..]| && t[1..][i] == m;
        assert m == t[i + 1] && t[i + 1].pair != t[0].pair;
      }
    }
  }
}
