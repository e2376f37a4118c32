/**
 The two counters of the table that can go round, and the ids that can run out.

 The 16-bit id counter comes to 0 in a table that is only added to and deleted from, the 32-bit
 reference count comes to 0 in a table that is only searched, and in a table that is only added to
 the search for an id finds none.
 */
module TabWraps {
  import opened Common
  import opened TabBase
  import opened TabHistory
  import opened TabRuns
  import opened TabXxx
  import TabSteps

  lemma InitQuiet(cap: nat)
    ensures Quiet(TabSteps.Init(cap, 1)) && TabSteps.Roomy(TabSteps.Init(cap, 1))
  {
    TabSteps.InitInv(cap, 1);
  }

  lemma RunGoesOn(cap: nat, moves: seq<TabSteps.Move>, s: TabSteps.State, call: TabSteps.Call, s': TabSteps.State)
    returns (moves': seq<TabSteps.Move>)
    requires TabSteps.IsRun(cap, 1, moves, s) && Solo(s, call, s')
    ensures TabSteps.IsRun(cap, 1, moves', s')
  {
    SoloReaches(s, call, s');
    var more :| TabSteps.Reaches(s, more, s');
    TabSteps.ReachesConcat(TabSteps.Init(cap, 1), moves, s, more, s');
    moves' := moves + more;
  }

  // ----- Ids -----

  /** Nothing in the table and no handle out, after `n` ids have been handed out. */
  ghost predicate Emptied(s: TabSteps.State, n: nat) {
    && Quiet(s) && s.all == [] && s.handles == multiset{} && s.free != []
    && s.nextId == (1 + n) % ID_SPACE
  }

  lemma FirstIsNext(next: nat)
    requires next < ID_SPACE && HasFreeId({})
    ensures FirstFreeId({}, next) == next
  {
    FreeIdHasDistance({}, next);
    assert IdAt(next, 0) !in {} && FreeDistance({}, next, 0) == 0;
  }

  lemma EmptiedFacts(s: TabSteps.State, n: nat, k: Key)
    requires Emptied(s, n)
    ensures TabSteps.WellFormed(s) && TabSteps.Roomy(s) && CanEnd(s, k)
    ensures FindKey(s.keyTab[KeyHash(k)], s.rec, k).None?
    ensures InArena(s.all, |s.rec|) && Ids(s.rec, s.all) == {} && s.free[0] < |s.rec| == |s.ref|
  {
    QuietFacts(s);
    assert s.free[0] in s.free;
  }

  /** What an add to the empty table does. */
  lemma AddToEmptied(s: TabSteps.State, n: nat, k: Key, v: nat) returns (s': TabSteps.State)
    requires Emptied(s, n) && CanEnd(s, k)
    ensures AddSpec(s, k, v) == (s', Ok((1 + n) % ID_SPACE))
    ensures Quiet(s') && Solo(s, TabSteps.Add(k, v), s') && TabSteps.WellFormed(s')
    ensures HoldsOnly(s', s.free[0], k) && s'.rec[s.free[0]].id == (1 + n) % ID_SPACE && s'.nextId == (2 + n) % ID_SPACE
  {
    EmptiedFacts(s, n, k);
    var used;
    s', used := AddFields(s, k, v);
    FirstIsNext(s.nextId);
    NextTwo(n);
  }

  lemma NextTwo(n: nat)
    ensures BumpId((1 + n) % ID_SPACE) == (2 + n) % ID_SPACE
  {
  }

  /** One entry in the table, and no handle out. */
  ghost predicate HoldsOnly(s: TabSteps.State, b: Buf, k: Key) {
    b < |s.ref| && b < |s.rec| && s.ref[b] == 1 && s.all == [b] && s.handles == multiset{} && s.rec[b].key == k
  }

  lemma DelOnly(s: TabSteps.State, k: Key, b: Buf) returns (s': TabSteps.State)
    requires Quiet(s) && TabSteps.WellFormed(s) && HoldsOnly(s, b, k)
    ensures Quiet(s') && Solo(s, TabSteps.Del(k), s')
    ensures s'.all == [] && s'.handles == multiset{} && s'.free != [] && s'.nextId == s.nextId
  {
    QuietFacts(s);
    var f := FindKey(s.keyTab[KeyHash(k)], s.rec, k);
    assert b in s.all && f == Some(b);
    s' := DelFields(s, k, b);
  }

  lemma OneRound(s: TabSteps.State, n: nat, k: Key, v: nat) returns (added: TabSteps.State, s': TabSteps.State)
    requires Emptied(s, n)
    ensures Solo(s, TabSteps.Add(k, v), added) && Solo(added, TabSteps.Del(k), s') && Emptied(s', n + 1)
  {
    EmptiedFacts(s, n, k);
    added := AddToEmptied(s, n, k, v);
    s' := DelOnly(added, k, s.free[0]);
  }

  lemma {:induction false} Rounds(cap: nat, k: Key, v: nat, n: nat)
    returns (moves: seq<TabSteps.Move>, s: TabSteps.State)
    requires cap > 0
    ensures TabSteps.IsRun(cap, 1, moves, s) && Emptied(s, n)
    decreases n
  {
    if n == 0 {
      InitQuiet(cap);
      moves, s := [], TabSteps.Init(cap, 1);
      assert s.free[0] == 0;
    } else {
      var ms, before := Rounds(cap, k, v, n - 1);
      var added;
      added, s := OneRound(before, n - 1, k, v);
      moves := RunGoesOn(cap, ms, before, TabSteps.Add(k, v), added);
      moves := RunGoesOn(cap, moves, added, TabSteps.Del(k), s);
    }
  }

  /** After `n` rounds of adding and deleting one entry the next add hands out `1 + n`, in 16 bits. */
  lemma IdAfterRounds(cap: nat, k: Key, v: nat, n: nat) returns (moves: seq<TabSteps.Move>, s: TabSteps.State)
    requires cap > 0
    ensures TabSteps.IsRun(cap, 1, moves, s) && Quiet(s) && CanEnd(s, k)
    ensures AddSpec(s, k, v).1 == Ok((1 + n) % ID_SPACE)
  {
    moves, s := Rounds(cap, k, v, n);
    EmptiedFacts(s, n, k);
    var last := AddToEmptied(s, n, k, v);
  }

  /** So after 65535 rounds an add hands out id 0, in a table of any size. */
  lemma IdZeroHappens(cap: nat, k: Key, v: nat) returns (moves: seq<TabSteps.Move>, s: TabSteps.State)
    requires cap > 0
    ensures TabSteps.IsRun(cap, 1, moves, s) && Quiet(s) && CanEnd(s, k) && AddSpec(s, k, v).1 == Ok(0)
  {
    moves, s := IdAfterRounds(cap, k, v, ID_SPACE - 1);
  }

  // ----- All ids taken -----

  /** `n` entries with the keys (0, 0, 0) to (0, 0, n - 1), no handle out, and the other buffers free. */
  ghost predicate Filled(s: TabSteps.State, n: nat, cap: nat) {
    && Quiet(s) && |s.all| == n <= cap && |s.free| == cap - n && s.handles == multiset{}
    && forall b | b in s.all :: b < |s.rec| && KeyBelow(s.rec[b].key, n)
  }

  predicate KeyBelow(k: Key, n: nat) {
    k.a == 0 && k.b == 0 && k.c < n
  }

  lemma NextKeyIsNew(s: TabSteps.State, n: nat, cap: nat)
    requires Filled(s, n, cap)
    ensures TabSteps.WellFormed(s) && TabSteps.Roomy(s)
    ensures FindKey(s.keyTab[KeyHash(Key(0, 0, n))], s.rec, Key(0, 0, n)).None?
  {
    QuietFacts(s);
  }

  lemma FillOneMore(s: TabSteps.State, n: nat, cap: nat) returns (s': TabSteps.State)
    requires Filled(s, n, cap) && n < cap && n < ID_SPACE
    ensures Solo(s, TabSteps.Add(Key(0, 0, n), 0), s') && Filled(s', n + 1, cap)
  {
    NextKeyIsNew(s, n, cap);
    var used;
    s', used := AddFields(s, Key(0, 0, n), 0);
    var b := s.free[0];
    assert b in s.free;
    QuietRef(s, b);
    forall c | c in s'.all
      ensures c < |s'.rec| && KeyBelow(s'.rec[c].key, n + 1)
    {
      assert c == b || c in s.all;
    }
  }

  lemma {:induction false} Filling(cap: nat, n: nat) returns (moves: seq<TabSteps.Move>, s: TabSteps.State)
    requires n <= cap && n <= ID_SPACE
    ensures TabSteps.IsRun(cap, 1, moves, s) && Filled(s, n, cap)
    decreases n
  {
    if n == 0 {
      InitQuiet(cap);
      moves, s := [], TabSteps.Init(cap, 1);
    } else {
      var ms, before := Filling(cap, n - 1);
      s := FillOneMore(before, n - 1, cap);
      moves := RunGoesOn(cap, ms, before, TabSteps.Add(Key(0, 0, n - 1), 0), s);
    }
  }

  /** In a table made for more than 65536 entries, 65536 adds lead to one that does not return. */
  lemma FullTableSpins(cap: nat, v: nat) returns (moves: seq<TabSteps.Move>, s: TabSteps.State)
    requires cap > ID_SPACE
    ensures TabSteps.IsRun(cap, 1, moves, s) && Quiet(s) && |s.all| == ID_SPACE && s.free != []
    ensures forall s' :: !Solo(s, TabSteps.Add(Key(0, 0, ID_SPACE), v), s')
  {
    moves, s := Filling(cap, ID_SPACE);
    NextKeyIsNew(s, ID_SPACE, cap);
    AddEndsIff(s, Key(0, 0, ID_SPACE), v);
  }

  // ----- Reference counts -----

  /** The same table with `n` handles on entry `b` out. */
  ghost function WithHandles(s: TabSteps.State, b: Buf, n: nat): TabSteps.State
    requires b < |s.ref|
  {
    s.(ref := s.ref[b := 1 + n], handles := multiset{}[b := n])
  }

  /** The call is a lookup that finds entry `b`. */
  ghost predicate Finds(s: TabSteps.State, call: TabSteps.Call, b: Buf)
    requires TabSteps.WellFormed(s)
  {
    match call
    case GetByKey(k) => FindKey(s.keyTab[KeyHash(k)], s.rec, k) == Some(b)
    case GetById(id) => FindId(s.idTab[IdHash(id)], s.rec, id) == Some(b)
    case _ => false
  }

  lemma OneLookup(s: TabSteps.State, call: TabSteps.Call, b: Buf, n: nat)
    requires b < |s.ref| && Quiet(WithHandles(s, b, n)) && n < UINT32 - 2
    requires TabSteps.WellFormed(s) && Finds(s, call, b)
    ensures Quiet(WithHandles(s, b, n + 1)) && Solo(WithHandles(s, b, n), call, WithHandles(s, b, n + 1))
  {
    var t := WithHandles(s, b, n);
    OneMoreHandle(s, b, n);
    if call.GetByKey? {
      GetByKeyRuns(t, call.key);
    } else {
      GetByIdRuns(t, call.id);
    }
  }

  lemma OneMoreHandle(s: TabSteps.State, b: Buf, n: nat)
    requires b < |s.ref| && n < UINT32 - 2
    ensures TabSteps.Inc(WithHandles(s, b, n), b) == WithHandles(s, b, n + 1)
  {
  }

  lemma {:induction false} ManyLookups(cap: nat, moves: seq<TabSteps.Move>, s: TabSteps.State, call: TabSteps.Call,
                                       b: Buf, n: nat) returns (moves': seq<TabSteps.Move>)
    requires TabSteps.IsRun(cap, 1, moves, s) && Quiet(s) && b < |s.ref| && s.ref[b] == 1 && s.handles == multiset{}
    requires TabSteps.WellFormed(s) && Finds(s, call, b) && n <= UINT32 - 2
    ensures Quiet(WithHandles(s, b, n)) && TabSteps.IsRun(cap, 1, moves', WithHandles(s, b, n))
    decreases n
  {
    if n == 0 {
      assert WithHandles(s, b, 0) == s;
      moves' := moves;
    } else {
      moves' := ManyLookups(cap, moves, s, call, b, n - 1);
      OneLookup(s, call, b, n - 1);
      moves' := RunGoesOn(cap, moves', WithHandles(s, b, n - 1), call, WithHandles(s, b, n));
    }
  }

  /** A lookup that finds something holds its line after the first step. */
  lemma LookupFinds(s: TabSteps.State, call: TabSteps.Call, b: Buf)
    requires Quiet(s) && TabSteps.WellFormed(s) && Finds(s, call, b)
    ensures var s1 := TabSteps.Next(s, TabSteps.Move(0, call));
      && TabSteps.Inv(s1) && |s1.pcs| == 1 && (s1.pcs[0].GetKeyFound? || s1.pcs[0].GetIdFound?) && s1.pcs[0].b == b
      && s1.handles == s.handles && s1.all == s.all && s1.addDel == None
  {
    match call {
      case GetByKey(k) => TabSteps.StepFindKey(s, 0, KeyHash(k), b);
      case GetById(id) => TabSteps.StepFindId(s, 0, IdHash(id), b);
      case _ =>
    }
  }

  /**
   After one add and 2^32 - 2 lookups, by key or by id, one lookup more leaves the entry in the table
   with a count of 0.
   */
  lemma WrapHappens(cap: nat, k: Key, v: nat, byId: bool)
    returns (moves: seq<TabSteps.Move>, s: TabSteps.State, s': TabSteps.State, b: Buf)
    requires cap > 0
    ensures var m := TabSteps.Move(0, if byId then TabSteps.GetById(1) else TabSteps.GetByKey(k));
      TabSteps.IsRun(cap, 1, moves, s) && s' == TabSteps.Next(TabSteps.Next(s, m), m)
    ensures b in s'.all && b < |s'.ref| && s'.ref[b] == 0 && s.handles[b] == UINT32 - 2 && !TabSteps.Inv(s')
  {
    InitQuiet(cap);
    var s0, call := TabSteps.Init(cap, 1), if byId then TabSteps.GetById(1) else TabSteps.GetByKey(k);
    assert s0.free[0] == 0;
    b := s0.free[0];
    EmptiedFacts(s0, 0, k);
    var s1 := AddToEmptied(s0, 0, k, v);
    var ms := RunGoesOn(cap, [], s0, TabSteps.Add(k, v), s1);
    OnlyIsFound(s1, b);
    moves := ManyLookups(cap, ms, s1, call, b, UINT32 - 2);
    s := WithHandles(s1, b, UINT32 - 2);
    s' := WrapsNow(s, call, b);
  }

  lemma OnlyIsFound(s: TabSteps.State, b: Buf)
    requires Quiet(s) && TabSteps.WellFormed(s) && s.all == [b] && b < |s.rec|
    ensures Finds(s, TabSteps.GetByKey(s.rec[b].key), b) && Finds(s, TabSteps.GetById(s.rec[b].id), b)
  {
    QuietFacts(s);
    assert b in s.all;
  }

  lemma WrapsNow(s: TabSteps.State, call: TabSteps.Call, b: Buf) returns (s': TabSteps.State)
    requires Quiet(s) && TabSteps.WellFormed(s) && Finds(s, call, b) && s.handles[b] == UINT32 - 2
    ensures s' == TabSteps.Next(TabSteps.Next(s, TabSteps.Move(0, call)), TabSteps.Move(0, call))
    ensures b in s'.all && b < |s'.ref| && s'.ref[b] == 0 && !TabSteps.Inv(s')
  {
    LookupFinds(s, call, b);
    var s1 := TabSteps.Next(s, TabSteps.Move(0, call));
    TabSteps.CountWraps(s1, 0, b, call);
    s' := TabSteps.Next(s1, TabSteps.Move(0, call));
    assert TabSteps.Holder(s') == TabSteps.Idle;
  }
}
