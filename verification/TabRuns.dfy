/**
 Calls of a single thread as runs of the step machine.

 For each call a function gives its whole effect, and a lemma shows that the machine, moved by
 this thread alone, gets there.

 The search for a free id is part of an add: it goes round the ids from the counter on, and how
 far it goes is what makes its loop end.
 */
module TabRuns {
  import opened Common
  import opened TabBase
  import TabSteps

  datatype Errno = EEXIST | ENOMEM | ESRCH

  /** A negative return and its errno, or a value. */
  datatype Result<+T> = Ok(value: T) | Err(errno: Errno)

  // ----- Ids -----

  ghost predicate HasFreeId(used: set<nat>) {
    exists id: nat :: id < ID_SPACE && id !in used
  }

  /** The id `d` places after `next` in the cyclic order of a 16-bit counter. */
  function IdAt(next: nat, d: nat): (r: nat)
    requires next < ID_SPACE && d < ID_SPACE
    ensures r < ID_SPACE
  {
    if next + d < ID_SPACE then next + d else next + d - ID_SPACE
  }

  lemma BumpIsNext(next: nat, d: nat)
    requires next < ID_SPACE && d + 1 < ID_SPACE
    ensures BumpId(IdAt(next, d)) == IdAt(next, d + 1) == IdAt(BumpId(next), d)
  {
  }

  /** How far the search for a free id goes, starting at distance `d`. */
  ghost function FreeDistance(used: set<nat>, next: nat, d: nat): (r: nat)
    requires next < ID_SPACE && d < ID_SPACE
    requires exists e :: d <= e < ID_SPACE && IdAt(next, e) !in used
    ensures d <= r < ID_SPACE && IdAt(next, r) !in used
    ensures forall e | d <= e < r :: IdAt(next, e) in used
    decreases ID_SPACE - d
  {
    if IdAt(next, d) !in used then d
    else
      var e :| d <= e < ID_SPACE && IdAt(next, e) !in used;
      assert e != d;
      FreeDistance(used, next, d + 1)
  }

  lemma FreeIdHasDistance(used: set<nat>, next: nat)
    requires next < ID_SPACE && HasFreeId(used)
    ensures exists e :: 0 <= e < ID_SPACE && IdAt(next, e) !in used
  {
    var id: nat :| id < ID_SPACE && id !in used;
    var e := if id >= next then id - next else id + ID_SPACE - next;
    assert IdAt(next, e) == id;
  }

  /** The first id at or after `next`, going round, that is not in use. */
  ghost function FirstFreeId(used: set<nat>, next: nat): (r: nat)
    requires next < ID_SPACE && HasFreeId(used)
    ensures r < ID_SPACE && r !in used
  {
    FreeIdHasDistance(used, next);
    IdAt(next, FreeDistance(used, next, 0))
  }

  /**
   The header promises ids from 1 on, but the counter wraps through 0.  Id 0 is handed out
   exactly when it is unused and every id from `next` up to 65535 is taken.
   */
  lemma IdZeroIffWrapped(used: set<nat>, next: nat)
    requires next < ID_SPACE && HasFreeId(used)
    ensures FirstFreeId(used, next) == 0 <==>
      0 !in used && (next == 0 || forall id | next <= id < ID_SPACE :: id in used)
  {
    FreeIdHasDistance(used, next);
    var d := FreeDistance(used, next, 0);
    if next != 0 && FirstFreeId(used, next) == 0 {
      assert d == ID_SPACE - next;
      forall id | next <= id < ID_SPACE
        ensures id in used
      {
        assert IdAt(next, id - next) == id;
      }
    }
    if 0 !in used && next != 0 && (forall id | next <= id < ID_SPACE :: id in used) {
      assert IdAt(next, ID_SPACE - next) == 0;
      forall e | 0 <= e < ID_SPACE - next
        ensures IdAt(next, e) in used
      {
        assert IdAt(next, e) == next + e;
      }
    }
    if 0 !in used && next == 0 {
      assert IdAt(0, 0) == 0;
    }
  }

  // ----- Runs of the step machine by one thread -----

  /** Thread 0 alone makes `n` steps of this call, which is not over before the last of them. */
  ghost predicate Steps(s: TabSteps.State, call: TabSteps.Call, n: nat, s': TabSteps.State)
    decreases n
  {
    if n == 0 then s' == s
    else
      var next := TabSteps.Next(s, TabSteps.Move(0, call));
      TabSteps.Roomy(s) && (n > 1 ==> next.pcs != [TabSteps.Idle]) && Steps(next, call, n - 1, s')
  }

  /** Thread 0 alone has begun this call in `s` and is now at `s'`. */
  ghost predicate Under(s: TabSteps.State, call: TabSteps.Call, s': TabSteps.State) {
    exists n: nat :: n > 0 && Steps(s, call, n, s')
  }

  /** Thread 0 alone, making this call from its first step to its return, gets from `s` to `s'`. */
  ghost predicate Solo(s: TabSteps.State, call: TabSteps.Call, s': TabSteps.State) {
    Under(s, call, s') && s'.pcs == [TabSteps.Idle]
  }

  lemma {:induction false} StepsOneMore(s: TabSteps.State, call: TabSteps.Call, n: nat, s': TabSteps.State)
    requires Steps(s, call, n, s') && TabSteps.Roomy(s') && (n > 0 ==> s'.pcs != [TabSteps.Idle])
    ensures Steps(s, call, n + 1, TabSteps.Next(s', TabSteps.Move(0, call)))
    decreases n
  {
    if n == 0 {
    } else {
      StepsOneMore(TabSteps.Next(s, TabSteps.Move(0, call)), call, n - 1, s');
    }
  }

  /** Steps of one thread are a schedule. */
  lemma {:induction false} StepsReach(s: TabSteps.State, call: TabSteps.Call, n: nat, s': TabSteps.State)
    requires Steps(s, call, n, s')
    ensures TabSteps.Reaches(s, seq(n, _ => TabSteps.Move(0, call)), s')
    decreases n
  {
    if n == 0 {
    } else {
      var m := TabSteps.Move(0, call);
      var moves := seq(n, _ => m);
      assert moves[0] == m && moves[1..] == seq(n - 1, _ => m);
      StepsReach(TabSteps.Next(s, m), call, n - 1, s');
    }
  }

  lemma SoloReaches(s: TabSteps.State, call: TabSteps.Call, s': TabSteps.State)
    requires Solo(s, call, s')
    ensures exists moves :: TabSteps.Reaches(s, moves, s')
  {
    var n: nat :| n > 0 && Steps(s, call, n, s');
    StepsReach(s, call, n, s');
  }

  /** Where the call may make its next step: before its first one, or inside. */
  ghost predicate MayGoOn(s0: TabSteps.State, call: TabSteps.Call, s: TabSteps.State) {
    if s.pcs == [TabSteps.Idle] then s == s0 else Under(s0, call, s)
  }

  /** One more step of the run, which keeps the invariant. */
  lemma Advance(s0: TabSteps.State, call: TabSteps.Call, s: TabSteps.State) returns (s': TabSteps.State)
    requires MayGoOn(s0, call, s) && TabSteps.Roomy(s) && TabSteps.Inv(s) && |s.pcs| == 1
    requires TabSteps.PcInArena(s.pcs[0], |s.rec|) && TabSteps.Step(s, 0, call).Some?
    ensures s' == TabSteps.Step(s, 0, call).value
    ensures Under(s0, call, s') && TabSteps.Inv(s')
  {
    s' := TabSteps.Step(s, 0, call).value;
    assert s' == TabSteps.Next(s, TabSteps.Move(0, call));
    GoesOn(s0, call, s);
    TabSteps.StepKeepsInv(s, 0, call);
  }

  lemma GoesOn(s0: TabSteps.State, call: TabSteps.Call, s: TabSteps.State)
    requires MayGoOn(s0, call, s) && TabSteps.Roomy(s)
    ensures Under(s0, call, TabSteps.Next(s, TabSteps.Move(0, call)))
  {
    var n: nat := 0;
    if s.pcs != [TabSteps.Idle] {
      n :| n > 0 && Steps(s0, call, n, s);
    }
    StepsOneMore(s0, call, n, s);
  }

  /** The ids in use. */
  ghost function Ids(rec: seq<Rec>, all: seq<Buf>): set<nat>
    requires InArena(all, |rec|)
  {
    set b | b in all :: rec[b].id
  }

  /** Fewer than 65536 entries leave an id free; with ids all distinct, 65536 entries do not. */
  lemma FreeIdIffRoom(rec: seq<Rec>, all: seq<Buf>)
    requires InArena(all, |rec|) && NoDup(all)
    requires forall b | b in all :: rec[b].id < ID_SPACE
    requires forall b, c | b in all && c in all && b != c :: rec[b].id != rec[c].id
    ensures HasFreeId(Ids(rec, all)) <==> |all| < ID_SPACE
  {
    var ids: seq<nat> := seq<nat>(|all|, i requires 0 <= i < |all| => assert all[i] in all; rec[all[i]].id);
    forall i, j | 0 <= i < j < |all|
      ensures ids[i] != ids[j]
    {
      assert all[i] in all && all[j] in all && all[i] != all[j];
    }
    forall x | x in ids
      ensures x < ID_SPACE && x in Ids(rec, all)
    {
      var i :| 0 <= i < |ids| && ids[i] == x;
      assert all[i] in all;
    }
    forall x | x in Ids(rec, all)
      ensures x in ids
    {
      var b :| b in all && rec[b].id == x;
      var i :| 0 <= i < |all| && all[i] == b;
      assert ids[i] == x;
    }
    NoDupBound(ids, ID_SPACE);
    if |all| < ID_SPACE {
      MissingBelow(ids, ID_SPACE);
    }
  }

  /** Fewer than n numbers leave one below n out. */
  lemma {:induction false} MissingBelow(l: seq<nat>, n: nat)
    requires |l| < n
    ensures exists x: nat :: x < n && x !in l
    decreases n
  {
    if (n - 1) !in l {
    } else {
      var rest := Remove<nat>(l, n - 1);
      RemoveShortens<nat>(l, n - 1);
      MissingBelow(rest, n - 1);
      var x: nat :| x < n - 1 && x !in rest;
      assert x !in l;
    }
  }

  lemma {:induction false} RemoveShortens<T>(l: seq<T>, x: T)
    requires x in l
    ensures |Remove(l, x)| == |l| - 1
  {
    if l[0] == x {
    } else {
      RemoveShortens(l[1..], x);
    }
  }

  lemma SkipId(l: seq<Buf>, rec: seq<Rec>, id: nat)
    requires InArena(l, |rec|) && l != []
    ensures l[0] < |rec| && InArena(l[1..], |rec|)
    ensures FindId(l, rec, id) == if rec[l[0]].id == id then Some(l[0]) else FindId(l[1..], rec, id)
  {
    assert l[0] in l && forall b | b in l[1..] :: b in l;
  }

  lemma SkipKey(l: seq<Buf>, rec: seq<Rec>, k: Key)
    requires InArena(l, |rec|) && l != []
    ensures l[0] < |rec| && InArena(l[1..], |rec|)
    ensures FindKey(l, rec, k) == if rec[l[0]].key == k then Some(l[0]) else FindKey(l[1..], rec, k)
  {
    assert l[0] in l && forall b | b in l[1..] :: b in l;
  }

  /** Searching a line for an id is asking whether the id is in use. */
  lemma LookupId(s: TabSteps.State, id: nat)
    requires TabSteps.Inv(s) && (TabSteps.Holder(s).AddGenId? || TabSteps.Holder(s).Idle?)
    ensures FindId(s.idTab[IdHash(id)], s.rec, id).Some? <==> id in Ids(s.rec, s.all)
  {
    var l := s.idTab[IdHash(id)];
    if FindId(l, s.rec, id).Some? {
      assert FindId(l, s.rec, id).value in TabSteps.AllSet(s.all);
    }
    if id in Ids(s.rec, s.all) {
      var b :| b in s.all && s.rec[b].id == id;
      assert b in TabSteps.AllSet(s.all);
      assert IdLines(s.rec)[b] == IdHash(id);
    }
  }

  /** The id lists answer whether an id is in use. */
  ghost predicate Answers(idTab: seq<seq<Buf>>, rec: seq<Rec>, used: set<nat>) {
    && |idTab| == MAX_HASH_LINE_NUM
    && (forall l | 0 <= l < MAX_HASH_LINE_NUM :: InArena(idTab[l], |rec|))
    && (forall id: nat :: FindId(idTab[IdHash(id)], rec, id).Some? <==> id in used)
  }

  lemma ScanAnswers(s: TabSteps.State)
    requires TabSteps.Inv(s) && (TabSteps.Holder(s).AddGenId? || TabSteps.Holder(s).Idle?)
    ensures s.nextId < ID_SPACE && InArena(s.all, |s.rec|) && Answers(s.idTab, s.rec, Ids(s.rec, s.all))
  {
    forall id: nat
      ensures FindId(s.idTab[IdHash(id)], s.rec, id).Some? <==> id in Ids(s.rec, s.all)
    {
      LookupId(s, id);
    }
  }

  // ----- Whole calls -----

  /** Between two calls of the only thread. */
  ghost predicate Quiet(s: TabSteps.State) {
    && TabSteps.Inv(s) && s.pcs == [TabSteps.Idle]
    && s.addDel == None && s.idLocks == map[] && s.keyLocks == map[]
  }

  /** Inside a call of the only thread. */
  ghost predicate Inside(s0: TabSteps.State, call: TabSteps.Call, s: TabSteps.State, pc: TabSteps.Pc) {
    && TabSteps.Inv(s) && TabSteps.Roomy(s) && MayGoOn(s0, call, s) && s.pcs == [pc]
    && s.idLocks == map[] && s.keyLocks == map[]
  }

  lemma InsideFits(s0: TabSteps.State, call: TabSteps.Call, s: TabSteps.State, pc: TabSteps.Pc)
    requires Inside(s0, call, s, pc)
    ensures TabSteps.WellFormed(s) && TabSteps.PcInArena(pc, |s.rec|)
  {
    TabSteps.PcFits(s, 0);
  }

  lemma StepInside(s0: TabSteps.State, call: TabSteps.Call, s: TabSteps.State, pc: TabSteps.Pc,
                   s': TabSteps.State, pc': TabSteps.Pc)
    requires Inside(s0, call, s, pc)
    requires TabSteps.WellFormed(s) && TabSteps.PcInArena(pc, |s.rec|)
    requires [pc][0 := pc'] == [pc'] ==> TabSteps.Step(s, 0, call) == Some(s')
    requires s'.pcs == [pc'] && s'.handles == s.handles && s'.idLocks == map[] && s'.keyLocks == map[] && !pc'.Idle?
    ensures Inside(s0, call, s', pc')
    ensures TabSteps.WellFormed(s') && TabSteps.PcInArena(pc', |s'.rec|)
  {
    var r := Advance(s0, call, s);
    InsideFits(s0, call, s', pc');
  }

  /** Between calls, room in the id space is a free id. */
  lemma RoomForId(s: TabSteps.State)
    requires Quiet(s)
    ensures TabSteps.WellFormed(s) && s.nextId < ID_SPACE
    ensures HasFreeId(Ids(s.rec, s.all)) <==> |s.all| < ID_SPACE
  {
    assert forall b | b in s.all :: b in TabSteps.AllSet(s.all);
    FreeIdIffRoom(s.rec, s.all);
  }

  /** An add that gets as far as asking for an id needs one that is unused, or it would search for ever. */
  ghost predicate CanEnd(s: TabSteps.State, k: Key)
    requires TabSteps.WellFormed(s)
  {
    FindKey(s.keyTab[KeyHash(k)], s.rec, k).Some? || s.free == [] || |s.all| < ID_SPACE
  }

  /** What one add does, as a whole. */
  ghost function AddSpec(s: TabSteps.State, k: Key, v: nat): (r: (TabSteps.State, Result<nat>))
    requires Quiet(s) && CanEnd(s, k)
  {
    RoomForId(s);
    if FindKey(s.keyTab[KeyHash(k)], s.rec, k).Some? then (s, Err(EEXIST))
    else if s.free == [] then (s, Err(ENOMEM))
    else
      assert s.free[0] in s.free;
      var b, id := s.free[0], FirstFreeId(Ids(s.rec, s.all), s.nextId);
      (s.(free := s.free[1..],
          rec := s.rec[b := Rec(id, k, v)],
          ref := s.ref[b := 1],
          idTab := s.idTab[IdHash(id) := [b] + s.idTab[IdHash(id)]],
          keyTab := s.keyTab[KeyHash(k) := [b] + s.keyTab[KeyHash(k)]],
          all := [b] + s.all,
          num := s.num + 1,
          nextId := BumpId(id)),
       Ok(id))
  }

  lemma AddBegins(s: TabSteps.State, k: Key, v: nat) returns (s2: TabSteps.State)
    requires Quiet(s) && TabSteps.Roomy(s)
    ensures s2 == s.(addDel := Some(0), pcs := [if FindKey(s.keyTab[KeyHash(k)], s.rec, k).Some?
                                                then TabSteps.Unlock else TabSteps.AddAlloc(k, v)])
    ensures Inside(s, TabSteps.Add(k, v), s2, s2.pcs[0])
  {
    var call := TabSteps.Add(k, v);
    var s1 := s.(addDel := Some(0), pcs := [TabSteps.AddSearch(k, v)]);
    StepInside(s, call, s, TabSteps.Idle, s1, TabSteps.AddSearch(k, v));
    var found := FindKey(s.keyTab[KeyHash(k)], s.rec, k).Some?;
    s2 := s1.(pcs := [if found then TabSteps.Unlock else TabSteps.AddAlloc(k, v)]);
    StepInside(s, call, s1, TabSteps.AddSearch(k, v), s2, s2.pcs[0]);
  }

  lemma Unlocks(s0: TabSteps.State, call: TabSteps.Call, s: TabSteps.State)
    requires Inside(s0, call, s, TabSteps.Unlock)
    ensures var s' := s.(addDel := None, pcs := [TabSteps.Idle]);
      Solo(s0, call, s') && Quiet(s')
  {
    InsideFits(s0, call, s, TabSteps.Unlock);
    var s' := Advance(s0, call, s);
    assert s' == s.(addDel := None, pcs := [TabSteps.Idle]);
  }

  lemma SkipTaken(s0: TabSteps.State, call: TabSteps.Call, s: TabSteps.State, pc: TabSteps.Pc, s': TabSteps.State)
    requires Inside(s0, call, s, pc) && pc.AddGenId? && InArena(s.idTab[IdHash(s.nextId)], |s.rec|)
    requires FindId(s.idTab[IdHash(s.nextId)], s.rec, s.nextId).Some?
    requires s' == s.(nextId := BumpId(s.nextId))
    ensures Inside(s0, call, s', pc)
  {
    InsideFits(s0, call, s, pc);
    StepInside(s0, call, s, pc, s', pc);
  }

  /** The step machine skips the taken ids one step at a time. */
  lemma {:induction false} ScanTo(s0: TabSteps.State, call: TabSteps.Call, s: TabSteps.State, pc: TabSteps.Pc,
                                  next: nat, used: set<nat>, d: nat, goal: nat)
    requires next < ID_SPACE && d < ID_SPACE && goal == IdAt(next, d)
    requires Inside(s0, call, s.(nextId := next), pc) && pc.AddGenId?
    requires Answers(s.idTab, s.rec, used) && forall e | 0 <= e < d :: IdAt(next, e) in used
    ensures Inside(s0, call, s.(nextId := goal), pc)
    decreases d
  {
    if d > 0 {
      assert IdAt(next, 0) == next;
      SkipTaken(s0, call, s.(nextId := next), pc, s.(nextId := BumpId(next)));
      forall e | 0 <= e < d - 1
        ensures IdAt(BumpId(next), e) in used
      {
        BumpIsNext(next, e);
      }
      BumpIsNext(next, d - 1);
      ScanTo(s0, call, s, pc, BumpId(next), used, d - 1, goal);
    } else {
      assert goal == next;
    }
  }

  lemma AddScans(s0: TabSteps.State, call: TabSteps.Call, s: TabSteps.State, pc: TabSteps.Pc, id: nat)
    requires Inside(s0, call, s, pc) && pc.AddGenId? && s.addDel == Some(0)
    requires s.nextId < ID_SPACE && InArena(s.all, |s.rec|) && HasFreeId(Ids(s.rec, s.all))
    requires id == FirstFreeId(Ids(s.rec, s.all), s.nextId)
    ensures Inside(s0, call, s.(nextId := id), pc)
    ensures Answers(s.idTab, s.rec, Ids(s.rec, s.all))
  {
    var used := Ids(s.rec, s.all);
    assert TabSteps.Holder(s) == pc;
    ScanAnswers(s);
    FreeIdHasDistance(used, s.nextId);
    var d := FreeDistance(used, s.nextId, 0);
    assert s.(nextId := s.nextId) == s;
    ScanTo(s0, call, s, pc, s.nextId, used, d, id);
  }

  lemma AddBuilds(s0: TabSteps.State, call: TabSteps.Call, s: TabSteps.State, k: Key, v: nat, b: Buf, id: nat)
    returns (s': TabSteps.State)
    requires Inside(s0, call, s, TabSteps.AddGenId(k, v, b)) && b < |s.rec| && s.nextId == id
    requires InArena(s.all, |s.rec|) && Answers(s.idTab, s.rec, Ids(s.rec, s.all)) && id !in Ids(s.rec, s.all)
    requires |s.ref| == |s.rec| && |s.keyTab| == MAX_HASH_LINE_NUM
    ensures s' == s.(rec := s.rec[b := Rec(id, k, v)], ref := s.ref[b := 1],
                     idTab := s.idTab[IdHash(id) := [b] + s.idTab[IdHash(id)]],
                     keyTab := s.keyTab[KeyHash(k) := [b] + s.keyTab[KeyHash(k)]],
                     nextId := BumpId(id), pcs := [TabSteps.AddLinkAll(b)])
    ensures Inside(s0, call, s', TabSteps.AddLinkAll(b))
  {
    InsideFits(s0, call, s, TabSteps.AddGenId(k, v, b));
    var s4 := s.(rec := s.rec[b := Rec(id, k, v)], ref := s.ref[b := 1], nextId := BumpId(id),
                 pcs := [TabSteps.AddLinkId(b)]);
    StepInside(s0, call, s, TabSteps.AddGenId(k, v, b), s4, TabSteps.AddLinkId(b));
    var s5 := s4.(idTab := s.idTab[IdHash(id) := [b] + s.idTab[IdHash(id)]], pcs := [TabSteps.AddLinkKey(b)]);
    StepInside(s0, call, s4, TabSteps.AddLinkId(b), s5, TabSteps.AddLinkKey(b));
    s' := s5.(keyTab := s.keyTab[KeyHash(k) := [b] + s.keyTab[KeyHash(k)]], pcs := [TabSteps.AddLinkAll(b)]);
    StepInside(s0, call, s5, TabSteps.AddLinkKey(b), s', TabSteps.AddLinkAll(b));
  }

  lemma AddEnds(s0: TabSteps.State, call: TabSteps.Call, s: TabSteps.State, b: Buf) returns (s': TabSteps.State)
    requires Inside(s0, call, s, TabSteps.AddLinkAll(b))
    ensures s' == s.(all := [b] + s.all, num := s.num + 1, addDel := None, pcs := [TabSteps.Idle])
    ensures Solo(s0, call, s') && Quiet(s')
  {
    InsideFits(s0, call, s, TabSteps.AddLinkAll(b));
    var s7 := s.(all := [b] + s.all, pcs := [TabSteps.AddCount(b)]);
    StepInside(s0, call, s, TabSteps.AddLinkAll(b), s7, TabSteps.AddCount(b));
    var s8 := s7.(num := s.num + 1, pcs := [TabSteps.Unlock]);
    StepInside(s0, call, s7, TabSteps.AddCount(b), s8, TabSteps.Unlock);
    Unlocks(s0, call, s8);
    s' := s8.(addDel := None, pcs := [TabSteps.Idle]);
  }

  /** An add that finds everything free is a run of the step machine. */
  lemma AddRuns(s: TabSteps.State, k: Key, v: nat)
    requires Quiet(s) && TabSteps.Roomy(s) && CanEnd(s, k)
    ensures var s' := AddSpec(s, k, v).0;
      Quiet(s') && Solo(s, TabSteps.Add(k, v), s')
  {
    var call := TabSteps.Add(k, v);
    var s2 := AddBegins(s, k, v);
    if s2.pcs[0] == TabSteps.Unlock {
      Unlocks(s, call, s2);
      assert s2.(addDel := None, pcs := [TabSteps.Idle]) == s;
    } else {
      InsideFits(s, call, s2, TabSteps.AddAlloc(k, v));
      if s.free == [] {
        var s3 := s2.(pcs := [TabSteps.Unlock]);
        StepInside(s, call, s2, TabSteps.AddAlloc(k, v), s3, TabSteps.Unlock);
        Unlocks(s, call, s3);
        assert s3.(addDel := None, pcs := [TabSteps.Idle]) == s;
      } else {
        AddRunsOk(s, k, v, s2);
      }
    }
  }

  lemma AddRunsOk(s: TabSteps.State, k: Key, v: nat, s2: TabSteps.State)
    requires Quiet(s) && TabSteps.Roomy(s) && |s.all| < ID_SPACE
    requires s.free != [] && FindKey(s.keyTab[KeyHash(k)], s.rec, k).None?
    requires s2 == s.(addDel := Some(0), pcs := [TabSteps.AddAlloc(k, v)])
    requires Inside(s, TabSteps.Add(k, v), s2, TabSteps.AddAlloc(k, v))
    ensures var s' := AddSpec(s, k, v).0;
      Quiet(s') && Solo(s, TabSteps.Add(k, v), s')
  {
    var call := TabSteps.Add(k, v);
    RoomForId(s);
    var b, id := s.free[0], FirstFreeId(Ids(s.rec, s.all), s.nextId);
    var pc := TabSteps.AddGenId(k, v, b);
    InsideFits(s, call, s2, TabSteps.AddAlloc(k, v));
    var s3 := s2.(free := s.free[1..], pcs := [pc]);
    StepInside(s, call, s2, TabSteps.AddAlloc(k, v), s3, pc);
    AddScans(s, call, s3, pc, id);
    var s6 := AddBuilds(s, call, s3.(nextId := id), k, v, b, id);
    var s9 := AddEnds(s, call, s6, b);
    assert s9 == AddSpec(s, k, v).0;
  }

  /** With every id taken the search goes round for ever. */
  lemma {:induction false} ScanSpins(s: TabSteps.State, call: TabSteps.Call, pc: TabSteps.Pc, n: nat,
                                     s': TabSteps.State)
    requires TabSteps.Inv(s) && s.pcs == [pc] && pc.AddGenId? && s.addDel == Some(0) && s.idLocks == map[]
    requires InArena(s.all, |s.rec|) && !HasFreeId(Ids(s.rec, s.all)) && Steps(s, call, n, s')
    ensures s'.pcs == [pc]
    decreases n
  {
    if n == 0 {
    } else {
      assert TabSteps.Holder(s) == pc;
      ScanAnswers(s);
      TabSteps.PcFits(s, 0);
      assert s.nextId in Ids(s.rec, s.all);
      var next := s.(nextId := BumpId(s.nextId));
      assert TabSteps.Step(s, 0, call) == Some(next) && TabSteps.Next(s, TabSteps.Move(0, call)) == next;
      TabSteps.StepKeepsInv(s, 0, call);
      ScanSpins(next, call, pc, n - 1, s');
    }
  }

  lemma AllocSpins(s: TabSteps.State, k: Key, v: nat, s2: TabSteps.State, n: nat, s': TabSteps.State)
    requires Quiet(s) && !CanEnd(s, k) && s2 == s.(addDel := Some(0), pcs := [TabSteps.AddAlloc(k, v)])
    requires Inside(s, TabSteps.Add(k, v), s2, TabSteps.AddAlloc(k, v)) && Steps(s2, TabSteps.Add(k, v), n, s')
    ensures s'.pcs != [TabSteps.Idle]
  {
    var call := TabSteps.Add(k, v);
    if n > 0 {
      var pc := TabSteps.AddGenId(k, v, s.free[0]);
      var s3 := s2.(free := s.free[1..], pcs := [pc]);
      InsideFits(s, call, s2, TabSteps.AddAlloc(k, v));
      assert s2.pcs[0 := pc] == s3.pcs && TabSteps.Next(s2, TabSteps.Move(0, call)) == s3;
      StepInside(s, call, s2, TabSteps.AddAlloc(k, v), s3, pc);
      RoomForId(s);
      ScanSpins(s3, call, pc, n - 1, s');
    }
  }

  lemma AddLocks(s: TabSteps.State, k: Key, v: nat, s1: TabSteps.State)
    requires TabSteps.WellFormed(s) && s.pcs == [TabSteps.Idle] && s.addDel == None
    requires s1 == s.(addDel := Some(0), pcs := [TabSteps.AddSearch(k, v)])
    ensures TabSteps.Next(s, TabSteps.Move(0, TabSteps.Add(k, v))) == s1
  {
    assert [TabSteps.Idle][0 := TabSteps.AddSearch(k, v)] == s1.pcs;
  }

  lemma AddKeyIsNew(s: TabSteps.State, k: Key, v: nat, call: TabSteps.Call)
    requires TabSteps.WellFormed(s) && s.pcs == [TabSteps.AddSearch(k, v)] && s.keyLocks == map[]
    requires FindKey(s.keyTab[KeyHash(k)], s.rec, k).None?
    ensures TabSteps.Next(s, TabSteps.Move(0, call)) == s.(pcs := [TabSteps.AddAlloc(k, v)])
  {
    assert s.pcs[0 := TabSteps.AddAlloc(k, v)] == [TabSteps.AddAlloc(k, v)];
  }

  lemma AddSpins(s: TabSteps.State, k: Key, v: nat, n: nat, s': TabSteps.State)
    requires Quiet(s) && TabSteps.Roomy(s) && !CanEnd(s, k) && n > 0 && Steps(s, TabSteps.Add(k, v), n, s')
    ensures s'.pcs != [TabSteps.Idle]
  {
    var s2 := AddBegins(s, k, v);
    var s1 := s.(addDel := Some(0), pcs := [TabSteps.AddSearch(k, v)]);
    AddLocks(s, k, v, s1);
    if n > 1 {
      AddKeyIsNew(s1, k, v, TabSteps.Add(k, v));
      AllocSpins(s, k, v, s2, n - 2, s');
    }
  }

  /** An add returns exactly if it does not need an id or one is unused. */
  lemma AddEndsIff(s: TabSteps.State, k: Key, v: nat)
    requires Quiet(s) && TabSteps.Roomy(s)
    ensures CanEnd(s, k) <==> exists s' :: Solo(s, TabSteps.Add(k, v), s')
  {
    if CanEnd(s, k) {
      AddRuns(s, k, v);
    } else if s' :| Solo(s, TabSteps.Add(k, v), s') {
      var n: nat :| n > 0 && Steps(s, TabSteps.Add(k, v), n, s');
      AddSpins(s, k, v, n, s');
    }
  }

  /** What one delete does, as a whole. */
  function DelSpec(s: TabSteps.State, k: Key): (r: (TabSteps.State, Result<int>))
    requires TabSteps.WellFormed(s)
  {
    match FindKey(s.keyTab[KeyHash(k)], s.rec, k)
    case None => (s, Err(ESRCH))
    case Some(b) => (DropRef(Unlinked(s, b), b), Ok(0))
  }

  /** The table without entry `b`, whose count still includes the table. */
  function Unlinked(s: TabSteps.State, b: Buf): TabSteps.State
    requires TabSteps.WellFormed(s) && b < |s.rec|
  {
    var idLine, keyLine := IdHash(s.rec[b].id), KeyHash(s.rec[b].key);
    s.(idTab := s.idTab[idLine := Remove(s.idTab[idLine], b)],
       keyTab := s.keyTab[keyLine := Remove(s.keyTab[keyLine], b)],
       all := Remove(s.all, b),
       num := s.num - 1)
  }

  /** `tab_xxx_put`: the count goes down, and the last user gives the buffer back. */
  function DropRef(s: TabSteps.State, b: Buf): TabSteps.State
    requires b < |s.ref|
  {
    var s' := TabSteps.Dec(s, b);
    if s'.ref[b] == 0 then s'.(free := s'.free + [b]) else s'
  }

  lemma DelBegins(s: TabSteps.State, k: Key) returns (s2: TabSteps.State)
    requires Quiet(s) && TabSteps.Roomy(s)
    ensures TabSteps.WellFormed(s)
    ensures var f := FindKey(s.keyTab[KeyHash(k)], s.rec, k);
      s2 == s.(addDel := Some(0), pcs := [if f.Some? then TabSteps.DelUnlinkId(f.value) else TabSteps.Unlock])
    ensures Inside(s, TabSteps.Del(k), s2, s2.pcs[0])
  {
    var call := TabSteps.Del(k);
    var s1 := s.(addDel := Some(0), pcs := [TabSteps.DelSearch(k)]);
    StepInside(s, call, s, TabSteps.Idle, s1, TabSteps.DelSearch(k));
    var f := FindKey(s.keyTab[KeyHash(k)], s.rec, k);
    s2 := s1.(pcs := [if f.Some? then TabSteps.DelUnlinkId(f.value) else TabSteps.Unlock]);
    StepInside(s, call, s1, TabSteps.DelSearch(k), s2, s2.pcs[0]);
  }

  lemma DelUnlinks(s0: TabSteps.State, call: TabSteps.Call, s: TabSteps.State, b: Buf) returns (s': TabSteps.State)
    requires Inside(s0, call, s, TabSteps.DelUnlinkId(b)) && b < |s.rec| && |s.idTab| == |s.keyTab| == MAX_HASH_LINE_NUM
    ensures var idLine, keyLine := IdHash(s.rec[b].id), KeyHash(s.rec[b].key);
      s' == s.(idTab := s.idTab[idLine := Remove(s.idTab[idLine], b)],
               keyTab := s.keyTab[keyLine := Remove(s.keyTab[keyLine], b)],
               pcs := [TabSteps.DelUnlinkAll(b)])
    ensures Inside(s0, call, s', TabSteps.DelUnlinkAll(b))
  {
    var idLine, keyLine := IdHash(s.rec[b].id), KeyHash(s.rec[b].key);
    InsideFits(s0, call, s, TabSteps.DelUnlinkId(b));
    var s3 := s.(idTab := s.idTab[idLine := Remove(s.idTab[idLine], b)], pcs := [TabSteps.DelUnlinkKey(b)]);
    StepInside(s0, call, s, TabSteps.DelUnlinkId(b), s3, TabSteps.DelUnlinkKey(b));
    s' := s3.(keyTab := s.keyTab[keyLine := Remove(s.keyTab[keyLine], b)], pcs := [TabSteps.DelUnlinkAll(b)]);
    StepInside(s0, call, s3, TabSteps.DelUnlinkKey(b), s', TabSteps.DelUnlinkAll(b));
  }

  lemma DelLeaves(s0: TabSteps.State, call: TabSteps.Call, s: TabSteps.State, b: Buf) returns (s': TabSteps.State)
    requires Inside(s0, call, s, TabSteps.DelUnlinkAll(b))
    ensures s' == s.(all := Remove(s.all, b), num := s.num - 1, pcs := [TabSteps.DelDec(b)])
    ensures Inside(s0, call, s', TabSteps.DelDec(b))
  {
    InsideFits(s0, call, s, TabSteps.DelUnlinkAll(b));
    var s5 := s.(all := Remove(s.all, b), pcs := [TabSteps.DelCount(b)]);
    StepInside(s0, call, s, TabSteps.DelUnlinkAll(b), s5, TabSteps.DelCount(b));
    s' := s5.(num := s.num - 1, pcs := [TabSteps.DelDec(b)]);
    StepInside(s0, call, s5, TabSteps.DelCount(b), s', TabSteps.DelDec(b));
  }

  /** The last reference goes with the delete: its thread frees the buffer and unlocks. */
  lemma DelFreesLast(s0: TabSteps.State, call: TabSteps.Call, s: TabSteps.State, b: Buf, dec: TabSteps.State)
    requires Inside(s0, call, s, TabSteps.DelDec(b)) && b < |s.ref|
    requires dec == TabSteps.Dec(s, b) && dec.ref[b] == 0
    ensures var s' := dec.(free := s.free + [b], addDel := None, pcs := [TabSteps.Idle]);
      Solo(s0, call, s') && Quiet(s')
  {
    InsideFits(s0, call, s, TabSteps.DelDec(b));
    var s7 := dec.(pcs := [TabSteps.DelFree(b)]);
    StepInside(s0, call, s, TabSteps.DelDec(b), s7, TabSteps.DelFree(b));
    var s8 := s7.(free := s.free + [b], pcs := [TabSteps.Unlock]);
    StepInside(s0, call, s7, TabSteps.DelFree(b), s8, TabSteps.Unlock);
    Unlocks(s0, call, s8);
  }

  lemma DelKeepsRest(s0: TabSteps.State, call: TabSteps.Call, s: TabSteps.State, b: Buf, dec: TabSteps.State)
    requires Inside(s0, call, s, TabSteps.DelDec(b)) && b < |s.ref|
    requires dec == TabSteps.Dec(s, b) && dec.ref[b] != 0
    ensures var s' := dec.(addDel := None, pcs := [TabSteps.Idle]);
      Solo(s0, call, s') && Quiet(s')
  {
    InsideFits(s0, call, s, TabSteps.DelDec(b));
    var s7 := dec.(pcs := [TabSteps.Unlock]);
    StepInside(s0, call, s, TabSteps.DelDec(b), s7, TabSteps.Unlock);
    Unlocks(s0, call, s7);
  }

  lemma DelDrops(s0: TabSteps.State, call: TabSteps.Call, s: TabSteps.State, b: Buf, u: TabSteps.State)
    requires Inside(s0, call, s, TabSteps.DelDec(b)) && b < |u.ref|
    requires u.addDel == None && u.pcs == [TabSteps.Idle] && s == u.(addDel := Some(0), pcs := [TabSteps.DelDec(b)])
    ensures Solo(s0, call, DropRef(u, b)) && Quiet(DropRef(u, b))
  {
    var dec := TabSteps.Dec(s, b);
    if dec.ref[b] == 0 {
      DelFreesLast(s0, call, s, b, dec);
      assert DropRef(u, b) == dec.(free := s.free + [b], addDel := None, pcs := [TabSteps.Idle]);
    } else {
      DelKeepsRest(s0, call, s, b, dec);
      assert DropRef(u, b) == dec.(addDel := None, pcs := [TabSteps.Idle]);
    }
  }

  /** A delete is a run of the step machine. */
  lemma DelRuns(s: TabSteps.State, k: Key)
    requires Quiet(s) && TabSteps.Roomy(s) && TabSteps.WellFormed(s)
    ensures Quiet(DelSpec(s, k).0)
    ensures Solo(s, TabSteps.Del(k), DelSpec(s, k).0)
  {
    var s2 := DelBegins(s, k);
    if s2.pcs[0] == TabSteps.Unlock {
      Unlocks(s, TabSteps.Del(k), s2);
      assert s2.(addDel := None, pcs := [TabSteps.Idle]) == s;
    } else {
      DelRunsOk(s, k, s2, FindKey(s.keyTab[KeyHash(k)], s.rec, k).value);
    }
  }

  lemma DelUnlinked(s: TabSteps.State, k: Key, s2: TabSteps.State, b: Buf) returns (s6: TabSteps.State)
    requires Quiet(s) && TabSteps.WellFormed(s) && b < |s.rec|
    requires s2 == s.(addDel := Some(0), pcs := [TabSteps.DelUnlinkId(b)])
    requires Inside(s, TabSteps.Del(k), s2, TabSteps.DelUnlinkId(b))
    ensures s6 == Unlinked(s, b).(addDel := Some(0), pcs := [TabSteps.DelDec(b)])
    ensures Inside(s, TabSteps.Del(k), s6, TabSteps.DelDec(b))
  {
    var s4 := DelUnlinks(s, TabSteps.Del(k), s2, b);
    s6 := DelLeaves(s, TabSteps.Del(k), s4, b);
  }

  lemma DelRunsOk(s: TabSteps.State, k: Key, s2: TabSteps.State, b: Buf)
    requires Quiet(s) && TabSteps.WellFormed(s) && b < |s.rec|
    requires s2 == s.(addDel := Some(0), pcs := [TabSteps.DelUnlinkId(b)])
    requires Inside(s, TabSteps.Del(k), s2, TabSteps.DelUnlinkId(b))
    ensures Solo(s, TabSteps.Del(k), DropRef(Unlinked(s, b), b)) && Quiet(DropRef(Unlinked(s, b), b))
  {
    var s6 := DelUnlinked(s, k, s2, b);
    DelDrops(s, TabSteps.Del(k), s6, b, Unlinked(s, b));
  }

  // Lookups and puts.

  function GetByKeySpec(s: TabSteps.State, k: Key): (r: (TabSteps.State, Option<Buf>))
    requires TabSteps.WellFormed(s)
  {
    var f := FindKey(s.keyTab[KeyHash(k)], s.rec, k);
    (if f.Some? then TabSteps.Inc(s, f.value) else s, f)
  }

  function GetByIdSpec(s: TabSteps.State, id: nat): (r: (TabSteps.State, Option<Buf>))
    requires TabSteps.WellFormed(s)
  {
    var f := FindId(s.idTab[IdHash(id)], s.rec, id);
    (if f.Some? then TabSteps.Inc(s, f.value) else s, f)
  }

  /** One step of the run from a state in which the only thread is at `pc`. */
  lemma AloneStep(s0: TabSteps.State, call: TabSteps.Call, s: TabSteps.State, pc: TabSteps.Pc,
                  s': TabSteps.State, pc': TabSteps.Pc)
    requires TabSteps.Inv(s) && TabSteps.Roomy(s) && MayGoOn(s0, call, s) && s.pcs == [pc]
    requires TabSteps.WellFormed(s) && TabSteps.PcInArena(pc, |s.rec|)
    requires [pc][0 := pc'] == [pc'] ==> TabSteps.Step(s, 0, call) == Some(s')
    requires s'.pcs == [pc']
    ensures TabSteps.Inv(s') && Under(s0, call, s') && TabSteps.WellFormed(s') && TabSteps.PcInArena(pc', |s'.rec|)
  {
    var r := Advance(s0, call, s);
    TabSteps.PcFits(s', 0);
  }

  lemma GetByKeyRuns(s: TabSteps.State, k: Key)
    requires Quiet(s) && TabSteps.Roomy(s) && TabSteps.WellFormed(s)
    ensures Quiet(GetByKeySpec(s, k).0)
    ensures Solo(s, TabSteps.GetByKey(k), GetByKeySpec(s, k).0)
  {
    var call, line := TabSteps.GetByKey(k), KeyHash(k);
    if FindKey(s.keyTab[line], s.rec, k).Some? {
      var b := FindKey(s.keyTab[line], s.rec, k).value;
      var pc := TabSteps.GetKeyFound(line, b);
      var s1 := s.(keyLocks := s.keyLocks[line := 0], pcs := [pc]);
      AloneStep(s, call, s, TabSteps.Idle, s1, pc);
      var s2 := TabSteps.Inc(s1, b).(keyLocks := s1.keyLocks - {line}, pcs := [TabSteps.Idle]);
      AloneStep(s, call, s1, pc, s2, TabSteps.Idle);
      assert s2.keyLocks == map[];
      assert s2 == TabSteps.Inc(s, b);
    } else {
      AloneStep(s, call, s, TabSteps.Idle, s, TabSteps.Idle);
    }
  }

  lemma GetByIdRuns(s: TabSteps.State, id: nat)
    requires Quiet(s) && TabSteps.Roomy(s) && TabSteps.WellFormed(s)
    ensures Quiet(GetByIdSpec(s, id).0)
    ensures Solo(s, TabSteps.GetById(id), GetByIdSpec(s, id).0)
  {
    var call, line := TabSteps.GetById(id), IdHash(id);
    if FindId(s.idTab[line], s.rec, id).Some? {
      var b := FindId(s.idTab[line], s.rec, id).value;
      var pc := TabSteps.GetIdFound(line, b);
      var s1 := s.(idLocks := s.idLocks[line := 0], pcs := [pc]);
      AloneStep(s, call, s, TabSteps.Idle, s1, pc);
      var s2 := TabSteps.Inc(s1, b).(idLocks := s1.idLocks - {line}, pcs := [TabSteps.Idle]);
      AloneStep(s, call, s1, pc, s2, TabSteps.Idle);
      assert s2.idLocks == map[];
      assert s2 == TabSteps.Inc(s, b);
    } else {
      AloneStep(s, call, s, TabSteps.Idle, s, TabSteps.Idle);
    }
  }

  function PutSpec(s: TabSteps.State, b: Buf): TabSteps.State
    requires b < |s.ref|
  {
    DropRef(s, b).(handles := s.handles - multiset{b})
  }

  lemma PutRuns(s: TabSteps.State, b: Buf)
    requires Quiet(s) && TabSteps.Roomy(s) && TabSteps.WellFormed(s) && b in s.handles && b < |s.ref|
    ensures Quiet(PutSpec(s, b))
    ensures Solo(s, TabSteps.Put(b), PutSpec(s, b))
  {
    var call := TabSteps.Put(b);
    var dec := TabSteps.Dec(s, b).(handles := s.handles - multiset{b});
    if dec.ref[b] == 0 {
      var s1 := dec.(pcs := [TabSteps.PutFree(b)]);
      AloneStep(s, call, s, TabSteps.Idle, s1, TabSteps.PutFree(b));
      LessRoomy(s, s1, b);
      AloneStep(s, call, s1, TabSteps.PutFree(b), PutSpec(s, b), TabSteps.Idle);
    } else {
      AloneStep(s, call, s, TabSteps.Idle, dec, TabSteps.Idle);
    }
  }

  lemma LessRoomy(s: TabSteps.State, s': TabSteps.State, b: Buf)
    requires TabSteps.Roomy(s) && s'.handles == s.handles - multiset{b}
    ensures TabSteps.Roomy(s')
  {
  }
}
