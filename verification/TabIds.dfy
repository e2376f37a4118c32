/**
 Ids under any number of threads: the search for a free id, which the counter's lock does not cover,
 and the lookups by id, which may run in the middle of an add or a delete.
 */
module TabIds {
  import opened Common
  import opened TabBase
  import opened TabHistory
  import opened TabSteps
  import opened TabRuns

  // ----- The search for an id -----

  /** How many steps of its search for an id thread `t` makes in this schedule. */
  function SearchSteps(s: State, t: Tid, moves: seq<Move>): nat
    decreases |moves|
  {
    if moves == [] || t >= |s.pcs| || !s.pcs[t].AddGenId? then 0
    else
      var next := Next(s, moves[0]);
      (if moves[0].t == t && next != s then 1 else 0) + SearchSteps(next, t, moves[1..])
  }

  /** The id with which thread `t` comes out of its search, if it does. */
  function IdFound(s: State, t: Tid, moves: seq<Move>): Option<nat>
    decreases |moves|
  {
    if moves == [] || t >= |s.pcs| then None
    else
      var next := Next(s, moves[0]);
      if t < |next.pcs| && next.pcs[t].AddGenId? then IdFound(next, t, moves[1..])
      else if t < |next.pcs| && next.pcs[t].AddLinkId? && next.pcs[t].b < |next.rec| then
        Some(next.rec[next.pcs[t].b].id)
      else None
  }

  /** Nobody else touches the counter, the entries or the all-list. */
  ghost predicate SameIds(s: State, s': State) {
    s'.nextId == s.nextId && s'.rec == s.rec && s'.all == s.all && s'.addDel == s.addDel
  }

  lemma OthersStart(s: State, u: Tid, call: Call)
    requires WellFormed(s) && u < |s.pcs| && s.pcs[u] == Idle && s.addDel.Some? && StartCall(s, u, call).Some?
    ensures SameIds(s, StartCall(s, u, call).value)
  {
  }

  lemma OtherStepLeaves(s: State, u: Tid, call: Call)
    requires WellFormed(s) && u < |s.pcs| && PcInArena(s.pcs[u], |s.rec|) && Step(s, u, call).Some?
    requires s.addDel.Some? && !HoldsAddDel(s.pcs[u])
    ensures SameIds(s, Step(s, u, call).value) && OnlyMoves(s, u, Step(s, u, call).value)
  {
    StepMoves(s, u, call);
    if s.pcs[u].Idle? {
      OthersStart(s, u, call);
    }
  }

  lemma OnlyOneSeeks(s: State, t: Tid, u: Tid)
    requires Inv(s) && t < |s.pcs| && s.pcs[t].AddGenId? && u < |s.pcs| && u != t
    ensures s.addDel.Some? && !HoldsAddDel(s.pcs[u]) && PcInArena(s.pcs[u], |s.rec|)
  {
    HolderIs(s, t);
    HolderIs(s, u);
    PcFits(s, u);
  }

  lemma OthersLeaveIds(s: State, m: Move, t: Tid)
    requires Inv(s) && t < |s.pcs| && s.pcs[t].AddGenId? && m.t != t
    ensures SameIds(s, Next(s, m)) && |Next(s, m).pcs| == |s.pcs| && Next(s, m).pcs[t] == s.pcs[t]
  {
    if m.t < |s.pcs| {
      OnlyOneSeeks(s, t, m.t);
      if Step(s, m.t, m.call).Some? {
        OtherStepLeaves(s, m.t, m.call);
      }
    }
  }

  /** A step of the search: it waits, skips a taken id, or takes the id. */
  lemma OwnSearchStep(s: State, t: Tid, call: Call)
    requires Inv(s) && t < |s.pcs| && s.pcs[t].AddGenId?
    ensures s.nextId < ID_SPACE && InArena(s.all, |s.rec|)
    ensures var next := Next(s, Move(t, call));
      next == s ||
      (if s.nextId in Ids(s.rec, s.all) then next == s.(nextId := BumpId(s.nextId)) else Came(next, t, s.nextId))
  {
    PcFits(s, t);
    HolderIs(s, t);
    ScanAnswers(s);
    LookupId(s, s.nextId);
  }

  /** The thread has come out of its search with this id. */
  ghost predicate Came(s: State, t: Tid, id: nat) {
    t < |s.pcs| && s.pcs[t].AddLinkId? && s.pcs[t].b < |s.rec| && s.rec[s.pcs[t].b].id == id
  }

  /** The first id that is not in use is `d` places after the counter. */
  ghost predicate FreeAt(used: set<nat>, next: nat, d: nat) {
    && next < ID_SPACE && d < ID_SPACE && IdAt(next, d) !in used
    && forall e | 0 <= e < d :: IdAt(next, e) in used
  }

  lemma FreeOneNearer(used: set<nat>, next: nat, d: nat)
    requires FreeAt(used, next, d) && next in used
    ensures d > 0 && FreeAt(used, BumpId(next), d - 1) && IdAt(BumpId(next), d - 1) == IdAt(next, d)
  {
    assert IdAt(next, 0) == next;
    BumpIsNext(next, d - 1);
    forall e | 0 <= e < d - 1
      ensures IdAt(BumpId(next), e) in used
    {
      BumpIsNext(next, e);
    }
  }

  lemma FreeHere(used: set<nat>, next: nat, d: nat)
    requires FreeAt(used, next, d) && next !in used
    ensures d == 0 && IdAt(next, d) == next
  {
    assert IdAt(next, 0) == next;
  }

  /** In the middle of a search, with the first free id `d` places after the counter. */
  ghost predicate Seeks(s: State, t: Tid, used: set<nat>, d: nat) {
    && t < |s.pcs| && s.pcs[t].AddGenId?
    && InArena(s.all, |s.rec|) && used == Ids(s.rec, s.all) && FreeAt(used, s.nextId, d)
  }

  lemma OneSearchMove(s: State, t: Tid, used: set<nat>, d: nat, m: Move)
    requires Inv(s) && Seeks(s, t, used, d)
    ensures var next := Next(s, m);
      (if m.t != t || next == s then Seeks(next, t, used, d) && next.nextId == s.nextId
          else if s.nextId in used then
            d > 0 && Seeks(next, t, used, d - 1) && IdAt(next.nextId, d - 1) == IdAt(s.nextId, d)
          else d == 0 && Came(next, t, IdAt(s.nextId, d)))
  {
    if m.t != t {
      OthersLeaveIds(s, m, t);
    } else {
      OwnSearchStep(s, t, m.call);
      if s.nextId in used {
        FreeOneNearer(used, s.nextId, d);
      } else {
        FreeHere(used, s.nextId, d);
      }
    }
  }

  lemma {:induction false} SearchGoes(s: State, t: Tid, used: set<nat>, d: nat, moves: seq<Move>, s': State)
    requires Inv(s) && Reaches(s, moves, s')
    ensures Seeks(s, t, used, d) ==>
      && SearchSteps(s, t, moves) <= d + 1
      && IdFound(s, t, moves) == if SearchSteps(s, t, moves) == d + 1 then Some(IdAt(s.nextId, d)) else None
    decreases |moves|
  {
    if moves != [] && Seeks(s, t, used, d) {
      var m, next := moves[0], Next(s, moves[0]);
      NextKeepsInv(s, m);
      OneSearchMove(s, t, used, d, m);
      var steps := m.t == t && next != s;
      if !steps || s.nextId in used {
        SearchGoes(next, t, used, if steps then d - 1 else d, moves[1..], s');
      }
    }
  }

  lemma RoomWhileSearching(s: State, t: Tid)
    requires Inv(s) && t < |s.pcs| && s.pcs[t].AddGenId?
    ensures InArena(s.all, |s.rec|) && s.nextId < ID_SPACE
    ensures HasFreeId(Ids(s.rec, s.all)) <==> |s.all| < ID_SPACE
  {
    HolderIs(s, t);
    assert forall b | b in s.all :: b in AllSet(s.all) && b in PresentSet(s.all, Holder(s));
    FreeIdIffRoom(s.rec, s.all);
  }

  /**
   With fewer than 65536 entries, and whatever the other threads do meanwhile, a search for an id comes
   out, after exactly as many steps as there are ids to try, with the first id from the counter on that
   was not in use when it began.
   */
  lemma SearchEnds(cap: nat, threads: nat, before: seq<Move>, s: State, t: Tid, moves: seq<Move>, s': State)
    returns (d: nat)
    requires IsRun(cap, threads, before, s) && Reaches(s, moves, s')
    requires t < |s.pcs| && s.pcs[t].AddGenId? && |s.all| < ID_SPACE
    ensures InArena(s.all, |s.rec|) && s.nextId < ID_SPACE && HasFreeId(Ids(s.rec, s.all))
    ensures FreeAt(Ids(s.rec, s.all), s.nextId, d) && SearchSteps(s, t, moves) <= d + 1 <= ID_SPACE
    ensures IdFound(s, t, moves) ==
      if SearchSteps(s, t, moves) == d + 1 then Some(FirstFreeId(Ids(s.rec, s.all), s.nextId)) else None
  {
    RunInv(cap, threads, before, s);
    RoomWhileSearching(s, t);
    var used := Ids(s.rec, s.all);
    FreeIdHasDistance(used, s.nextId);
    d := FreeDistance(used, s.nextId, 0);
    SearchGoes(s, t, used, d, moves, s');
  }

  // ----- Lookups by id -----

  /** What lookups by id find, also while an entry is being linked or unlinked. */
  ghost function IdMap(s: State): map<nat, Buf>
    requires Inv(s)
  {
    IdsDiffer(s);
    MapOf(IdNumbers(s.rec), IdSet(s.all, Holder(s)))
  }

  lemma IdsDiffer(s: State)
    requires Inv(s)
    ensures DistinctKeys(IdNumbers(s.rec), IdSet(s.all, Holder(s)))
  {
    assert IdSet(s.all, Holder(s)) <= PresentSet(s.all, Holder(s));
  }

  lemma FindIdIsLookup(s: State, id: nat)
    requires Inv(s)
    ensures FindId(s.idTab[IdHash(id)], s.rec, id) == if id in IdMap(s) then Some(IdMap(s)[id]) else None
  {
    IdsDiffer(s);
    var f := FindId(s.idTab[IdHash(id)], s.rec, id);
    if f.Some? {
      assert f.value < |s.rec|;
      IdSearch(s, id, f.value);
    } else if id in IdMap(s) {
      IdSearch(s, id, IdMap(s)[id]);
    }
  }

  datatype IdItem =
    | IdLinked(t: Tid, id: nat, b: Buf)
    | IdUnlinked(t: Tid, id: nat, b: Buf)
    | LookedUp(t: Tid, id: nat, found: Option<Buf>)

  /** Only an unused id is linked, only what is linked is unlinked, and a lookup finds what is linked. */
  ghost predicate Right(m: map<nat, Buf>, i: IdItem) {
    match i
    case IdLinked(_, id, _) => id !in m
    case IdUnlinked(_, id, b) => id in m && m[id] == b
    case LookedUp(_, id, found) => found == if id in m then Some(m[id]) else None
  }

  ghost function Then(m: map<nat, Buf>, i: IdItem): map<nat, Buf> {
    match i
    case IdLinked(_, id, b) => m[id := b]
    case IdUnlinked(_, id, _) => m - {id}
    case LookedUp(_, _, _) => m
  }

  ghost predicate IsIdHistory(m: map<nat, Buf>, log: seq<IdItem>, m': map<nat, Buf>)
    decreases |log|
  {
    if log == [] then m' == m else Right(m, log[0]) && IsIdHistory(Then(m, log[0]), log[1..], m')
  }

  /** What a step does to the id index, or asks of it. */
  function IdItemOf(s: State, m: Move): Option<IdItem> {
    if m.t < |s.pcs| && WellFormed(s) && PcInArena(s.pcs[m.t], |s.rec|) && Step(s, m.t, m.call).Some? then
      match s.pcs[m.t]
      case Idle =>
        if m.call.GetById? then Some(LookedUp(m.t, m.call.id, FindId(s.idTab[IdHash(m.call.id)], s.rec, m.call.id)))
        else None
      case AddLinkId(b) => Some(IdLinked(m.t, s.rec[b].id, b))
      case DelUnlinkId(b) => Some(IdUnlinked(m.t, s.rec[b].id, b))
      case _ => None
    else None
  }

  function IdLog(s: State, moves: seq<Move>): seq<IdItem>
    decreases |moves|
  {
    if moves == [] then []
    else
      var i := IdItemOf(s, moves[0]);
      (if i.Some? then [i.value] else []) + IdLog(Next(s, moves[0]), moves[1..])
  }

  // The set of linked entries changes at two kinds of step only.

  lemma IdsAfterStart(s: State, t: Tid, call: Call)
    requires WellFormed(s) && t < |s.pcs| && s.pcs[t] == Idle && StartCall(s, t, call).Some? && s.addDel != Some(t)
    ensures var s' := StartCall(s, t, call).value;
      s'.rec == s.rec && IdSet(s'.all, Holder(s')) == IdSet(s.all, Holder(s))
  {
    StartFields(s, t, call);
    var s' := StartCall(s, t, call).value;
    if call.Add? || call.Del? {
      assert Holder(s) == Idle && Holder(s') == s'.pcs[t];
    } else {
      assert Holder(s') == Holder(s);
    }
  }

  lemma IdsAfterAdd(s: State, t: Tid)
    requires WellFormed(s) && t < |s.pcs| && IsAdd(s.pcs[t]) && PcInArena(s.pcs[t], |s.rec|) && AddStep(s, t).Some?
    requires s.addDel == Some(t)
    ensures var s' := AddStep(s, t).value;
      IdSet(s'.all, Holder(s')) == IdSet(s.all, s.pcs[t]) + if s.pcs[t].AddLinkId? then {s.pcs[t].b} else {}
  {
    var s' := AddStep(s, t).value;
    assert Holder(s') == s'.pcs[t];
    match s.pcs[t] {
      case AddLinkAll(b) => assert AllSet([b] + s.all) == AllSet(s.all) + {b};
      case _ =>
    }
  }

  lemma IdsAfterDel(s: State, t: Tid)
    requires WellFormed(s) && t < |s.pcs| && IsDel(s.pcs[t]) && PcInArena(s.pcs[t], |s.rec|) && DelStep(s, t).Some?
    requires s.addDel == Some(t) && NoDup(s.all) && (s.pcs[t].DelUnlinkAll? ==> s.pcs[t].b in s.all)
    ensures var s' := DelStep(s, t).value;
      && s'.rec == s.rec
      && IdSet(s'.all, Holder(s')) == IdSet(s.all, s.pcs[t]) - if s.pcs[t].DelUnlinkId? then {s.pcs[t].b} else {}
  {
    var s' := DelStep(s, t).value;
    assert Holder(s') == s'.pcs[t];
    if s.pcs[t].DelUnlinkAll? {
      RemoveFromNoDup(s.all, s.pcs[t].b);
    }
  }

  lemma IdsAfterOther(s: State, t: Tid, call: Call)
    requires WellFormed(s) && t < |s.pcs| && PcInArena(s.pcs[t], |s.rec|) && Step(s, t, call).Some?
    requires (HoldsAddDel(s.pcs[t]) <==> s.addDel == Some(t)) && !s.pcs[t].Idle? && !IsAdd(s.pcs[t]) && !IsDel(s.pcs[t])
    ensures var s' := Step(s, t, call).value;
      s'.rec == s.rec && IdSet(s'.all, Holder(s')) == IdSet(s.all, Holder(s))
  {
  }

  /** A step that leaves the id index. */
  lemma SameIdMap(s: State, s': State)
    requires Inv(s) && Inv(s') && IdSet(s'.all, Holder(s')) == IdSet(s.all, Holder(s))
    requires |s'.rec| == |s.rec| && forall b | b in IdSet(s.all, Holder(s)) :: b < |s.rec| && s'.rec[b] == s.rec[b]
    ensures IdMap(s') == IdMap(s)
  {
    IdsDiffer(s);
    MapFrame(IdNumbers(s.rec), IdNumbers(s'.rec), IdSet(s.all, Holder(s)));
  }

  lemma LinksId(s: State, b: Buf, s': State)
    requires Inv(s) && Inv(s') && Holder(s) == AddLinkId(b) && b < |s.rec| && s'.rec == s.rec
    requires IdSet(s'.all, Holder(s')) == IdSet(s.all, Holder(s)) + {b}
    ensures s.rec[b].id !in IdMap(s) && IdMap(s') == IdMap(s)[s.rec[b].id := b]
  {
    IdsDiffer(s);
    IdsDiffer(s');
    MapAdds(IdNumbers(s.rec), IdSet(s.all, Holder(s)), b);
  }

  lemma UnlinksId(s: State, b: Buf, s': State)
    requires Inv(s) && Inv(s') && Holder(s) == DelUnlinkId(b) && b < |s.rec| && s'.rec == s.rec
    requires IdSet(s'.all, Holder(s')) == IdSet(s.all, Holder(s)) - {b}
    ensures s.rec[b].id in IdMap(s) && IdMap(s)[s.rec[b].id] == b && IdMap(s') == IdMap(s) - {s.rec[b].id}
  {
    IdsDiffer(s);
    assert b in IdSet(s.all, Holder(s));
    MapDrops(IdNumbers(s.rec), IdSet(s.all, Holder(s)), b);
  }

  /** The effect of an add step on the id index, as facts about the two states. */
  ghost predicate AddsIds(s: State, s': State, more: set<Buf>) {
    && |s'.rec| == |s.rec|
    && (forall b | b in IdSet(s.all, Holder(s)) :: b < |s.rec| && s'.rec[b] == s.rec[b])
    && IdSet(s'.all, Holder(s')) == IdSet(s.all, Holder(s)) + more
  }

  lemma AddIdEffect(s: State, t: Tid)
    requires WellFormed(s) && t < |s.pcs| && IsAdd(s.pcs[t]) && PcInArena(s.pcs[t], |s.rec|) && AddStep(s, t).Some?
    requires s.addDel == Some(t) && forall b | b in IdSet(s.all, s.pcs[t]) :: b < |s.rec| && !Building(s.pcs[t], b)
    ensures AddsIds(s, AddStep(s, t).value, if s.pcs[t].AddLinkId? then {s.pcs[t].b} else {})
    ensures s.pcs[t].AddLinkId? ==> AddStep(s, t).value.rec == s.rec
  {
    IdsAfterAdd(s, t);
    RecAfterAdd(s, t);
  }

  lemma NotBuiltYet(s: State, t: Tid)
    requires Inv(s) && t < |s.pcs| && IsAdd(s.pcs[t])
    ensures s.addDel == Some(t) && forall b | b in IdSet(s.all, s.pcs[t]) :: b < |s.rec| && !Building(s.pcs[t], b)
  {
    HolderIs(s, t);
    IdsDiffer(s);
  }

  lemma IdMapAfterAdd(s: State, t: Tid, s': State)
    requires Inv(s) && t < |s.pcs| && IsAdd(s.pcs[t]) && PcInArena(s.pcs[t], |s.rec|) && Inv(s')
    requires AddsIds(s, s', if s.pcs[t].AddLinkId? then {s.pcs[t].b} else {})
    requires s.pcs[t].AddLinkId? ==> s'.rec == s.rec
    ensures if s.pcs[t].AddLinkId? then
        s.rec[s.pcs[t].b].id !in IdMap(s) && IdMap(s') == IdMap(s)[s.rec[s.pcs[t].b].id := s.pcs[t].b]
      else IdMap(s') == IdMap(s)
  {
    if s.pcs[t].AddLinkId? {
      HolderIs(s, t);
      LinksId(s, s.pcs[t].b, s');
    } else {
      assert IdSet(s'.all, Holder(s')) == IdSet(s.all, Holder(s));
      SameIdMap(s, s');
    }
  }

  lemma AddIsRight(s: State, t: Tid, s': State)
    requires Inv(s) && t < |s.pcs| && IsAdd(s.pcs[t]) && PcInArena(s.pcs[t], |s.rec|)
    requires AddStep(s, t) == Some(s') && Inv(s')
    ensures if s.pcs[t].AddLinkId? then
        s.rec[s.pcs[t].b].id !in IdMap(s) && IdMap(s') == IdMap(s)[s.rec[s.pcs[t].b].id := s.pcs[t].b]
      else IdMap(s') == IdMap(s)
  {
    NotBuiltYet(s, t);
    AddIdEffect(s, t);
    IdMapAfterAdd(s, t, s');
  }

  lemma DelHolds(s: State, t: Tid)
    requires Inv(s) && t < |s.pcs| && IsDel(s.pcs[t])
    ensures s.addDel == Some(t) && Holder(s) == s.pcs[t]
    ensures NoDup(s.all) && (s.pcs[t].DelUnlinkAll? ==> s.pcs[t].b in s.all)
    ensures forall b | b in IdSet(s.all, Holder(s)) :: b < |s.rec|
  {
    HolderIs(s, t);
    IdsDiffer(s);
  }

  lemma DelIsRight(s: State, t: Tid, s': State)
    requires Inv(s) && t < |s.pcs| && IsDel(s.pcs[t]) && PcInArena(s.pcs[t], |s.rec|)
    requires DelStep(s, t) == Some(s') && Inv(s')
    ensures if s.pcs[t].DelUnlinkId? then
        var b := s.pcs[t].b;
        s.rec[b].id in IdMap(s) && IdMap(s)[s.rec[b].id] == b && IdMap(s') == IdMap(s) - {s.rec[b].id}
      else IdMap(s') == IdMap(s)
  {
    DelHolds(s, t);
    IdsAfterDel(s, t);
    if s.pcs[t].DelUnlinkId? {
      UnlinksId(s, s.pcs[t].b, s');
    } else {
      SameIdMap(s, s');
    }
  }

  lemma IdMapAfterRest(s: State, t: Tid, call: Call, s': State)
    requires Inv(s) && t < |s.pcs| && PcInArena(s.pcs[t], |s.rec|) && Step(s, t, call) == Some(s') && Inv(s')
    requires !IsAdd(s.pcs[t]) && !IsDel(s.pcs[t])
    ensures IdMap(s') == IdMap(s)
  {
    IdsDiffer(s);
    HolderIs(s, t);
    if s.pcs[t].Idle? {
      IdsAfterStart(s, t, call);
    } else {
      IdsAfterOther(s, t, call);
    }
    SameIdMap(s, s');
  }

  lemma IdMoveIsRight(s: State, m: Move)
    requires Inv(s) && Inv(Next(s, m))
    ensures var i := IdItemOf(s, m);
      if i.Some? then Right(IdMap(s), i.value) && IdMap(Next(s, m)) == Then(IdMap(s), i.value)
      else IdMap(Next(s, m)) == IdMap(s)
  {
    if m.t < |s.pcs| && PcInArena(s.pcs[m.t], |s.rec|) && Step(s, m.t, m.call).Some? {
      var s' := Next(s, m);
      if IsAdd(s.pcs[m.t]) {
        AddIsRight(s, m.t, s');
      } else if IsDel(s.pcs[m.t]) {
        DelIsRight(s, m.t, s');
      } else {
        IdMapAfterRest(s, m.t, m.call, s');
        if m.call.GetById? {
          FindIdIsLookup(s, m.call.id);
        }
      }
    }
  }

  lemma {:induction false} RunIsRight(s: State, moves: seq<Move>, s': State)
    requires Inv(s) && Reaches(s, moves, s')
    ensures Inv(s') && IsIdHistory(IdMap(s), IdLog(s, moves), IdMap(s'))
    decreases |moves|
  {
    RunKeepsInv(s, moves, s');
    if moves == [] {
    } else {
      var i, next := IdItemOf(s, moves[0]), Next(s, moves[0]);
      NextKeepsInv(s, moves[0]);
      IdMoveIsRight(s, moves[0]);
      RunIsRight(next, moves[1..], s');
      if i.Some? {
        assert ([i.value] + IdLog(next, moves[1..]))[1..] == IdLog(next, moves[1..]);
      } else {
        assert [] + IdLog(next, moves[1..]) == IdLog(next, moves[1..]);
      }
    }
  }

  /**
   In every run the lookups by id, each at its one step under the lock of its line, answer as one map
   does, which adds extend by unused ids only and deletes shrink, each at one step of the call.
   */
  lemma IdLookupsLinearize(cap: nat, threads: nat, moves: seq<Move>, s: State)
    requires IsRun(cap, threads, moves, s)
    ensures Inv(s) && IsIdHistory(map[], IdLog(Init(cap, threads), moves), IdMap(s))
  {
    InitInv(cap, threads);
    assert IdMap(Init(cap, threads)) == map[];
    RunIsRight(Init(cap, threads), moves, s);
  }
}
