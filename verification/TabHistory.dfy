/**
 The calls that go by key, as one history.

 Adds, deletes and lookups by key overlap, and a lookup may run in the middle of an add or a
 delete.  Each of them nevertheless answers at one of its own steps, and the answers in the order
 of those steps are those of a map used by one caller at a time.
 */
module TabHistory {
  import opened Common
  import opened TabBase
  import opened TabSteps

  // ----- The map at every moment -----

  /** What lookups by key find, also while an entry is being linked or unlinked. */
  ghost function KeyMap(s: State): map<Key, Buf>
    requires Inv(s)
  {
    KeysDiffer(s);
    MapOf(Keys(s.rec), KeySet(s.all, Holder(s)))
  }

  lemma KeysDiffer(s: State)
    requires Inv(s)
    ensures DistinctKeys(Keys(s.rec), KeySet(s.all, Holder(s)))
    ensures DistinctKeys(Keys(s.rec), PresentSet(s.all, Holder(s)))
  {
    assert KeySet(s.all, Holder(s)) <= PresentSet(s.all, Holder(s));
  }

  /** A search of the key line is a lookup in the map, whatever the hash function does. */
  lemma FindKeyIsLookup(s: State, k: Key)
    requires Inv(s)
    ensures FindKey(s.keyTab[KeyHash(k)], s.rec, k) == if k in KeyMap(s) then Some(KeyMap(s)[k]) else None
  {
    KeysDiffer(s);
    var f := FindKey(s.keyTab[KeyHash(k)], s.rec, k);
    if f.Some? {
      assert f.value < |s.rec|;
      KeySearch(s, k, f.value);
    } else if k in KeyMap(s) {
      KeySearch(s, k, KeyMap(s)[k]);
    }
  }

  // ----- Calls, answers and returns -----

  datatype Op = AddKey(key: Key) | DelKey(key: Key) | GetKey(key: Key)

  // Refused is EEXIST for an add, ESRCH for a delete and NULL for a lookup; Full is ENOMEM.
  datatype Answer = Hit(b: Buf) | Refused | Full

  datatype Item =
    | Called(t: Tid, op: Op)
    | Answered(t: Tid, op: Op, answer: Answer)
    | Returned(t: Tid)

  /** What a map used by one caller at a time may answer. */
  ghost predicate Correct(m: map<Key, Buf>, op: Op, answer: Answer) {
    match answer
    case Hit(b) => if op.AddKey? then op.key !in m else op.key in m && m[op.key] == b
    case Refused => if op.AddKey? then op.key in m else op.key !in m
    case Full => op.AddKey? && op.key !in m
  }

  ghost function After(m: map<Key, Buf>, op: Op, answer: Answer): map<Key, Buf> {
    if answer.Hit? && op.AddKey? then m[op.key := answer.b]
    else if answer.Hit? && op.DelKey? then m - {op.key}
    else m
  }

  /** The answers of the log, in this order, are those of a map that starts as `m` and ends as `m'`. */
  ghost predicate IsHistory(m: map<Key, Buf>, log: seq<Item>, m': map<Key, Buf>)
    decreases |log|
  {
    if log == [] then m' == m
    else if log[0].Answered? then
      Correct(m, log[0].op, log[0].answer) && IsHistory(After(m, log[0].op, log[0].answer), log[1..], m')
    else IsHistory(m, log[1..], m')
  }

  datatype Phase = Outside | Open(op: Op) | Settled

  /** A thread calls, is answered what it asked, and returns. */
  function PhaseAfter(p: Phase, t: Tid, i: Item): (r: Option<Phase>) {
    if i.t != t then Some(p)
    else
      match i
      case Called(_, op) => if p.Outside? then Some(Open(op)) else None
      case Answered(_, op, _) => if p == Open(op) then Some(Settled) else None
      case Returned(_) => if p.Settled? then Some(Outside) else None
  }

  /** Thread `t` goes through calls, answers and returns in turn, from phase `p` to phase `p'`. */
  predicate TakesTurns(p: Phase, t: Tid, log: seq<Item>, p': Phase)
    decreases |log|
  {
    if log == [] then p' == p
    else PhaseAfter(p, t, log[0]).Some? && TakesTurns(PhaseAfter(p, t, log[0]).value, t, log[1..], p')
  }

  // ----- What each step of the machine contributes -----

  function StartLog(s: State, t: Tid, call: Call): seq<Item>
    requires WellFormed(s)
  {
    match call
    case Add(k, _) => [Called(t, AddKey(k))]
    case Del(k) => [Called(t, DelKey(k))]
    case GetByKey(k) => (
      match FindKey(s.keyTab[KeyHash(k)], s.rec, k)
      case None => [Called(t, GetKey(k)), Answered(t, GetKey(k), Refused), Returned(t)]
      case Some(b) => [Called(t, GetKey(k)), Answered(t, GetKey(k), Hit(b))]
    )
    case _ => []
  }

  function InnerLog(s: State, t: Tid): seq<Item>
    requires WellFormed(s) && t < |s.pcs| && PcInArena(s.pcs[t], |s.rec|)
  {
    match s.pcs[t]
    case AddSearch(k, _) =>
      if FindKey(s.keyTab[KeyHash(k)], s.rec, k).Some? then [Answered(t, AddKey(k), Refused)] else []
    case AddAlloc(k, _) => if s.free == [] then [Answered(t, AddKey(k), Full)] else []
    case AddLinkKey(b) => [Answered(t, AddKey(s.rec[b].key), Hit(b))]
    case DelSearch(k) =>
      if FindKey(s.keyTab[KeyHash(k)], s.rec, k).None? then [Answered(t, DelKey(k), Refused)] else []
    case DelUnlinkKey(b) => [Answered(t, DelKey(s.rec[b].key), Hit(b))]
    case Unlock => [Returned(t)]
    case GetKeyFound(_, _) => [Returned(t)]
    case _ => []
  }

  function MoveLog(s: State, m: Move): seq<Item> {
    if m.t < |s.pcs| && WellFormed(s) && PcInArena(s.pcs[m.t], |s.rec|) && Step(s, m.t, m.call).Some? then
      if s.pcs[m.t].Idle? then StartLog(s, m.t, m.call) else InnerLog(s, m.t)
    else []
  }

  function Log(s: State, moves: seq<Move>): seq<Item>
    decreases |moves|
  {
    if moves == [] then [] else MoveLog(s, moves[0]) + Log(Next(s, moves[0]), moves[1..])
  }

  /** Where thread `t` is in its call. */
  function PhaseOf(s: State, t: Tid): Phase
    requires t < |s.pcs| && PcInArena(s.pcs[t], |s.rec|)
  {
    match s.pcs[t]
    case AddSearch(k, _) => Open(AddKey(k))
    case AddAlloc(k, _) => Open(AddKey(k))
    case AddGenId(k, _, _) => Open(AddKey(k))
    case AddLinkId(b) => Open(AddKey(s.rec[b].key))
    case AddLinkKey(b) => Open(AddKey(s.rec[b].key))
    case DelSearch(k) => Open(DelKey(k))
    case DelUnlinkId(b) => Open(DelKey(s.rec[b].key))
    case DelUnlinkKey(b) => Open(DelKey(s.rec[b].key))
    case Idle => Outside
    case GetIdFound(_, _) => Outside
    case PutFree(_) => Outside
    case _ => Settled
  }

  // A step moves one thread.

  ghost predicate OnlyMoves(s: State, t: Tid, s': State) {
    && |s'.pcs| == |s.pcs| && |s'.rec| == |s.rec|
    && (forall u | 0 <= u < |s.pcs| && u != t :: s'.pcs[u] == s.pcs[u])
  }

  // ----- The map changes at two kinds of step only -----

  lemma HolderIs(s: State, t: Tid)
    requires Inv(s) && t < |s.pcs|
    ensures HoldsAddDel(s.pcs[t]) <==> s.addDel == Some(t)
    ensures s.addDel == Some(t) ==> Holder(s) == s.pcs[t]
  {
  }

  lemma KeysAfterStart(s: State, t: Tid, call: Call)
    requires WellFormed(s) && t < |s.pcs| && s.pcs[t] == Idle && StartCall(s, t, call).Some? && s.addDel != Some(t)
    ensures var s' := StartCall(s, t, call).value;
      s'.rec == s.rec && KeySet(s'.all, Holder(s')) == KeySet(s.all, Holder(s))
  {
    StartFields(s, t, call);
    var s' := StartCall(s, t, call).value;
    if call.Add? || call.Del? {
      assert Holder(s) == Idle && Holder(s') == s'.pcs[t];
    } else {
      assert Holder(s') == Holder(s);
    }
  }

  /** An idle thread's first step changes neither entries nor the all-list. */
  lemma StartFields(s: State, t: Tid, call: Call)
    requires WellFormed(s) && t < |s.pcs| && s.pcs[t] == Idle && StartCall(s, t, call).Some?
    ensures var s' := StartCall(s, t, call).value;
      && s'.rec == s.rec && s'.all == s.all && OnlyMoves(s, t, s')
      && (if call.Add? || call.Del? then s.addDel == None && s'.addDel == Some(t) && HoldsAddDel(s'.pcs[t]) &&
                                         !s'.pcs[t].AddLinkAll? && !s'.pcs[t].DelUnlinkAll?
          else s'.addDel == s.addDel)
  {
  }

  lemma KeysAfterAdd(s: State, t: Tid)
    requires WellFormed(s) && t < |s.pcs| && IsAdd(s.pcs[t]) && PcInArena(s.pcs[t], |s.rec|) && AddStep(s, t).Some?
    requires s.addDel == Some(t)
    ensures var s' := AddStep(s, t).value;
      KeySet(s'.all, Holder(s')) == KeySet(s.all, s.pcs[t]) + if s.pcs[t].AddLinkKey? then {s.pcs[t].b} else {}
  {
    var s' := AddStep(s, t).value;
    assert Holder(s') == s'.pcs[t];
    match s.pcs[t] {
      case AddLinkAll(b) => assert AllSet([b] + s.all) == AllSet(s.all) + {b};
      case _ =>
    }
  }

  lemma RecAfterAdd(s: State, t: Tid)
    requires WellFormed(s) && t < |s.pcs| && IsAdd(s.pcs[t]) && PcInArena(s.pcs[t], |s.rec|) && AddStep(s, t).Some?
    ensures var s' := AddStep(s, t).value;
      && |s'.rec| == |s.rec|
      && (forall b | 0 <= b < |s.rec| && !Building(s.pcs[t], b) :: s'.rec[b] == s.rec[b])
  {
  }

  lemma KeysAfterDel(s: State, t: Tid)
    requires WellFormed(s) && t < |s.pcs| && IsDel(s.pcs[t]) && PcInArena(s.pcs[t], |s.rec|) && DelStep(s, t).Some?
    requires s.addDel == Some(t) && NoDup(s.all) && (s.pcs[t].DelUnlinkAll? ==> s.pcs[t].b in s.all)
    ensures var s' := DelStep(s, t).value;
      && s'.rec == s.rec
      && KeySet(s'.all, Holder(s')) == KeySet(s.all, s.pcs[t]) - if s.pcs[t].DelUnlinkKey? then {s.pcs[t].b} else {}
  {
    var s' := DelStep(s, t).value;
    assert Holder(s') == s'.pcs[t];
    if s.pcs[t].DelUnlinkAll? {
      RemoveFromNoDup(s.all, s.pcs[t].b);
    }
  }

  lemma KeysAfterOther(s: State, t: Tid, call: Call)
    requires WellFormed(s) && t < |s.pcs| && PcInArena(s.pcs[t], |s.rec|) && Step(s, t, call).Some?
    requires (HoldsAddDel(s.pcs[t]) <==> s.addDel == Some(t)) && !s.pcs[t].Idle? && !IsAdd(s.pcs[t]) && !IsDel(s.pcs[t])
    ensures var s' := Step(s, t, call).value;
      s'.rec == s.rec && KeySet(s'.all, Holder(s')) == KeySet(s.all, Holder(s))
  {
  }

  lemma AddMoves(s: State, t: Tid)
    requires WellFormed(s) && t < |s.pcs| && IsAdd(s.pcs[t]) && PcInArena(s.pcs[t], |s.rec|) && AddStep(s, t).Some?
    ensures OnlyMoves(s, t, AddStep(s, t).value)
  {
  }

  lemma DelMoves(s: State, t: Tid)
    requires WellFormed(s) && t < |s.pcs| && IsDel(s.pcs[t]) && PcInArena(s.pcs[t], |s.rec|) && DelStep(s, t).Some?
    ensures OnlyMoves(s, t, DelStep(s, t).value) && DelStep(s, t).value.rec == s.rec
  {
  }

  lemma StepMoves(s: State, t: Tid, call: Call)
    requires WellFormed(s) && t < |s.pcs| && PcInArena(s.pcs[t], |s.rec|) && Step(s, t, call).Some?
    ensures OnlyMoves(s, t, Step(s, t, call).value)
    ensures !IsAdd(s.pcs[t]) ==> Step(s, t, call).value.rec == s.rec
  {
    if s.pcs[t].Idle? {
      StartFields(s, t, call);
    } else if IsAdd(s.pcs[t]) {
      AddMoves(s, t);
    } else if IsDel(s.pcs[t]) {
      DelMoves(s, t);
    }
  }

  // ----- Every answer is correct at the step that gives it -----

  /** A step that gives no answer. */
  lemma SilentStep(s: State, s': State, log: seq<Item>)
    requires Inv(s) && Inv(s') && KeySet(s'.all, Holder(s')) == KeySet(s.all, Holder(s))
    requires |s'.rec| == |s.rec| && forall b | b in KeySet(s.all, Holder(s)) :: b < |s.rec| && s'.rec[b] == s.rec[b]
    requires |log| <= 1 && forall i | i in log :: !i.Answered?
    ensures KeyMap(s') == KeyMap(s) && IsHistory(KeyMap(s), log, KeyMap(s'))
  {
    KeysDiffer(s);
    MapFrame(Keys(s.rec), Keys(s'.rec), KeySet(s.all, Holder(s)));
    assert log == [] || (log[0] in log && log[1..] == []);
  }

  lemma HistoryConcat(m: map<Key, Buf>, a: seq<Item>, m': map<Key, Buf>, b: seq<Item>, m'': map<Key, Buf>)
    requires IsHistory(m, a, m') && IsHistory(m', b, m'')
    ensures IsHistory(m, a + b, m'')
    decreases |a|
  {
    if a == [] {
      assert a + b == b;
    } else {
      assert (a + b)[0] == a[0] && (a + b)[1..] == a[1..] + b;
      HistoryConcat(if a[0].Answered? then After(m, a[0].op, a[0].answer) else m, a[1..], m', b, m'');
    }
  }

  lemma OneAnswer(m: map<Key, Buf>, t: Tid, op: Op, answer: Answer)
    requires Correct(m, op, answer)
    ensures IsHistory(m, [Answered(t, op, answer)], After(m, op, answer))
  {
    var log := [Answered(t, op, answer)];
    assert log[1..] == [];
  }

  lemma StartAnswers(s: State, t: Tid, call: Call, s': State)
    requires Inv(s) && t < |s.pcs| && s.pcs[t] == Idle && StartCall(s, t, call) == Some(s') && Inv(s')
    ensures IsHistory(KeyMap(s), StartLog(s, t, call), KeyMap(s'))
  {
    HolderIs(s, t);
    KeysAfterStart(s, t, call);
    KeysDiffer(s);
    if call.GetByKey? {
      SilentStep(s, s', []);
      FindKeyIsLookup(s, call.key);
      LookupHistory(KeyMap(s), t, call.key, FindKey(s.keyTab[KeyHash(call.key)], s.rec, call.key));
    } else {
      SilentStep(s, s', StartLog(s, t, call));
    }
  }

  lemma LookupHistory(m: map<Key, Buf>, t: Tid, k: Key, found: Option<Buf>)
    requires found == if k in m then Some(m[k]) else None
    ensures found == None ==> IsHistory(m, [Called(t, GetKey(k)), Answered(t, GetKey(k), Refused), Returned(t)], m)
    ensures found.Some? ==> IsHistory(m, [Called(t, GetKey(k)), Answered(t, GetKey(k), Hit(found.value))], m)
  {
    var answer := if found.Some? then Hit(found.value) else Refused;
    var c, a, r := Called(t, GetKey(k)), Answered(t, GetKey(k), answer), Returned(t);
    NoAnswer(m, c);
    NoAnswer(m, r);
    OneAnswer(m, t, GetKey(k), answer);
    HistoryConcat(m, [c], m, [a], m);
    HistoryConcat(m, [c] + [a], m, [r], m);
    assert [c] + [a] == [c, a] && [c, a] + [r] == [c, a, r];
  }

  lemma NoAnswer(m: map<Key, Buf>, i: Item)
    requires !i.Answered?
    ensures IsHistory(m, [i], m)
  {
    assert [i][1..] == [];
  }

  /** The effect of an add step on the map, as facts about the two states. */
  ghost predicate AddsKeys(s: State, s': State, more: set<Buf>) {
    && |s'.rec| == |s.rec|
    && (forall b | b in KeySet(s.all, Holder(s)) :: b < |s.rec| && s'.rec[b] == s.rec[b])
    && KeySet(s'.all, Holder(s')) == KeySet(s.all, Holder(s)) + more
  }

  lemma AddEffect(s: State, t: Tid)
    requires WellFormed(s) && t < |s.pcs| && IsAdd(s.pcs[t]) && PcInArena(s.pcs[t], |s.rec|) && AddStep(s, t).Some?
    requires s.addDel == Some(t) && forall b | b in KeySet(s.all, s.pcs[t]) :: b < |s.rec| && !Building(s.pcs[t], b)
    ensures AddsKeys(s, AddStep(s, t).value, if s.pcs[t].AddLinkKey? then {s.pcs[t].b} else {})
    ensures s.pcs[t].AddLinkKey? ==> AddStep(s, t).value.rec == s.rec
  {
    KeysAfterAdd(s, t);
    RecAfterAdd(s, t);
  }

  lemma AddAnswers(s: State, t: Tid, s': State)
    requires Inv(s) && t < |s.pcs| && IsAdd(s.pcs[t]) && PcInArena(s.pcs[t], |s.rec|) && Inv(s')
    requires AddsKeys(s, s', if s.pcs[t].AddLinkKey? then {s.pcs[t].b} else {})
    requires s.pcs[t].AddLinkKey? ==> s'.rec == s.rec
    ensures IsHistory(KeyMap(s), InnerLog(s, t), KeyMap(s'))
  {
    if s.pcs[t].AddLinkKey? {
      HolderIs(s, t);
      LinkAnswers(s, t, s.pcs[t].b, s');
    } else {
      assert KeySet(s'.all, Holder(s')) == KeySet(s.all, Holder(s));
      SilentStep(s, s', []);
      RefusedAdd(s, t);
    }
  }

  lemma NotBuilt(s: State, t: Tid)
    requires Inv(s) && t < |s.pcs| && IsAdd(s.pcs[t])
    ensures s.addDel == Some(t) && forall b | b in KeySet(s.all, s.pcs[t]) :: b < |s.rec| && !Building(s.pcs[t], b)
  {
    HolderIs(s, t);
    KeysDiffer(s);
  }

  lemma LinkAnswers(s: State, t: Tid, b: Buf, s': State)
    requires Inv(s) && Inv(s') && Holder(s) == AddLinkKey(b) && b < |s.rec| && s'.rec == s.rec
    requires KeySet(s'.all, Holder(s')) == KeySet(s.all, Holder(s)) + {b}
    ensures IsHistory(KeyMap(s), [Answered(t, AddKey(s.rec[b].key), Hit(b))], KeyMap(s'))
  {
    KeysDiffer(s);
    KeysDiffer(s');
    MapAdds(Keys(s.rec), KeySet(s.all, Holder(s)), b);
    OneAnswer(KeyMap(s), t, AddKey(s.rec[b].key), Hit(b));
  }

  lemma RefusedAdd(s: State, t: Tid)
    requires Inv(s) && t < |s.pcs| && IsAdd(s.pcs[t]) && PcInArena(s.pcs[t], |s.rec|) && !s.pcs[t].AddLinkKey?
    ensures IsHistory(KeyMap(s), InnerLog(s, t), KeyMap(s))
  {
    HolderIs(s, t);
    match s.pcs[t] {
      case AddSearch(k, _) =>
        FindKeyIsLookup(s, k);
        if k in KeyMap(s) {
          OneAnswer(KeyMap(s), t, AddKey(k), Refused);
        }
      case AddAlloc(k, _) =>
        assert k !in KeyMap(s);
        OneAnswer(KeyMap(s), t, AddKey(k), Full);
      case _ =>
    }
  }

  lemma DelAnswers(s: State, t: Tid, s': State)
    requires Inv(s) && t < |s.pcs| && IsDel(s.pcs[t]) && PcInArena(s.pcs[t], |s.rec|)
    requires DelStep(s, t) == Some(s') && Inv(s')
    ensures IsHistory(KeyMap(s), InnerLog(s, t), KeyMap(s'))
  {
    HolderIs(s, t);
    KeysAfterDel(s, t);
    KeysDiffer(s);
    if s.pcs[t].DelUnlinkKey? {
      UnlinkAnswers(s, t, s.pcs[t].b, s');
    } else {
      SilentStep(s, s', []);
      RefusedDel(s, t);
    }
  }

  lemma UnlinkAnswers(s: State, t: Tid, b: Buf, s': State)
    requires Inv(s) && Inv(s') && Holder(s) == DelUnlinkKey(b) && b < |s.rec| && s'.rec == s.rec
    requires KeySet(s'.all, Holder(s')) == KeySet(s.all, Holder(s)) - {b}
    ensures IsHistory(KeyMap(s), [Answered(t, DelKey(s.rec[b].key), Hit(b))], KeyMap(s'))
  {
    KeysDiffer(s);
    assert b in KeySet(s.all, Holder(s));
    MapDrops(Keys(s.rec), KeySet(s.all, Holder(s)), b);
    OneAnswer(KeyMap(s), t, DelKey(s.rec[b].key), Hit(b));
  }

  lemma RefusedDel(s: State, t: Tid)
    requires Inv(s) && t < |s.pcs| && IsDel(s.pcs[t]) && PcInArena(s.pcs[t], |s.rec|) && !s.pcs[t].DelUnlinkKey?
    ensures IsHistory(KeyMap(s), InnerLog(s, t), KeyMap(s))
  {
    if s.pcs[t].DelSearch? {
      FindKeyIsLookup(s, s.pcs[t].key);
      if s.pcs[t].key !in KeyMap(s) {
        OneAnswer(KeyMap(s), t, DelKey(s.pcs[t].key), Refused);
      }
    }
  }

  lemma AddStepAnswers(s: State, t: Tid, s': State)
    requires Inv(s) && t < |s.pcs| && IsAdd(s.pcs[t]) && PcInArena(s.pcs[t], |s.rec|)
    requires AddStep(s, t) == Some(s') && Inv(s')
    ensures IsHistory(KeyMap(s), InnerLog(s, t), KeyMap(s'))
  {
    NotBuilt(s, t);
    AddEffect(s, t);
    AddAnswers(s, t, s');
  }

  lemma OtherAnswers(s: State, t: Tid, call: Call, s': State)
    requires Inv(s) && t < |s.pcs| && PcInArena(s.pcs[t], |s.rec|) && Step(s, t, call) == Some(s') && Inv(s')
    requires !s.pcs[t].Idle? && !IsAdd(s.pcs[t]) && !IsDel(s.pcs[t])
    ensures IsHistory(KeyMap(s), InnerLog(s, t), KeyMap(s'))
  {
    HolderIs(s, t);
    KeysAfterOther(s, t, call);
    KeysDiffer(s);
    SilentStep(s, s', InnerLog(s, t));
  }

  lemma StepAnswers(s: State, t: Tid, call: Call, s': State)
    requires Inv(s) && t < |s.pcs| && PcInArena(s.pcs[t], |s.rec|) && Step(s, t, call) == Some(s') && Inv(s')
    ensures IsHistory(KeyMap(s), if s.pcs[t].Idle? then StartLog(s, t, call) else InnerLog(s, t), KeyMap(s'))
  {
    if s.pcs[t].Idle? {
      StartAnswers(s, t, call, s');
    } else if IsAdd(s.pcs[t]) {
      AddStepAnswers(s, t, s');
    } else if IsDel(s.pcs[t]) {
      DelAnswers(s, t, s');
    } else {
      OtherAnswers(s, t, call, s');
    }
  }

  lemma MoveAnswers(s: State, m: Move)
    requires Inv(s) && Roomy(s)
    ensures Inv(Next(s, m)) && IsHistory(KeyMap(s), MoveLog(s, m), KeyMap(Next(s, m)))
  {
    if m.t < |s.pcs| && PcInArena(s.pcs[m.t], |s.rec|) && Step(s, m.t, m.call).Some? {
      StepKeepsInv(s, m.t, m.call);
      StepAnswers(s, m.t, m.call, Next(s, m));
    }
  }

  // ----- Every thread takes turns -----

  lemma TurnsConcat(p: Phase, t: Tid, a: seq<Item>, p': Phase, b: seq<Item>, p'': Phase)
    requires TakesTurns(p, t, a, p') && TakesTurns(p', t, b, p'')
    ensures TakesTurns(p, t, a + b, p'')
    decreases |a|
  {
    if a == [] {
      assert a + b == b;
    } else {
      assert (a + b)[0] == a[0] && (a + b)[1..] == a[1..] + b;
      TurnsConcat(PhaseAfter(p, t, a[0]).value, t, a[1..], p', b, p'');
    }
  }

  /** The other threads' items do not concern this one. */
  lemma {:induction false} OthersTurns(p: Phase, u: Tid, log: seq<Item>)
    requires forall i | i in log :: i.t != u
    ensures TakesTurns(p, u, log, p)
    decreases |log|
  {
    if log == [] {
    } else {
      assert log[0] in log && forall i | i in log[1..] :: i in log;
      OthersTurns(p, u, log[1..]);
    }
  }

  lemma OneTurn(p: Phase, t: Tid, i: Item)
    requires PhaseAfter(p, t, i).Some?
    ensures TakesTurns(p, t, [i], PhaseAfter(p, t, i).value)
  {
    assert [i][1..] == [];
  }

  lemma TwoTurns(p: Phase, t: Tid, i: Item, j: Item)
    requires PhaseAfter(p, t, i).Some? && PhaseAfter(PhaseAfter(p, t, i).value, t, j).Some?
    ensures TakesTurns(p, t, [i, j], PhaseAfter(PhaseAfter(p, t, i).value, t, j).value)
  {
    OneTurn(PhaseAfter(p, t, i).value, t, j);
    assert [i, j][1..] == [j];
  }

  lemma LookupTurn(t: Tid, k: Key, found: Option<Buf>)
    ensures found.None? ==>
      TakesTurns(Outside, t, [Called(t, GetKey(k)), Answered(t, GetKey(k), Refused), Returned(t)], Outside)
    ensures found.Some? ==>
      TakesTurns(Outside, t, [Called(t, GetKey(k)), Answered(t, GetKey(k), Hit(found.value))], Settled)
  {
    var answer := if found.Some? then Hit(found.value) else Refused;
    var c, a, r := Called(t, GetKey(k)), Answered(t, GetKey(k), answer), Returned(t);
    TwoTurns(Outside, t, c, a);
    OneTurn(Settled, t, r);
    TurnsConcat(Outside, t, [c, a], Settled, [r], Outside);
    assert [c, a] + [r] == [c, a, r];
  }

  lemma StartTurn(s: State, t: Tid, call: Call, s': State)
    requires WellFormed(s) && t < |s.pcs| && s.pcs[t] == Idle && StartCall(s, t, call) == Some(s')
    requires |s'.pcs| == |s.pcs| && PcInArena(s'.pcs[t], |s'.rec|)
    ensures TakesTurns(Outside, t, StartLog(s, t, call), PhaseOf(s', t))
  {
    match call {
      case Add(k, _) => OneTurn(Outside, t, Called(t, AddKey(k)));
      case Del(k) => OneTurn(Outside, t, Called(t, DelKey(k)));
      case GetByKey(k) => LookupTurn(t, k, FindKey(s.keyTab[KeyHash(k)], s.rec, k));
      case _ =>
    }
  }

  lemma InnerTurn(s: State, t: Tid, call: Call, s': State)
    requires WellFormed(s) && t < |s.pcs| && s.pcs[t] != Idle && PcInArena(s.pcs[t], |s.rec|)
    requires Step(s, t, call) == Some(s') && |s'.pcs| == |s.pcs| && PcInArena(s'.pcs[t], |s'.rec|)
    ensures TakesTurns(PhaseOf(s, t), t, InnerLog(s, t), PhaseOf(s', t))
  {
    if InnerLog(s, t) != [] {
      OneTurn(PhaseOf(s, t), t, InnerLog(s, t)[0]);
      assert InnerLog(s, t) == [InnerLog(s, t)[0]];
    }
  }

  /** No other thread's call is disturbed. */
  lemma OtherPhase(s: State, t: Tid, call: Call, s': State, u: Tid)
    requires Inv(s) && t < |s.pcs| && PcInArena(s.pcs[t], |s.rec|) && Step(s, t, call) == Some(s')
    requires u < |s.pcs| && u != t && PcInArena(s.pcs[u], |s.rec|)
    ensures OnlyMoves(s, t, s') && PcInArena(s'.pcs[u], |s'.rec|) && PhaseOf(s', u) == PhaseOf(s, u)
  {
    StepMoves(s, t, call);
    if IsAdd(s.pcs[t]) {
      HolderIs(s, t);
      HolderIs(s, u);
    }
  }

  lemma LogIsOwn(s: State, m: Move)
    ensures forall i | i in MoveLog(s, m) :: i.t == m.t
  {
  }

  lemma MoveTurn(s: State, m: Move, u: Tid)
    requires Inv(s) && Roomy(s) && u < |s.pcs|
    ensures Inv(Next(s, m)) && |Next(s, m).pcs| == |s.pcs|
    ensures PcInArena(s.pcs[u], |s.rec|) && PcInArena(Next(s, m).pcs[u], |Next(s, m).rec|)
    ensures TakesTurns(PhaseOf(s, u), u, MoveLog(s, m), PhaseOf(Next(s, m), u))
  {
    MoveAnswers(s, m);
    PcFits(s, u);
    if m.t < |s.pcs| && PcInArena(s.pcs[m.t], |s.rec|) && Step(s, m.t, m.call).Some? {
      var s' := Next(s, m);
      if m.t != u {
        OtherPhase(s, m.t, m.call, s', u);
        LogIsOwn(s, m);
        OthersTurns(PhaseOf(s, u), u, MoveLog(s, m));
      } else {
        StepMoves(s, u, m.call);
        PcFits(s', u);
        if s.pcs[u].Idle? {
          StartTurn(s, u, m.call, s');
        } else {
          InnerTurn(s, u, m.call, s');
        }
      }
    }
  }

  // ----- Whole runs -----

  lemma {:induction false} RunAnswers(s: State, moves: seq<Move>, s': State)
    requires Inv(s) && Reaches(s, moves, s')
    ensures Inv(s') && IsHistory(KeyMap(s), Log(s, moves), KeyMap(s'))
    decreases |moves|
  {
    RunKeepsInv(s, moves, s');
    if moves == [] {
    } else {
      var next := Next(s, moves[0]);
      MoveAnswers(s, moves[0]);
      RunAnswers(next, moves[1..], s');
      HistoryConcat(KeyMap(s), MoveLog(s, moves[0]), KeyMap(next), Log(next, moves[1..]), KeyMap(s'));
    }
  }

  lemma {:induction false} RunTurns(s: State, moves: seq<Move>, s': State, u: Tid)
    requires Inv(s) && Reaches(s, moves, s') && u < |s.pcs|
    ensures Inv(s') && |s'.pcs| == |s.pcs|
    ensures PcInArena(s.pcs[u], |s.rec|) && PcInArena(s'.pcs[u], |s'.rec|)
    ensures TakesTurns(PhaseOf(s, u), u, Log(s, moves), PhaseOf(s', u))
    decreases |moves|
  {
    RunKeepsInv(s, moves, s');
    PcFits(s, u);
    if moves == [] {
    } else {
      var next := Next(s, moves[0]);
      MoveTurn(s, moves[0], u);
      RunTurns(next, moves[1..], s', u);
      TurnsConcat(PhaseOf(s, u), u, MoveLog(s, moves[0]), PhaseOf(next, u), Log(next, moves[1..]), PhaseOf(s', u));
    }
  }

  /**
   Adds, deletes and lookups by key are linearizable: in every run each thread's calls are answered
   between call and return, and all answers, in the order in which they were given, are those of
   one map, which is at the end the map that lookups see.
   */
  lemma KeyCallsLinearize(cap: nat, threads: nat, moves: seq<Move>, s: State)
    requires IsRun(cap, threads, moves, s)
    ensures Inv(s) && |s.pcs| == threads
    ensures IsHistory(map[], Log(Init(cap, threads), moves), KeyMap(s))
    ensures forall t | 0 <= t < threads ::
      PcInArena(s.pcs[t], |s.rec|) && TakesTurns(Outside, t, Log(Init(cap, threads), moves), PhaseOf(s, t))
  {
    var s0 := Init(cap, threads);
    InitInv(cap, threads);
    assert KeyMap(s0) == map[];
    RunAnswers(s0, moves, s);
    RunLength(s0, moves, s);
    forall t | 0 <= t < threads
      ensures PcInArena(s.pcs[t], |s.rec|) && TakesTurns(Outside, t, Log(s0, moves), PhaseOf(s, t))
    {
      RunTurns(s0, moves, s, t);
    }
  }

  lemma RunLength(s: State, moves: seq<Move>, s': State)
    requires Reaches(s, moves, s')
    ensures |s'.pcs| == |s.pcs|
    decreases |moves|
  {
    if moves == [] {
    } else {
      var m := moves[0];
      if m.t < |s.pcs| && WellFormed(s) && PcInArena(s.pcs[m.t], |s.rec|) && Step(s, m.t, m.call).Some? {
        StepMoves(s, m.t, m.call);
      }
      RunLength(Next(s, moves[0]), moves[1..], s');
    }
  }
}
