/**
 An entry that only one of the two indices knows: schedules of two threads from the empty table to
 the middle of an add and to the middle of a delete, where the second thread's lookups disagree.
 */
module TabHalf {
  import opened Common
  import opened TabBase
  import opened TabSteps

  // ----- Half linked -----

  /** The first add to a table, up to the point where the entry is linked by its id only. */
  function HalfLinked(k: Key, v: nat): State {
    var s := Init(1, 2);
    s.(free := [], rec := [Rec(1, k, v)], ref := [1], idTab := s.idTab[1 := [0]], nextId := 2,
       addDel := Some(0), pcs := [AddLinkKey(0), Idle])
  }

  lemma BuildsFirst(k: Key, v: nat) returns (moves: seq<Move>, s: State)
    ensures IsRun(1, 2, moves, s) && s == Init(1, 2).(free := [], addDel := Some(0), pcs := [AddGenId(k, v, 0), Idle])
  {
    var m, s0 := Move(0, Add(k, v)), Init(1, 2);
    var s1 := s0.(addDel := Some(0), pcs := [AddSearch(k, v), Idle]);
    assert s0.pcs[0 := AddSearch(k, v)] == s1.pcs && Next(s0, m) == s1;
    OneMoveMore(s0, [], s0, m);
    var s2 := s1.(pcs := [AddAlloc(k, v), Idle]);
    assert s1.pcs[0 := AddAlloc(k, v)] == s2.pcs && Next(s1, m) == s2;
    OneMoveMore(s0, [] + [m], s1, m);
    s := s2.(free := [], pcs := [AddGenId(k, v, 0), Idle]);
    assert s2.free[0] == 0 && s2.free[1..] == [] && s2.pcs[0 := AddGenId(k, v, 0)] == s.pcs && Next(s2, m) == s;
    OneMoveMore(s0, [] + [m] + [m], s2, m);
    moves := [] + [m] + [m] + [m];
  }

  lemma LinksIdOnly(k: Key, v: nat, s3: State)
    requires s3 == Init(1, 2).(free := [], addDel := Some(0), pcs := [AddGenId(k, v, 0), Idle])
    ensures Next(Next(s3, Move(0, Add(k, v))), Move(0, Add(k, v))) == HalfLinked(k, v)
    ensures Roomy(s3) && Roomy(Next(s3, Move(0, Add(k, v))))
  {
    var m := Move(0, Add(k, v));
    var s4 := s3.(rec := [Rec(1, k, v)], ref := [1], nextId := 2, pcs := [AddLinkId(0), Idle]);
    assert s3.rec[0 := Rec(1, k, v)] == s4.rec && s3.ref[0 := 1] == s4.ref && s3.pcs[0 := AddLinkId(0)] == s4.pcs;
    assert Next(s3, m) == s4;
    var s5 := HalfLinked(k, v);
    assert [0] + s4.idTab[1] == [0] && s4.pcs[0 := AddLinkKey(0)] == s5.pcs;
  }

  lemma OneIndexAnswers(k: Key, v: nat)
    ensures Next(HalfLinked(k, v), Move(1, GetById(1))).pcs[1] == GetIdFound(1, 0)
    ensures Next(HalfLinked(k, v), Move(1, GetByKey(k))) == HalfLinked(k, v)
  {
  }

  /**
   In this reachable state the other thread finds the new entry by its id, and at the same time
   finds nothing by its key.
   */
  lemma HalfLinkedHappens(k: Key, v: nat) returns (moves: seq<Move>)
    ensures IsRun(1, 2, moves, HalfLinked(k, v)) && Holder(HalfLinked(k, v)) == AddLinkKey(0)
    ensures Next(HalfLinked(k, v), Move(1, GetById(1))).pcs[1] == GetIdFound(1, 0)
    ensures Next(HalfLinked(k, v), Move(1, GetByKey(k))) == HalfLinked(k, v)
  {
    var ms, s3 := BuildsFirst(k, v);
    var m := Move(0, Add(k, v));
    LinksIdOnly(k, v, s3);
    OneMoveMore(Init(1, 2), ms, s3, m);
    OneMoveMore(Init(1, 2), ms + [m], Next(s3, m), m);
    moves := ms + [m] + [m];
    OneIndexAnswers(k, v);
  }

  // ----- Half unlinked -----

  /** Both lists hold the entry; the all-list and the counter as given. */
  function Keyed(k: Key, v: nat, all: seq<Buf>, num: int, pc: Pc): State {
    var s := Init(1, 2);
    s.(free := [], rec := [Rec(1, k, v)], ref := [1], idTab := s.idTab[1 := [0]],
       keyTab := s.keyTab[KeyHash(k) := [0]], all := all, num := num, nextId := 2,
       addDel := if pc == Idle then None else Some(0), pcs := [pc, Idle])
  }

  /** The first delete, up to the point where the entry is unlinked by its id only. */
  function HalfUnlinked(k: Key, v: nat): State {
    var s := Init(1, 2);
    Keyed(k, v, [0], 1, DelUnlinkKey(0)).(idTab := s.idTab)
  }

  lemma LinksKeyToo(k: Key, v: nat)
    ensures Next(HalfLinked(k, v), Move(0, Add(k, v))) == Keyed(k, v, [], 0, AddLinkAll(0))
  {
    var s, s' := HalfLinked(k, v), Keyed(k, v, [], 0, AddLinkAll(0));
    assert [0] + s.keyTab[KeyHash(k)] == [0] && s.pcs[0 := AddLinkAll(0)] == s'.pcs;
  }

  lemma LinksAll(k: Key, v: nat, m: Move)
    requires m.t == 0
    ensures Next(Keyed(k, v, [], 0, AddLinkAll(0)), m) == Keyed(k, v, [0], 0, AddCount(0))
    ensures Next(Keyed(k, v, [0], 0, AddCount(0)), m) == Keyed(k, v, [0], 1, Unlock)
  {
    var s, s1, s2 := Keyed(k, v, [], 0, AddLinkAll(0)), Keyed(k, v, [0], 0, AddCount(0)), Keyed(k, v, [0], 1, Unlock);
    assert [0] + s.all == [0] && s.pcs[0 := AddCount(0)] == s1.pcs && s1.pcs[0 := Unlock] == s2.pcs;
  }

  lemma Unlocks(k: Key, v: nat, m: Move)
    requires m.t == 0
    ensures Next(Keyed(k, v, [0], 1, Unlock), m) == Keyed(k, v, [0], 1, Idle)
  {
    assert Keyed(k, v, [0], 1, Unlock).pcs[0 := Idle] == Keyed(k, v, [0], 1, Idle).pcs;
  }

  lemma Locks(k: Key, v: nat)
    ensures Next(Keyed(k, v, [0], 1, Idle), Move(0, Del(k))) == Keyed(k, v, [0], 1, DelSearch(k))
  {
    assert Keyed(k, v, [0], 1, Idle).pcs[0 := DelSearch(k)] == Keyed(k, v, [0], 1, DelSearch(k)).pcs;
  }

  lemma FindsEntry(k: Key, v: nat)
    ensures Next(Keyed(k, v, [0], 1, DelSearch(k)), Move(0, Del(k))) == Keyed(k, v, [0], 1, DelUnlinkId(0))
  {
    var s := Keyed(k, v, [0], 1, DelSearch(k));
    assert FindKey(s.keyTab[KeyHash(k)], s.rec, k) == Some(0);
    assert s.pcs[0 := DelUnlinkId(0)] == Keyed(k, v, [0], 1, DelUnlinkId(0)).pcs;
  }

  lemma UnlinksId(k: Key, v: nat)
    ensures Next(Keyed(k, v, [0], 1, DelUnlinkId(0)), Move(0, Del(k))) == HalfUnlinked(k, v)
  {
    var s := Keyed(k, v, [0], 1, DelUnlinkId(0));
    assert s.pcs[0 := DelUnlinkKey(0)] == HalfUnlinked(k, v).pcs;
    assert Remove(s.idTab[1], 0) == [] && s.idTab[1 := []] == HalfUnlinked(k, v).idTab;
  }

  lemma OtherIndexAnswers(k: Key, v: nat)
    ensures Next(HalfUnlinked(k, v), Move(1, GetByKey(k))).pcs[1] == GetKeyFound(KeyHash(k), 0)
    ensures Next(HalfUnlinked(k, v), Move(1, GetById(1))) == HalfUnlinked(k, v)
  {
  }

  lemma AddCompletes(k: Key, v: nat) returns (moves: seq<Move>)
    ensures IsRun(1, 2, moves, Keyed(k, v, [0], 1, Idle))
  {
    var m := Move(0, Add(k, v));
    var ms := HalfLinkedHappens(k, v);
    LinksKeyToo(k, v);
    LinksAll(k, v, m);
    Unlocks(k, v, m);
    OneMoveMore(Init(1, 2), ms, HalfLinked(k, v), m);
    OneMoveMore(Init(1, 2), ms + [m], Keyed(k, v, [], 0, AddLinkAll(0)), m);
    OneMoveMore(Init(1, 2), ms + [m] + [m], Keyed(k, v, [0], 0, AddCount(0)), m);
    OneMoveMore(Init(1, 2), ms + [m] + [m] + [m], Keyed(k, v, [0], 1, Unlock), m);
    moves := ms + [m] + [m] + [m] + [m];
  }

  lemma DelBegins(k: Key, v: nat) returns (moves: seq<Move>)
    ensures IsRun(1, 2, moves, Keyed(k, v, [0], 1, DelUnlinkId(0)))
  {
    var m := Move(0, Del(k));
    var ms := AddCompletes(k, v);
    Locks(k, v);
    FindsEntry(k, v);
    OneMoveMore(Init(1, 2), ms, Keyed(k, v, [0], 1, Idle), m);
    OneMoveMore(Init(1, 2), ms + [m], Keyed(k, v, [0], 1, DelSearch(k)), m);
    moves := ms + [m] + [m];
  }

  /**
   In this reachable state the other thread finds the entry by its key, and at the same time finds
   nothing by its id.
   */
  lemma HalfUnlinkedHappens(k: Key, v: nat) returns (moves: seq<Move>)
    ensures IsRun(1, 2, moves, HalfUnlinked(k, v)) && Holder(HalfUnlinked(k, v)) == DelUnlinkKey(0)
    ensures Next(HalfUnlinked(k, v), Move(1, GetByKey(k))).pcs[1] == GetKeyFound(KeyHash(k), 0)
    ensures Next(HalfUnlinked(k, v), Move(1, GetById(1))) == HalfUnlinked(k, v)
  {
    var m := Move(0, Del(k));
    var ms := DelBegins(k, v);
    UnlinksId(k, v);
    OneMoveMore(Init(1, 2), ms, Keyed(k, v, [0], 1, DelUnlinkId(0)), m);
    moves := ms + [m];
    OtherIndexAnswers(k, v);
  }
}
