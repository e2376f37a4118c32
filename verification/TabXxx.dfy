/**
 The table as one thread sees it.

 It is an object whose methods run from the taking of the first lock to the release of the last
 one.  Its states are the states of TabSteps with one idle thread, and every call is a run of
 that machine.

 What the table means is a map from keys to entries.
 */
module TabXxx {
  import opened Common
  import opened TabBase
  import opened TabHistory
  import opened TabIds
  import opened TabRuns
  import TabSteps

  // ----- What the calls mean -----

  lemma ListGains<K>(keys: seq<K>, keys': seq<K>, all: seq<Buf>, b: Buf)
    requires DistinctKeys(keys, TabSteps.AllSet(all)) && b !in all
    requires DistinctKeys(keys', TabSteps.AllSet([b] + all))
    requires |keys'| == |keys| && forall c | c in TabSteps.AllSet(all) :: keys'[c] == keys[c]
    ensures b < |keys'| && keys'[b] !in MapOf(keys, TabSteps.AllSet(all))
    ensures MapOf(keys', TabSteps.AllSet([b] + all)) == MapOf(keys, TabSteps.AllSet(all))[keys'[b] := b]
  {
    MapFrame(keys, keys', TabSteps.AllSet(all));
    assert TabSteps.AllSet([b] + all) == TabSteps.AllSet(all) + {b};
    MapAdds(keys', TabSteps.AllSet(all), b);
  }

  lemma ListLoses<K>(keys: seq<K>, all: seq<Buf>, b: Buf)
    requires NoDup(all) && DistinctKeys(keys, TabSteps.AllSet(all)) && b in all
    ensures DistinctKeys(keys, TabSteps.AllSet(Remove(all, b))) && b < |keys|
    ensures MapOf(keys, TabSteps.AllSet(Remove(all, b))) == MapOf(keys, TabSteps.AllSet(all)) - {keys[b]}
  {
    RemoveFromNoDup(all, b);
    assert b in TabSteps.AllSet(all);
    assert TabSteps.AllSet(Remove(all, b)) == TabSteps.AllSet(all) - {b};
    MapDrops(keys, TabSteps.AllSet(all), b);
  }

  /** Between calls the lists, the counter and the pool tell one story. */
  lemma QuietFacts(s: TabSteps.State)
    requires Quiet(s)
    ensures TabSteps.WellFormed(s) && NoDup(s.all) && s.num == |s.all|
    ensures TabSteps.KeySet(s.all, TabSteps.Holder(s)) == TabSteps.AllSet(s.all)
    ensures DistinctKeys(Keys(s.rec), TabSteps.AllSet(s.all)) && KeyMap(s) == MapOf(Keys(s.rec), TabSteps.AllSet(s.all))
    ensures DistinctKeys(IdNumbers(s.rec), TabSteps.AllSet(s.all))
    ensures IdMap(s) == MapOf(IdNumbers(s.rec), TabSteps.AllSet(s.all))
    ensures forall b | b in s.all ::
      b < |s.rec| && b in s.keyTab[KeyHash(s.rec[b].key)] && b in s.idTab[IdHash(s.rec[b].id)]
    ensures forall l, b | 0 <= l < MAX_HASH_LINE_NUM && (b in s.keyTab[l] || b in s.idTab[l]) :: b in s.all
  {
    assert TabSteps.Holder(s) == TabSteps.Idle;
    KeysDiffer(s);
    IdsDiffer(s);
    forall b | b in s.all
      ensures b < |s.rec| && b in s.keyTab[KeyHash(s.rec[b].key)] && b in s.idTab[IdHash(s.rec[b].id)]
    {
      assert b in TabSteps.AllSet(s.all);
      assert KeyLines(s.rec)[b] == KeyHash(s.rec[b].key) && IdLines(s.rec)[b] == IdHash(s.rec[b].id);
    }
  }

  lemma FindIdIsLookup(s: TabSteps.State, id: nat)
    requires Quiet(s)
    ensures TabSteps.WellFormed(s)
    ensures var f := FindId(s.idTab[IdHash(id)], s.rec, id);
      && (f.Some? <==> id in Ids(s.rec, s.all))
      && (f.Some? ==> f.value in s.all && s.rec[f.value].id == id)
  {
    QuietFacts(s);
    LookupId(s, id);
  }

  lemma HandleFits(s: TabSteps.State, b: Buf)
    requires Quiet(s) && b in s.handles
    ensures TabSteps.WellFormed(s) && b < |s.ref|
  {
  }

  /** A buffer's count, seen between calls. */
  lemma QuietRef(s: TabSteps.State, b: Buf)
    requires Quiet(s) && b < |s.ref|
    ensures b in s.free ==> b !in s.all && s.handles[b] == 0
    ensures b !in s.free ==> s.ref[b] == (if b in s.all then 1 else 0) + s.handles[b] >= 1
  {
    assert TabSteps.Holder(s) == TabSteps.Idle;
    assert TabSteps.BufOk(b in s.free, false, b in TabSteps.AllSet(s.all), s.ref[b], s.handles[b], s.pcs, b);
  }

  /**
   An add fails on a known key or an empty pool; else both maps gain the first free buffer, under the
   key and under an id that was not in use, and the buffer holds what was given.
   */
  lemma AddMeans(s: TabSteps.State, k: Key, v: nat)
    requires Quiet(s) && TabSteps.Roomy(s) && CanEnd(s, k)
    ensures Quiet(AddSpec(s, k, v).0)
    ensures var (s', r) := AddSpec(s, k, v);
      && (r == Err(EEXIST) <==> k in KeyMap(s))
      && (r == Err(ENOMEM) <==> k !in KeyMap(s) && s.free == [])
      && (r.Err? ==> s' == s && r.errno != ESRCH)
      && (r.Ok? ==> s.free != [] && Added(s, s', s.free[0], Rec(r.value, k, v)))
  {
    AddRuns(s, k, v);
    FindKeyIsLookup(s, k);
    if AddSpec(s, k, v).1.Ok? {
      AddOkMeans(s, k, v);
    }
  }

  ghost predicate Added(s: TabSteps.State, s': TabSteps.State, b: Buf, r: Rec)
    requires Quiet(s) && Quiet(s')
  {
    && b < |s.rec| && r.id !in IdMap(s) && s'.rec == s.rec[b := r] && s'.handles == s.handles
    && KeyMap(s') == KeyMap(s)[r.key := b] && IdMap(s') == IdMap(s)[r.id := b]
  }

  lemma AddOkMeans(s: TabSteps.State, k: Key, v: nat)
    requires Quiet(s) && TabSteps.Roomy(s) && CanEnd(s, k) && Quiet(AddSpec(s, k, v).0) && AddSpec(s, k, v).1.Ok?
    ensures s.free != [] && Added(s, AddSpec(s, k, v).0, s.free[0], Rec(AddSpec(s, k, v).1.value, k, v))
  {
    Fits(s);
    var s', used := AddFields(s, k, v);
    assert s.free[0] in s.free;
    QuietRef(s, s.free[0]);
    KeyGained(s, s', s.free[0], s'.rec[s.free[0]]);
    IdGained(s, s', s.free[0], s'.rec[s.free[0]]);
  }

  lemma OthersKeepFields(rec: seq<Rec>, all: seq<Buf>, b: Buf, r: Rec)
    requires b < |rec| && b !in all && forall c | c in all :: c < |rec|
    ensures forall c | c in TabSteps.AllSet(all) :: Keys(rec[b := r])[c] == Keys(rec)[c]
    ensures forall c | c in TabSteps.AllSet(all) :: IdNumbers(rec[b := r])[c] == IdNumbers(rec)[c]
    ensures Keys(rec[b := r])[b] == r.key && IdNumbers(rec[b := r])[b] == r.id
  {
  }

  lemma KeyGained(s: TabSteps.State, s': TabSteps.State, b: Buf, r: Rec)
    requires Quiet(s) && Quiet(s') && b < |s.rec| && b !in s.all && s'.rec == s.rec[b := r] && s'.all == [b] + s.all
    ensures KeyMap(s') == KeyMap(s)[r.key := b]
  {
    QuietFacts(s);
    QuietFacts(s');
    OthersKeepFields(s.rec, s.all, b, r);
    ListGains(Keys(s.rec), Keys(s'.rec), s.all, b);
  }

  lemma IdGained(s: TabSteps.State, s': TabSteps.State, b: Buf, r: Rec)
    requires Quiet(s) && Quiet(s') && b < |s.rec| && b !in s.all && s'.rec == s.rec[b := r] && s'.all == [b] + s.all
    ensures r.id !in IdMap(s) && IdMap(s') == IdMap(s)[r.id := b]
  {
    QuietFacts(s);
    QuietFacts(s');
    OthersKeepFields(s.rec, s.all, b, r);
    ListGains(IdNumbers(s.rec), IdNumbers(s'.rec), s.all, b);
  }

  /** A delete fails on an unknown key; else both maps lose the entry, under its key and its id. */
  lemma DelMeans(s: TabSteps.State, k: Key)
    requires Quiet(s) && TabSteps.WellFormed(s) && TabSteps.Roomy(s)
    ensures Quiet(DelSpec(s, k).0)
    ensures var (s', r) := DelSpec(s, k);
      && r == (if k in KeyMap(s) then Ok(0) else Err(ESRCH))
      && (k !in KeyMap(s) ==> s' == s)
      && (k in KeyMap(s) ==> Removed(s, s', KeyMap(s)[k]) && s.rec[KeyMap(s)[k]].key == k)
  {
    DelRuns(s, k);
    FindKeyIsLookup(s, k);
    if FindKey(s.keyTab[KeyHash(k)], s.rec, k).Some? {
      DelOkMeans(s, k, FindKey(s.keyTab[KeyHash(k)], s.rec, k).value);
    } else {
      DelMisses(s, k);
    }
  }

  ghost predicate Removed(s: TabSteps.State, s': TabSteps.State, b: Buf)
    requires Quiet(s) && Quiet(s')
  {
    && b < |s.rec| && s'.rec == s.rec && s'.handles == s.handles
    && KeyMap(s') == KeyMap(s) - {s.rec[b].key} && IdMap(s') == IdMap(s) - {s.rec[b].id}
  }

  lemma DelOkMeans(s: TabSteps.State, k: Key, b: Buf)
    requires Quiet(s) && TabSteps.WellFormed(s) && TabSteps.Roomy(s) && Quiet(DelSpec(s, k).0)
    requires FindKey(s.keyTab[KeyHash(k)], s.rec, k) == Some(b)
    ensures DelSpec(s, k).1 == Ok(0) && Removed(s, DelSpec(s, k).0, b) && s.rec[b].key == k
  {
    var s' := DelFields(s, k, b);
    QuietFacts(s);
    assert b in s.all;
    Lost(s, s', b);
  }

  lemma Lost(s: TabSteps.State, s': TabSteps.State, b: Buf)
    requires Quiet(s) && Quiet(s') && b in s.all && s'.rec == s.rec && s'.all == Remove(s.all, b)
    ensures b < |s.rec|
    ensures KeyMap(s') == KeyMap(s) - {s.rec[b].key} && IdMap(s') == IdMap(s) - {s.rec[b].id}
  {
    QuietFacts(s);
    QuietFacts(s');
    ListLoses(Keys(s.rec), s.all, b);
    ListLoses(IdNumbers(s.rec), s.all, b);
  }

  /** The same entries, with the same fields. */
  ghost predicate SameEntries(s: TabSteps.State, s': TabSteps.State)
    requires Quiet(s) && Quiet(s')
  {
    s'.rec == s.rec && KeyMap(s') == KeyMap(s) && IdMap(s') == IdMap(s)
  }

  lemma EntriesStay(s: TabSteps.State, s': TabSteps.State)
    requires Quiet(s) && Quiet(s') && s'.rec == s.rec && s'.all == s.all
    ensures SameEntries(s, s')
  {
    QuietFacts(s);
    QuietFacts(s');
  }

  /** A lookup by key returns what the map has, and the caller gets a handle on just that. */
  lemma GetByKeyMeans(s: TabSteps.State, k: Key)
    requires Quiet(s) && TabSteps.WellFormed(s) && TabSteps.Roomy(s)
    ensures Quiet(GetByKeySpec(s, k).0)
    ensures var (s', r) := GetByKeySpec(s, k);
      && r == (if k in KeyMap(s) then Some(KeyMap(s)[k]) else None)
      && SameEntries(s, s') && s'.handles == s.handles + (if r.Some? then multiset{r.value} else multiset{})
  {
    GetByKeyRuns(s, k);
    FindKeyIsLookup(s, k);
    EntriesStay(s, GetByKeySpec(s, k).0);
  }

  /** The same of a lookup by id and the map of ids. */
  lemma GetByIdMeans(s: TabSteps.State, id: nat)
    requires Quiet(s) && TabSteps.WellFormed(s) && TabSteps.Roomy(s)
    ensures Quiet(GetByIdSpec(s, id).0)
    ensures var (s', r) := GetByIdSpec(s, id);
      && r == (if id in IdMap(s) then Some(IdMap(s)[id]) else None)
      && SameEntries(s, s') && s'.handles == s.handles + (if r.Some? then multiset{r.value} else multiset{})
  {
    GetByIdRuns(s, id);
    TabIds.FindIdIsLookup(s, id);
    EntriesStay(s, GetByIdSpec(s, id).0);
  }

  /** A put takes one handle back and touches no entry. */
  lemma PutMeans(s: TabSteps.State, b: Buf)
    requires Quiet(s) && TabSteps.Roomy(s) && b in s.handles
    ensures TabSteps.WellFormed(s) && b < |s.ref| && Quiet(PutSpec(s, b))
    ensures SameEntries(s, PutSpec(s, b)) && PutSpec(s, b).handles == s.handles - multiset{b}
  {
    HandleFits(s, b);
    PutRuns(s, b);
    EntriesStay(s, PutSpec(s, b));
  }

  /** What dropping one reference does to a count that cannot wrap. */
  lemma DropRefFields(s: TabSteps.State, b: Buf)
    requires b < |s.ref| && 1 <= s.ref[b] < UINT32
    ensures var s' := DropRef(s, b);
      s'.ref == s.ref[b := s.ref[b] - 1] && s'.free == if s.ref[b] == 1 then s.free + [b] else s.free
  {
    assert (s.ref[b] + UINT32 - 1) % UINT32 == s.ref[b] - 1;
  }

  /** A buffer somebody refers to: its count is the table's reference, if any, and the handles. */
  lemma CountOf(s: TabSteps.State, b: Buf)
    requires Quiet(s) && TabSteps.Roomy(s) && (b in s.handles || b in s.all)
    ensures b < |s.ref| && 1 <= s.ref[b] < UINT32
    ensures s.ref[b] == (if b in s.all then 1 else 0) + s.handles[b]
  {
    QuietFacts(s);
    QuietRef(s, b);
  }

  lemma DelFound(s: TabSteps.State, k: Key, b: Buf)
    requires TabSteps.WellFormed(s) && FindKey(s.keyTab[KeyHash(k)], s.rec, k) == Some(b)
    requires b < |s.ref| && 1 <= s.ref[b] < UINT32
    ensures var s' := DelSpec(s, k).0;
      s'.ref == s.ref[b := s.ref[b] - 1] && s'.free == if s.ref[b] == 1 then s.free + [b] else s.free
  {
    DropRefFields(Unlinked(s, b), b);
  }

  lemma ListedCount(s: TabSteps.State, k: Key) returns (b: Buf)
    requires Quiet(s) && TabSteps.WellFormed(s) && TabSteps.Roomy(s) && k in KeyMap(s)
    ensures b == KeyMap(s)[k] && FindKey(s.keyTab[KeyHash(k)], s.rec, k) == Some(b)
    ensures b < |s.ref| && 1 <= s.ref[b] < UINT32 && s.ref[b] == 1 + s.handles[b]
  {
    b := KeyMap(s)[k];
    FindKeyIsLookup(s, k);
    CountOf(s, b);
  }

  /** After a delete the buffer is free exactly if nobody holds a handle on it. */
  lemma DelKeepsHandlesAlive(s: TabSteps.State, k: Key)
    requires Quiet(s) && TabSteps.WellFormed(s) && TabSteps.Roomy(s) && k in KeyMap(s)
    ensures var (s', b) := (DelSpec(s, k).0, KeyMap(s)[k]);
      && b < |s.ref| && s'.ref == s.ref[b := s.handles[b]]
      && s'.free == if s.handles[b] == 0 then s.free + [b] else s.free
  {
    var b := ListedCount(s, k);
    DelFound(s, k, b);
  }

  /** A put frees the buffer exactly if it was the last handle and the table has dropped the entry. */
  lemma LastPutFrees(s: TabSteps.State, b: Buf)
    requires Quiet(s) && TabSteps.Roomy(s) && b in s.handles
    ensures b < |s.ref|
    ensures var s' := PutSpec(s, b);
      && s'.ref == s.ref[b := (if b in s.all then 1 else 0) + s.handles[b] - 1]
      && s'.free == if b !in s.all && s.handles[b] == 1 then s.free + [b] else s.free
  {
    CountOf(s, b);
    DropRefFields(s, b);
  }

  /** An id in use is not the one that the search goes to. */
  lemma NotThereYet(used: set<nat>, start: nat, d: nat, goal: nat)
    requires start < ID_SPACE && d <= goal < ID_SPACE && IdAt(start, goal) !in used && IdAt(start, d) in used
    ensures d < goal && BumpId(IdAt(start, d)) == IdAt(start, d + 1)
  {
    BumpIsNext(start, d);
  }

  // The whole effects field by field, as the methods produce them.

  ghost predicate Same(s: TabSteps.State, free: seq<Buf>, rec: seq<Rec>, ref: seq<nat>, idTab: seq<seq<Buf>>,
                       keyTab: seq<seq<Buf>>, all: seq<Buf>, num: int, nextId: nat, handles: multiset<Buf>) {
    && s.free == free && s.rec == rec && s.ref == ref && s.idTab == idTab && s.keyTab == keyTab
    && s.all == all && s.num == num && s.nextId == nextId && s.handles == handles
    && s.addDel == None && s.idLocks == map[] && s.keyLocks == map[] && s.pcs == [TabSteps.Idle]
  }

  lemma Fits(s: TabSteps.State)
    requires Quiet(s)
    ensures |s.idTab| == |s.keyTab| == MAX_HASH_LINE_NUM && |s.rec| == |s.ref|
    ensures forall l | 0 <= l < MAX_HASH_LINE_NUM :: InArena(s.idTab[l], |s.rec|) && InArena(s.keyTab[l], |s.rec|)
    ensures TabSteps.WellFormed(s)
  {
  }

  lemma AddFields(s: TabSteps.State, k: Key, v: nat) returns (s': TabSteps.State, used: set<nat>)
    requires Quiet(s) && TabSteps.Roomy(s) && |s.all| < ID_SPACE && TabSteps.WellFormed(s)
    requires FindKey(s.keyTab[KeyHash(k)], s.rec, k).None? && s.free != []
    ensures Quiet(s') && Solo(s, TabSteps.Add(k, v), s')
    ensures InArena(s.all, |s.rec|) && used == Ids(s.rec, s.all)
    ensures s.free[0] < |s.ref| && HasFreeId(used) && s.nextId < ID_SPACE && Answers(s.idTab, s.rec, used)
    ensures var b, id := s.free[0], FirstFreeId(used, s.nextId);
      AddSpec(s, k, v) == (s', Ok(id)) &&
      Same(s', s.free[1..], s.rec[b := Rec(id, k, v)], s.ref[b := 1],
           s.idTab[IdHash(id) := [b] + s.idTab[IdHash(id)]],
           s.keyTab[KeyHash(k) := [b] + s.keyTab[KeyHash(k)]],
           [b] + s.all, s.num + 1, BumpId(id), s.handles)
  {
    RoomForId(s);
    ScanAnswers(s);
    AddRuns(s, k, v);
    assert s.free[0] in s.free;
    used := Ids(s.rec, s.all);
    s' := AddSpec(s, k, v).0;
  }

  lemma AddMisses(s: TabSteps.State, k: Key, v: nat)
    requires Quiet(s) && TabSteps.Roomy(s) && TabSteps.WellFormed(s)
    requires FindKey(s.keyTab[KeyHash(k)], s.rec, k).Some? || s.free == []
    ensures Solo(s, TabSteps.Add(k, v), s)
    ensures AddSpec(s, k, v) ==
      (s, if FindKey(s.keyTab[KeyHash(k)], s.rec, k).Some? then Err(EEXIST) else Err(ENOMEM))
  {
    AddRuns(s, k, v);
  }

  lemma GetByKeyFields(s: TabSteps.State, k: Key, b: Buf) returns (s': TabSteps.State)
    requires Quiet(s) && TabSteps.Roomy(s) && TabSteps.WellFormed(s)
    requires FindKey(s.keyTab[KeyHash(k)], s.rec, k) == Some(b)
    ensures s' == GetByKeySpec(s, k).0 && Quiet(s') && Solo(s, TabSteps.GetByKey(k), s') && b < |s.ref|
    ensures Same(s', s.free, s.rec, s.ref[b := (s.ref[b] + 1) % UINT32], s.idTab, s.keyTab, s.all, s.num, s.nextId,
                 s.handles + multiset{b})
  {
    GetByKeyRuns(s, k);
    s' := GetByKeySpec(s, k).0;
  }

  lemma GetByIdFields(s: TabSteps.State, id: nat, b: Buf) returns (s': TabSteps.State)
    requires Quiet(s) && TabSteps.Roomy(s) && TabSteps.WellFormed(s)
    requires FindId(s.idTab[IdHash(id)], s.rec, id) == Some(b)
    ensures s' == GetByIdSpec(s, id).0 && Quiet(s') && Solo(s, TabSteps.GetById(id), s') && b < |s.ref|
    ensures Same(s', s.free, s.rec, s.ref[b := (s.ref[b] + 1) % UINT32], s.idTab, s.keyTab, s.all, s.num, s.nextId,
                 s.handles + multiset{b})
  {
    GetByIdRuns(s, id);
    s' := GetByIdSpec(s, id).0;
  }

  lemma DelFields(s: TabSteps.State, k: Key, b: Buf) returns (s': TabSteps.State)
    requires Quiet(s) && TabSteps.Roomy(s) && TabSteps.WellFormed(s)
    requires FindKey(s.keyTab[KeyHash(k)], s.rec, k) == Some(b)
    ensures DelSpec(s, k) == (s', Ok(0)) && Quiet(s') && Solo(s, TabSteps.Del(k), s') && b < |s.ref|
    ensures var ret := (s.ref[b] + UINT32 - 1) % UINT32;
      var idLine, keyLine := IdHash(s.rec[b].id), KeyHash(s.rec[b].key);
      Same(s', if ret == 0 then s.free + [b] else s.free, s.rec, s.ref[b := ret],
           s.idTab[idLine := Remove(s.idTab[idLine], b)], s.keyTab[keyLine := Remove(s.keyTab[keyLine], b)],
           Remove(s.all, b), s.num - 1, s.nextId, s.handles)
  {
    DelRuns(s, k);
    s' := DelSpec(s, k).0;
  }

  lemma DelMisses(s: TabSteps.State, k: Key)
    requires Quiet(s) && TabSteps.Roomy(s) && TabSteps.WellFormed(s) && FindKey(s.keyTab[KeyHash(k)], s.rec, k).None?
    ensures Solo(s, TabSteps.Del(k), s) && DelSpec(s, k) == (s, Err(ESRCH))
  {
    DelRuns(s, k);
  }

  // ----- The table -----

  class Table {
    var free: seq<Buf>
    var rec: seq<Rec>
    var refCnt: seq<nat>
    var idTab: seq<seq<Buf>>
    var keyTab: seq<seq<Buf>>
    var all: seq<Buf>
    var entryNumInUse: int
    var nextId: nat
    ghost var handles: multiset<Buf>

    /** The table between two calls, as a state of the step machine with one idle thread. */
    ghost function View(): TabSteps.State
      reads this
    {
      TabSteps.State(free, rec, refCnt, idTab, keyTab, all, entryNumInUse, nextId,
                     None, map[], map[], [TabSteps.Idle], handles)
    }

    ghost predicate Valid()
      reads this
    {
      Quiet(View())
    }

    constructor (maxEntryNum: nat)
      ensures Valid() && View() == TabSteps.Init(maxEntryNum, 1) && KeyMap(View()) == map[] && IdMap(View()) == map[]
    {
      free := seq(maxEntryNum, (i: nat) => i);
      rec := seq(maxEntryNum, _ => Rec(0, Key(0, 0, 0), 0));
      refCnt := seq(maxEntryNum, _ => 0);
      idTab := seq(MAX_HASH_LINE_NUM, _ => []);
      keyTab := seq(MAX_HASH_LINE_NUM, _ => []);
      all := [];
      entryNumInUse := 0;
      nextId := 1;
      handles := multiset{};
      new;
      TabSteps.InitInv(maxEntryNum, 1);
      assert View() == TabSteps.Init(maxEntryNum, 1);
    }

    method SearchEntryById(id: nat) returns (r: Option<Buf>)
      requires |idTab| == MAX_HASH_LINE_NUM && InArena(idTab[IdHash(id)], |rec|)
      ensures r == FindId(idTab[IdHash(id)], rec, id)
    {
      var l := idTab[IdHash(id)];
      var i := 0;
      assert l[0..] == l;
      while i < |l|
        invariant 0 <= i <= |l|
        invariant InArena(l[i..], |rec|) && FindId(l, rec, id) == FindId(l[i..], rec, id)
      {
        assert l[i..][0] == l[i] && l[i..][1..] == l[i + 1..];
        SkipId(l[i..], rec, id);
        if rec[l[i]].id == id {
          return Some(l[i]);
        }
        i := i + 1;
      }
      return None;
    }

    method SearchEntryByKey(k: Key) returns (r: Option<Buf>)
      requires |keyTab| == MAX_HASH_LINE_NUM && InArena(keyTab[KeyHash(k)], |rec|)
      ensures r == FindKey(keyTab[KeyHash(k)], rec, k)
    {
      var l := keyTab[KeyHash(k)];
      var i := 0;
      assert l[0..] == l;
      while i < |l|
        invariant 0 <= i <= |l|
        invariant InArena(l[i..], |rec|) && FindKey(l, rec, k) == FindKey(l[i..], rec, k)
      {
        assert l[i..][0] == l[i] && l[i..][1..] == l[i + 1..];
        SkipKey(l[i..], rec, k);
        if rec[l[i]].key == k {
          return Some(l[i]);
        }
        i := i + 1;
      }
      return None;
    }

    /** Ends on the first free id; the distance still to go is the termination measure. */
    method GenId(ghost used: set<nat>) returns (ret: nat)
      requires nextId < ID_SPACE && HasFreeId(used) && Answers(idTab, rec, used)
      modifies this`nextId
      ensures ret == FirstFreeId(used, old(nextId)) && nextId == BumpId(ret)
    {
      ghost var start := nextId;
      FreeIdHasDistance(used, start);
      ghost var goal := FreeDistance(used, start, 0);
      ghost var d: nat := 0;
      var r := SearchEntryById(nextId);
      while r.Some?
        invariant 0 <= d <= goal && nextId == IdAt(start, d)
        invariant r.Some? <==> nextId in used
        decreases goal - d
      {
        NotThereYet(used, start, d, goal);
        nextId := BumpId(nextId);
        d := d + 1;
        r := SearchEntryById(nextId);
      }
      ret := nextId;
      nextId := BumpId(nextId);
    }

    method AddEntryIntoTab(b: Buf)
      requires b < |rec| && |idTab| == |keyTab| == MAX_HASH_LINE_NUM
      modifies this`idTab, this`keyTab, this`all, this`entryNumInUse
      ensures idTab == old(idTab)[IdHash(rec[b].id) := [b] + old(idTab)[IdHash(rec[b].id)]]
      ensures keyTab == old(keyTab)[KeyHash(rec[b].key) := [b] + old(keyTab)[KeyHash(rec[b].key)]]
      ensures all == [b] + old(all) && entryNumInUse == old(entryNumInUse) + 1
    {
      var idLine, keyLine := IdHash(rec[b].id), KeyHash(rec[b].key);
      idTab := idTab[idLine := [b] + idTab[idLine]];
      keyTab := keyTab[keyLine := [b] + keyTab[keyLine]];
      all := [b] + all;
      entryNumInUse := entryNumInUse + 1;
    }

    method DelEntryFromTab(b: Buf)
      requires b < |rec| && |idTab| == |keyTab| == MAX_HASH_LINE_NUM
      modifies this`idTab, this`keyTab, this`all, this`entryNumInUse
      ensures idTab == old(idTab)[IdHash(rec[b].id) := Remove(old(idTab)[IdHash(rec[b].id)], b)]
      ensures keyTab == old(keyTab)[KeyHash(rec[b].key) := Remove(old(keyTab)[KeyHash(rec[b].key)], b)]
      ensures all == Remove(old(all), b) && entryNumInUse == old(entryNumInUse) - 1
    {
      var idLine, keyLine := IdHash(rec[b].id), KeyHash(rec[b].key);
      idTab := idTab[idLine := Remove(idTab[idLine], b)];
      keyTab := keyTab[keyLine := Remove(keyTab[keyLine], b)];
      all := Remove(all, b);
      entryNumInUse := entryNumInUse - 1;
    }

    /** The new entry's fields, in a buffer that nobody else can reach yet. */
    method BuildNewEntry(b: Buf, k: Key, priv: nat, ghost used: set<nat>)
      requires b < |rec| && b < |refCnt|
      requires nextId < ID_SPACE && HasFreeId(used) && Answers(idTab, rec, used)
      modifies this`nextId, this`rec, this`refCnt
      ensures var id := FirstFreeId(used, old(nextId));
        rec == old(rec)[b := Rec(id, k, priv)] && nextId == BumpId(id)
      ensures refCnt == old(refCnt)[b := 1]
    {
      var id := GenId(used);
      rec := rec[b := Rec(id, k, priv)];
      refCnt := refCnt[b := 1];
    }

    /** Shared end of put and delete. */
    method DropReference(b: Buf)
      requires b < |refCnt|
      modifies this`refCnt, this`free
      ensures var ret := (old(refCnt)[b] + UINT32 - 1) % UINT32;
        refCnt == old(refCnt)[b := ret] && free == if ret == 0 then old(free) + [b] else old(free)
    {
      var ret := (refCnt[b] + UINT32 - 1) % UINT32;
      refCnt := refCnt[b := ret];
      if ret == 0 {
        free := free + [b];
      }
    }

    method AddNewEntry(k: Key, priv: nat, ghost used: set<nat>) returns (id: nat)
      requires free != [] && free[0] < |rec| == |refCnt| && |idTab| == |keyTab| == MAX_HASH_LINE_NUM
      requires nextId < ID_SPACE && HasFreeId(used) && Answers(idTab, rec, used)
      modifies this
      ensures id == FirstFreeId(used, old(nextId))
      ensures var b := old(free)[0];
        Same(View(), old(free)[1..], old(rec)[b := Rec(id, k, priv)], old(refCnt)[b := 1],
             old(idTab)[IdHash(id) := [b] + old(idTab)[IdHash(id)]],
             old(keyTab)[KeyHash(k) := [b] + old(keyTab)[KeyHash(k)]],
             [b] + old(all), old(entryNumInUse) + 1, BumpId(id), old(handles))
    {
      var b := free[0];
      free := free[1..];
      BuildNewEntry(b, k, priv, used);
      AddEntryIntoTab(b);
      id := rec[b].id;
    }

    method DelEntryAndDrop(b: Buf)
      requires b < |rec| == |refCnt| && |idTab| == |keyTab| == MAX_HASH_LINE_NUM
      modifies this
      ensures var ret := (old(refCnt)[b] + UINT32 - 1) % UINT32;
        var idLine, keyLine := IdHash(old(rec)[b].id), KeyHash(old(rec)[b].key);
        Same(View(), if ret == 0 then old(free) + [b] else old(free), old(rec), old(refCnt)[b := ret],
             old(idTab)[idLine := Remove(old(idTab)[idLine], b)],
             old(keyTab)[keyLine := Remove(old(keyTab)[keyLine], b)],
             Remove(old(all), b), old(entryNumInUse) - 1, old(nextId), old(handles))
    {
      DelEntryFromTab(b);
      DropReference(b);
    }

    method PutHandle(b: Buf)
      requires b < |refCnt|
      modifies this
      ensures View() == PutSpec(old(View()), b)
    {
      handles := handles - multiset{b};
      DropReference(b);
    }

    method AddIfNew(k: Key, priv: nat) returns (r: Result<nat>)
      requires Valid() && TabSteps.Roomy(View()) && CanEnd(View(), k)
      modifies this
      ensures Valid() && Solo(old(View()), TabSteps.Add(k, priv), View())
      ensures (View(), r) == AddSpec(old(View()), k, priv)
    {
      Fits(View());
      var f := SearchEntryByKey(k);
      if f.Some? || free == [] {
        AddMisses(View(), k, priv);
        return if f.Some? then Err(EEXIST) else Err(ENOMEM);
      }
      ghost var s', used := AddFields(View(), k, priv);
      var id := AddNewEntry(k, priv, used);
      assert View() == s';
      return Ok(id);
    }

    /**
     Returns the id under which the first free buffer now holds the new entry, or why there is none; if
     an id is needed, the search for a free one must be able to end.
     */
    method AddEntry(k: Key, priv: nat) returns (r: Result<nat>)
      requires Valid() && TabSteps.Roomy(View()) && CanEnd(View(), k)
      modifies this
      ensures Valid() && Solo(old(View()), TabSteps.Add(k, priv), View())
      ensures (View(), r) == AddSpec(old(View()), k, priv)
      ensures r == Err(EEXIST) <==> k in old(KeyMap(View()))
      ensures r == Err(ENOMEM) <==> k !in old(KeyMap(View())) && old(free) == []
      ensures r.Err? ==> View() == old(View()) && r.errno != ESRCH
      ensures r.Ok? ==> old(free) != [] && Added(old(View()), View(), old(free)[0], Rec(r.value, k, priv))
    {
      AddMeans(View(), k, priv);
      r := AddIfNew(k, priv);
    }

    method FindByKey(k: Key) returns (r: Option<Buf>)
      requires Valid() && TabSteps.Roomy(View())
      modifies this
      ensures Valid() && Solo(old(View()), TabSteps.GetByKey(k), View())
      ensures (View(), r) == GetByKeySpec(old(View()), k)
    {
      Fits(View());
      r := SearchEntryByKey(k);
      if r.None? {
        GetByKeyRuns(View(), k);
      } else {
        ghost var s' := GetByKeyFields(View(), k, r.value);
        refCnt := refCnt[r.value := (refCnt[r.value] + 1) % UINT32];
        handles := handles + multiset{r.value};
        assert View() == s';
      }
    }

    /** Returns the entry with the key, if there is one, and the caller has one more handle on just that. */
    method GetEntryByKey(k: Key) returns (r: Option<Buf>)
      requires Valid() && TabSteps.Roomy(View())
      modifies this
      ensures Valid() && Solo(old(View()), TabSteps.GetByKey(k), View())
      ensures r == if k in old(KeyMap(View())) then Some(old(KeyMap(View()))[k]) else None
      ensures SameEntries(old(View()), View())
      ensures handles == old(handles) + (if r.Some? then multiset{r.value} else multiset{})
    {
      GetByKeyMeans(View(), k);
      r := FindByKey(k);
    }

    method FindById(id: nat) returns (r: Option<Buf>)
      requires Valid() && TabSteps.Roomy(View())
      modifies this
      ensures Valid() && Solo(old(View()), TabSteps.GetById(id), View())
      ensures (View(), r) == GetByIdSpec(old(View()), id)
    {
      Fits(View());
      r := SearchEntryById(id);
      if r.None? {
        GetByIdRuns(View(), id);
      } else {
        ghost var s' := GetByIdFields(View(), id, r.value);
        refCnt := refCnt[r.value := (refCnt[r.value] + 1) % UINT32];
        handles := handles + multiset{r.value};
        assert View() == s';
      }
    }

    /** Returns the entry with the id, if there is one, and the caller has one more handle on just that. */
    method GetEntryById(id: nat) returns (r: Option<Buf>)
      requires Valid() && TabSteps.Roomy(View())
      modifies this
      ensures Valid() && Solo(old(View()), TabSteps.GetById(id), View())
      ensures r == if id in old(IdMap(View())) then Some(old(IdMap(View()))[id]) else None
      ensures SameEntries(old(View()), View())
      ensures handles == old(handles) + (if r.Some? then multiset{r.value} else multiset{})
    {
      GetByIdMeans(View(), id);
      r := FindById(id);
    }

    method PutEntry(b: Buf)
      requires Valid() && TabSteps.Roomy(View()) && b in handles
      modifies this
      ensures Valid() && Solo(old(View()), TabSteps.Put(b), View())
      ensures View() == PutSpec(old(View()), b)
      ensures SameEntries(old(View()), View()) && handles == old(handles) - multiset{b}
      ensures free == if b !in old(all) && old(handles)[b] == 1 then old(free) + [b] else old(free)
    {
      HandleFits(View(), b);
      PutRuns(View(), b);
      PutMeans(View(), b);
      LastPutFrees(View(), b);
      PutHandle(b);
    }

    method DelIfKnown(k: Key) returns (r: Result<int>)
      requires Valid() && TabSteps.Roomy(View())
      modifies this
      ensures Valid() && Solo(old(View()), TabSteps.Del(k), View())
      ensures (View(), r) == DelSpec(old(View()), k)
    {
      Fits(View());
      var f := SearchEntryByKey(k);
      if f.None? {
        DelMisses(View(), k);
        return Err(ESRCH);
      }
      DelFoundEntry(k, f.value);
      return Ok(0);
    }

    method DelEntryByKey(k: Key) returns (r: Result<int>)
      requires Valid() && TabSteps.Roomy(View())
      modifies this
      ensures Valid() && Solo(old(View()), TabSteps.Del(k), View())
      ensures (View(), r) == DelSpec(old(View()), k)
      ensures r == if k in old(KeyMap(View())) then Ok(0) else Err(ESRCH)
      ensures r.Err? ==> View() == old(View())
      ensures r.Ok? ==> Removed(old(View()), View(), old(KeyMap(View()))[k])
    {
      Fits(View());
      DelMeans(View(), k);
      r := DelIfKnown(k);
    }

    method DelFoundEntry(k: Key, b: Buf)
      requires Valid() && TabSteps.Roomy(View()) && TabSteps.WellFormed(View())
      requires FindKey(keyTab[KeyHash(k)], rec, k) == Some(b)
      modifies this
      ensures Valid() && Solo(old(View()), TabSteps.Del(k), View())
      ensures (View(), Ok(0)) == DelSpec(old(View()), k)
    {
      Fits(View());
      ghost var s' := DelFields(View(), k, b);
      DelEntryAndDrop(b);
      assert View() == s';
    }

    method EntryNum() returns (n: int)
      requires Valid()
      ensures n == |KeyMap(View())|
    {
      n := entryNumInUse;
      KeyMapSize(View());
    }
  }

  /** The counter is the number of keys. */
  lemma KeyMapSize(s: TabSteps.State)
    requires Quiet(s)
    ensures s.num == |KeyMap(s)|
  {
    QuietFacts(s);
    MapSize(s.rec, s.all);
  }

  lemma MapSize(rec: seq<Rec>, all: seq<Buf>)
    requires NoDup(all) && DistinctKeys(Keys(rec), TabSteps.AllSet(all))
    ensures |MapOf(Keys(rec), TabSteps.AllSet(all))| == |all|
  {
    var m := MapOf(Keys(rec), TabSteps.AllSet(all));
    var keys := seq(|all|, i requires 0 <= i < |all| => assert all[i] in TabSteps.AllSet(all); rec[all[i]].key);
    forall i, j | 0 <= i < j < |keys|
      ensures keys[i] != keys[j]
    {
      assert all[i] in TabSteps.AllSet(all) && all[j] in TabSteps.AllSet(all) && all[i] != all[j];
    }
    forall k | k in m
      ensures k in keys
    {
      var i :| 0 <= i < |all| && all[i] == m[k];
      assert keys[i] == k;
    }
    assert forall i | 0 <= i < |keys| :: all[i] in TabSteps.AllSet(all) && keys[i] in m;
    NoDupSize(keys, m.Keys);
  }

  lemma {:induction false} NoDupSize<T>(l: seq<T>, members: set<T>)
    requires NoDup(l) && forall x :: x in l <==> x in members
    ensures |members| == |l|
  {
    if l == [] {
    } else {
      var x, rest := l[0], l[1..];
      assert l == [x] + rest && x !in rest;
      NoDupSize(rest, members - {x});
    }
  }
}
