/** The table under any number of threads. */
module TabSteps {
  import opened Common
  import opened TabBase

  // One step is one lock-protected region (or one access made under `add_del_lock` alone).
  // The add/del lock and the two families of hash-line locks are explicit, because a lookup keeps
  // its line lock between finding an entry and taking a reference.  The lock of an entry, of the
  // all-list and of the pool each guard a single region, which is one step.

  type Tid = nat

  // What a thread does next.  Every Add and Del state is inside add_del_lock.
  datatype Pc =
    | Idle
    | AddSearch(key: Key, priv: nat)
    | AddAlloc(key: Key, priv: nat)
    | AddGenId(key: Key, priv: nat, b: Buf)
    | AddLinkId(b: Buf)
    | AddLinkKey(b: Buf)
    | AddLinkAll(b: Buf)
    | AddCount(b: Buf)
    | DelSearch(key: Key)
    | DelUnlinkId(b: Buf)
    | DelUnlinkKey(b: Buf)
    | DelUnlinkAll(b: Buf)
    | DelCount(b: Buf)
    | DelDec(b: Buf)
    | DelFree(b: Buf)
    | Unlock
    | GetKeyFound(line: nat, b: Buf)
    | GetIdFound(line: nat, b: Buf)
    | PutFree(b: Buf)

  /** What an idle thread may call.  A put gives back one outstanding handle. */
  datatype Call =
    | Add(key: Key, priv: nat)
    | Del(key: Key)
    | GetByKey(key: Key)
    | GetById(id: nat)
    | Put(b: Buf)

  datatype State = State(
    free: seq<Buf>,          // the pool, oldest free buffer first
    rec: seq<Rec>,           // per buffer: id, key, private data
    ref: seq<nat>,           // per buffer: ref_cnt
    idTab: seq<seq<Buf>>,
    keyTab: seq<seq<Buf>>,
    all: seq<Buf>,
    num: int,                // entry_num_in_use
    nextId: nat,
    addDel: Option<Tid>,
    idLocks: map<nat, Tid>,  // held hash-line locks and their holders
    keyLocks: map<nat, Tid>,
    pcs: seq<Pc>,
    handles: multiset<Buf>)  // references handed out and not yet put

  predicate HoldsAddDel(pc: Pc) {
    !pc.Idle? && !pc.GetKeyFound? && !pc.GetIdFound? && !pc.PutFree?
  }

  /** The program point of whoever holds add_del_lock. */
  function Holder(s: State): Pc {
    if s.addDel.Some? && s.addDel.value < |s.pcs| then s.pcs[s.addDel.value] else Idle
  }

  function Init(cap: nat, threads: nat): State {
    State(seq(cap, (i: nat) => i), seq(cap, _ => Rec(0, Key(0, 0, 0), 0)), seq(cap, _ => 0),
          seq(MAX_HASH_LINE_NUM, _ => []), seq(MAX_HASH_LINE_NUM, _ => []), [], 0, 1,
          None, map[], map[], seq(threads, _ => Idle), multiset{})
  }

  // ----- Steps -----

  predicate WellFormed(s: State) {
    && |s.rec| == |s.ref|
    && |s.idTab| == |s.keyTab| == MAX_HASH_LINE_NUM
    && (forall l | 0 <= l < MAX_HASH_LINE_NUM :: InArena(s.idTab[l], |s.rec|) && InArena(s.keyTab[l], |s.rec|))
    && InArena(s.all, |s.rec|)
    && InArena(s.free, |s.rec|)
  }

  predicate PcInArena(pc: Pc, cap: nat) {
    match pc
    case AddGenId(_, _, b) => b < cap
    case AddLinkId(b) => b < cap
    case AddLinkKey(b) => b < cap
    case AddLinkAll(b) => b < cap
    case AddCount(b) => b < cap
    case DelUnlinkId(b) => b < cap
    case DelUnlinkKey(b) => b < cap
    case DelUnlinkAll(b) => b < cap
    case DelCount(b) => b < cap
    case DelDec(b) => b < cap
    case DelFree(b) => b < cap
    case GetKeyFound(_, b) => b < cap
    case GetIdFound(_, b) => b < cap
    case PutFree(b) => b < cap
    case _ => true
  }

  function Goto(s: State, t: Tid, pc: Pc): State
    requires t < |s.pcs|
  {
    s.(pcs := s.pcs[t := pc])
  }

  /** `ref_cnt--` on a 32-bit counter. */
  function Dec(s: State, b: Buf): State
    requires b < |s.ref|
  {
    s.(ref := s.ref[b := (s.ref[b] + UINT32 - 1) % UINT32])
  }

  /** `ref_cnt++` on a 32-bit counter, and the handle that the caller now owns. */
  function Inc(s: State, b: Buf): State
    requires b < |s.ref|
  {
    s.(ref := s.ref[b := (s.ref[b] + 1) % UINT32], handles := s.handles + multiset{b})
  }

  /** First step of a call.  None: the lock it needs is taken, or the handle is not outstanding. */
  function StartCall(s: State, t: Tid, call: Call): (r: Option<State>)
    requires WellFormed(s) && t < |s.pcs|
  {
    match call
    case Add(k, v) =>
      if s.addDel.Some? then None else Some(Goto(s.(addDel := Some(t)), t, AddSearch(k, v)))
    case Del(k) =>
      if s.addDel.Some? then None else Some(Goto(s.(addDel := Some(t)), t, DelSearch(k)))
    case GetByKey(k) =>
      var line := KeyHash(k);
      if line in s.keyLocks then None
      else (
        match FindKey(s.keyTab[line], s.rec, k)
        case None => Some(s)
        case Some(b) => Some(Goto(s.(keyLocks := s.keyLocks[line := t]), t, GetKeyFound(line, b)))
      )
    case GetById(id) =>
      var line := IdHash(id);
      if line in s.idLocks then None
      else (
        match FindId(s.idTab[line], s.rec, id)
        case None => Some(s)
        case Some(b) => Some(Goto(s.(idLocks := s.idLocks[line := t]), t, GetIdFound(line, b)))
      )
    case Put(b) =>
      if b !in s.handles || b >= |s.ref| then None
      else
        var s' := Dec(s, b).(handles := s.handles - multiset{b});
        Some(if s'.ref[b] == 0 then Goto(s', t, PutFree(b)) else s')
  }

  predicate IsAdd(pc: Pc) {
    pc.AddSearch? || pc.AddAlloc? || pc.AddGenId? || pc.AddLinkId? || pc.AddLinkKey? || pc.AddLinkAll? || pc.AddCount?
  }

  predicate IsDel(pc: Pc) {
    || pc.DelSearch? || pc.DelUnlinkId? || pc.DelUnlinkKey? || pc.DelUnlinkAll?
    || pc.DelCount? || pc.DelDec? || pc.DelFree?
  }

  function AddStep(s: State, t: Tid): (r: Option<State>)
    requires WellFormed(s) && t < |s.pcs| && PcInArena(s.pcs[t], |s.rec|) && IsAdd(s.pcs[t])
  {
    match s.pcs[t]
    case AddSearch(k, v) =>
      var line := KeyHash(k);
      if line in s.keyLocks then None
      else if FindKey(s.keyTab[line], s.rec, k).Some? then Some(Goto(s, t, Unlock))
      else Some(Goto(s, t, AddAlloc(k, v)))
    case AddAlloc(k, v) =>
      if s.free == [] then Some(Goto(s, t, Unlock))
      else Some(Goto(s.(free := s.free[1..]), t, AddGenId(k, v, s.free[0])))
    case AddGenId(k, v, b) =>
      var line := IdHash(s.nextId);
      if line in s.idLocks then None
      else if FindId(s.idTab[line], s.rec, s.nextId).Some? then Some(s.(nextId := BumpId(s.nextId)))
      else
        Some(Goto(s.(rec := s.rec[b := Rec(s.nextId, k, v)], ref := s.ref[b := 1], nextId := BumpId(s.nextId)),
                  t, AddLinkId(b)))
    case AddLinkId(b) =>
      var line := IdHash(s.rec[b].id);
      if line in s.idLocks then None
      else Some(Goto(s.(idTab := s.idTab[line := [b] + s.idTab[line]]), t, AddLinkKey(b)))
    case AddLinkKey(b) =>
      var line := KeyHash(s.rec[b].key);
      if line in s.keyLocks then None
      else Some(Goto(s.(keyTab := s.keyTab[line := [b] + s.keyTab[line]]), t, AddLinkAll(b)))
    case AddLinkAll(b) => Some(Goto(s.(all := [b] + s.all), t, AddCount(b)))
    case AddCount(b) => Some(Goto(s.(num := s.num + 1), t, Unlock))
  }

  function DelStep(s: State, t: Tid): (r: Option<State>)
    requires WellFormed(s) && t < |s.pcs| && PcInArena(s.pcs[t], |s.rec|) && IsDel(s.pcs[t])
  {
    match s.pcs[t]
    case DelSearch(k) =>
      var line := KeyHash(k);
      if line in s.keyLocks then None
      else (
        match FindKey(s.keyTab[line], s.rec, k)
        case None => Some(Goto(s, t, Unlock))
        case Some(b) => Some(Goto(s, t, DelUnlinkId(b)))
      )
    case DelUnlinkId(b) =>
      var line := IdHash(s.rec[b].id);
      if line in s.idLocks then None
      else Some(Goto(s.(idTab := s.idTab[line := Remove(s.idTab[line], b)]), t, DelUnlinkKey(b)))
    case DelUnlinkKey(b) =>
      var line := KeyHash(s.rec[b].key);
      if line in s.keyLocks then None
      else Some(Goto(s.(keyTab := s.keyTab[line := Remove(s.keyTab[line], b)]), t, DelUnlinkAll(b)))
    case DelUnlinkAll(b) => Some(Goto(s.(all := Remove(s.all, b)), t, DelCount(b)))
    case DelCount(b) => Some(Goto(s.(num := s.num - 1), t, DelDec(b)))
    case DelDec(b) =>
      var s' := Dec(s, b);
      Some(Goto(s', t, if s'.ref[b] == 0 then DelFree(b) else Unlock))
    case DelFree(b) => Some(Goto(s.(free := s.free + [b]), t, Unlock))
  }

  /** The next step of thread `t`; `call` matters only when it is idle.  None: it has to wait. */
  function Step(s: State, t: Tid, call: Call): (r: Option<State>)
    requires WellFormed(s) && t < |s.pcs| && PcInArena(s.pcs[t], |s.rec|)
  {
    var pc := s.pcs[t];
    if pc.Idle? then StartCall(s, t, call)
    else if IsAdd(pc) then AddStep(s, t)
    else if IsDel(pc) then DelStep(s, t)
    else if pc.GetKeyFound? then Some(Goto(Inc(s, pc.b).(keyLocks := s.keyLocks - {pc.line}), t, Idle))
    else if pc.GetIdFound? then Some(Goto(Inc(s, pc.b).(idLocks := s.idLocks - {pc.line}), t, Idle))
    else if pc.PutFree? then Some(Goto(s.(free := s.free + [pc.b]), t, Idle))
    else Some(Goto(s.(addDel := None), t, Idle))
  }

  // ----- The invariant, one predicate per part of the state -----

  /** The entries of the all-list, adjusted at the program points where the other lists differ. */
  function AllSet(all: seq<Buf>): set<Buf> {
    set b | b in all
  }

  function IdSet(all: seq<Buf>, h: Pc): set<Buf> {
    match h
    case AddLinkKey(b) => AllSet(all) + {b}
    case AddLinkAll(b) => AllSet(all) + {b}
    case DelUnlinkKey(b) => AllSet(all) - {b}
    case DelUnlinkAll(b) => AllSet(all) - {b}
    case _ => AllSet(all)
  }

  function KeySet(all: seq<Buf>, h: Pc): set<Buf> {
    match h
    case AddLinkAll(b) => AllSet(all) + {b}
    case DelUnlinkAll(b) => AllSet(all) - {b}
    case _ => AllSet(all)
  }

  /** Entries that are, or are about to be, in the table. */
  function PresentSet(all: seq<Buf>, h: Pc): set<Buf> {
    match h
    case AddLinkId(b) => AllSet(all) + {b}
    case AddLinkKey(b) => AllSet(all) + {b}
    case AddLinkAll(b) => AllSet(all) + {b}
    case _ => AllSet(all)
  }

  /** Entries whose count includes the table's own reference: from building until `del` drops it. */
  function OwnedSet(all: seq<Buf>, h: Pc): set<Buf> {
    match h
    case DelCount(b) => AllSet(all) + {b}
    case DelDec(b) => AllSet(all) + {b}
    case _ => PresentSet(all, h)
  }

  predicate Building(h: Pc, b: Buf) {
    h.AddGenId? && h.b == b
  }

  /** The thread has seen the count reach 0 and is about to free the buffer. */
  predicate Dying(pc: Pc, b: Buf) {
    pc == DelFree(b) || pc == PutFree(b)
  }

  ghost predicate AllList(all: seq<Buf>, num: int, h: Pc) {
    && NoDup(all)
    && num == |all| + (if h.AddCount? then -1 else if h.DelCount? then 1 else 0)
    && (match h
        case AddGenId(_, _, b) => b !in all
        case AddLinkId(b) => b !in all
        case AddLinkKey(b) => b !in all
        case AddLinkAll(b) => b !in all
        case AddCount(b) => b in all
        case DelUnlinkId(b) => b in all
        case DelUnlinkKey(b) => b in all
        case DelUnlinkAll(b) => b in all
        case DelCount(b) => b !in all
        case DelDec(b) => b !in all
        case _ => true)
  }

  /** Ids and keys are unique; a key that is being added is in no other entry. */
  ghost predicate Unique(rec: seq<Rec>, present: set<Buf>, nextId: nat, h: Pc) {
    && nextId < ID_SPACE
    && (forall b | b in present :: b < |rec| && rec[b].id < ID_SPACE)
    && (forall b, c | b in present && c in present && b != c :: rec[b].id != rec[c].id && rec[b].key != rec[c].key)
    && (h.AddAlloc? || h.AddGenId? ==> forall b | b in present :: rec[b].key != h.key)
  }

  ghost predicate PcsOk(addDel: Option<Tid>, pcs: seq<Pc>, cap: nat) {
    && (addDel.Some? ==> addDel.value < |pcs|)
    && (forall t | 0 <= t < |pcs| :: PcInArena(pcs[t], cap))
    && (forall t | 0 <= t < |pcs| :: HoldsAddDel(pcs[t]) <==> addDel == Some(t))
  }

  /** A lookup between finding an entry and taking its reference. */
  datatype Found = Found(line: nat, b: Buf)

  function KeyFinds(pcs: seq<Pc>): (r: seq<Option<Found>>)
    ensures |r| == |pcs|
  {
    seq(|pcs|, t requires 0 <= t < |pcs| => if pcs[t].GetKeyFound? then Some(Found(pcs[t].line, pcs[t].b)) else None)
  }

  function IdFinds(pcs: seq<Pc>): (r: seq<Option<Found>>)
    ensures |r| == |pcs|
  {
    seq(|pcs|, t requires 0 <= t < |pcs| => if pcs[t].GetIdFound? then Some(Found(pcs[t].line, pcs[t].b)) else None)
  }

  /** Such a lookup holds the lock of its line, and the entry is still in that line. */
  ghost predicate LineLocks(locks: map<nat, Tid>, finds: seq<Option<Found>>, tab: seq<seq<Buf>>) {
    && (forall t | 0 <= t < |finds| && finds[t].Some? ::
          var f := finds[t].value; f.line < |tab| && f.line in locks && locks[f.line] == t && f.b in tab[f.line])
    && (forall line | line in locks ::
          locks[line] < |finds| && finds[locks[line]].Some? && finds[locks[line]].value.line == line)
  }

  ghost predicate NobodyFrees(pcs: seq<Pc>, b: Buf) {
    forall t | 0 <= t < |pcs| :: !Dying(pcs[t], b)
  }

  ghost predicate OneFrees(pcs: seq<Pc>, t: Tid, b: Buf) {
    t < |pcs| && Dying(pcs[t], b) && forall u | 0 <= u < |pcs| && u != t :: !Dying(pcs[u], b)
  }

  /** What is true of one buffer, whatever the interleaving. */
  ghost predicate BufOk(isFree: bool, building: bool, owned: bool, ref: nat, handles: nat, pcs: seq<Pc>, b: Buf) {
    if isFree then
      !owned && !building && handles == 0 && NobodyFrees(pcs, b)
    else if building then
      !owned && handles == 0 && NobodyFrees(pcs, b)
    else
      && ref == (if owned then 1 else 0) + handles
      && (ref > 0 ==> NobodyFrees(pcs, b))
      && (ref == 0 ==> exists t :: OneFrees(pcs, t, b))
  }

  ghost predicate Bufs(free: seq<Buf>, owned: set<Buf>, h: Pc, ref: seq<nat>, handles: multiset<Buf>, pcs: seq<Pc>) {
    && NoDup(free)
    && (forall b | b in free :: b < |ref|)
    && (forall b | b in owned :: b < |ref|)
    && (forall b | b in handles :: b < |ref|)
    && (forall b | 0 <= b < |ref| :: BufOk(b in free, Building(h, b), b in owned, ref[b], handles[b], pcs, b))
  }

  ghost predicate Parts(s: State, h: Pc) {
    && |s.rec| == |s.ref|
    && Indexed(s.idTab, IdLines(s.rec), IdSet(s.all, h))
    && Indexed(s.keyTab, KeyLines(s.rec), KeySet(s.all, h))
    && AllList(s.all, s.num, h)
    && Unique(s.rec, PresentSet(s.all, h), s.nextId, h)
    && PcsOk(s.addDel, s.pcs, |s.rec|)
    && LineLocks(s.keyLocks, KeyFinds(s.pcs), s.keyTab)
    && LineLocks(s.idLocks, IdFinds(s.pcs), s.idTab)
    && Bufs(s.free, OwnedSet(s.all, h), h, s.ref, s.handles, s.pcs)
  }

  ghost predicate Inv(s: State) {
    WellFormed(s) && Parts(s, Holder(s))
  }

  /** The counter is 32 bits wide and also counts the table, so no entry may have 2^32 - 2 handles out. */
  ghost predicate Roomy(s: State) {
    forall b | b in s.handles :: s.handles[b] < UINT32 - 2
  }

  lemma InitInv(cap: nat, threads: nat)
    ensures Inv(Init(cap, threads))
  {
    var s := Init(cap, threads);
    forall b | 0 <= b < cap
      ensures b in s.free && BufOk(true, false, false, 0, 0, s.pcs, b)
    {
      assert s.free[b] == b;
    }
  }

  // ----- How single updates act on the parts -----

  lemma FindsGoto(pcs: seq<Pc>, t: Tid, pc: Pc)
    requires t < |pcs|
    ensures KeyFinds(pcs[t := pc]) ==
      KeyFinds(pcs)[t := if pc.GetKeyFound? then Some(Found(pc.line, pc.b)) else None]
    ensures IdFinds(pcs[t := pc]) ==
      IdFinds(pcs)[t := if pc.GetIdFound? then Some(Found(pc.line, pc.b)) else None]
  {
  }

  /** A list may change while its line lock is free. */
  lemma LockedLineStays(locks: map<nat, Tid>, finds: seq<Option<Found>>, tab: seq<seq<Buf>>, line: nat, l: seq<Buf>)
    requires LineLocks(locks, finds, tab) && line < |tab| && line !in locks
    ensures LineLocks(locks, finds, tab[line := l])
  {
  }

  lemma TakeLine(locks: map<nat, Tid>, finds: seq<Option<Found>>, tab: seq<seq<Buf>>, t: Tid, f: Found)
    requires LineLocks(locks, finds, tab) && t < |finds| && finds[t].None?
    requires f.line < |tab| && f.line !in locks && f.b in tab[f.line]
    ensures LineLocks(locks[f.line := t], finds[t := Some(f)], tab)
  {
  }

  lemma DropLine(locks: map<nat, Tid>, finds: seq<Option<Found>>, tab: seq<seq<Buf>>, t: Tid)
    requires LineLocks(locks, finds, tab) && t < |finds| && finds[t].Some?
    ensures LineLocks(locks - {finds[t].value.line}, finds[t := None], tab)
  {
  }

  lemma DyingFrame(pcs: seq<Pc>, t: Tid, pc: Pc, b: Buf)
    requires t < |pcs| && !Dying(pcs[t], b) && !Dying(pc, b)
    ensures NobodyFrees(pcs[t := pc], b) <==> NobodyFrees(pcs, b)
    ensures forall u :: OneFrees(pcs[t := pc], u, b) <==> OneFrees(pcs, u, b)
  {
    assert pcs == pcs[t := pc][t := pcs[t]];
  }

  /** One buffer changes, the others are untouched. */
  lemma BufsPoint(free: seq<Buf>, owned: set<Buf>, h: Pc, ref: seq<nat>, handles: multiset<Buf>, pcs: seq<Pc>,
                  free': seq<Buf>, owned': set<Buf>, h': Pc, ref': seq<nat>, handles': multiset<Buf>,
                  t: Tid, pc: Pc, b: Buf)
    requires Bufs(free, owned, h, ref, handles, pcs) && t < |pcs| && b < |ref| && |ref'| == |ref|
    requires forall c | c != b :: !Dying(pcs[t], c) && !Dying(pc, c) && Building(h', c) == Building(h, c)
    requires forall c | c != b ::
      (c in free' <==> c in free) && (c in owned' <==> c in owned) && handles'[c] == handles[c]
    requires forall c | 0 <= c < |ref| && c != b :: ref'[c] == ref[c]
    requires NoDup(free')
    requires BufOk(b in free', Building(h', b), b in owned', ref'[b], handles'[b], pcs[t := pc], b)
    ensures Bufs(free', owned', h', ref', handles', pcs[t := pc])
  {
    forall c | 0 <= c < |ref|
      ensures BufOk(c in free', Building(h', c), c in owned', ref'[c], handles'[c], pcs[t := pc], c)
    {
      if c != b {
        DyingFrame(pcs, t, pc, c);
        assert BufOk(c in free, Building(h, c), c in owned, ref[c], handles[c], pcs, c);
      }
    }
  }

  /** A move that neither frees nor builds changes no buffer. */
  lemma BufsGoto(free: seq<Buf>, owned: set<Buf>, h: Pc, ref: seq<nat>, handles: multiset<Buf>, pcs: seq<Pc>,
                 h': Pc, t: Tid, pc: Pc)
    requires Bufs(free, owned, h, ref, handles, pcs) && t < |pcs|
    requires forall c :: !Dying(pcs[t], c) && !Dying(pc, c) && Building(h', c) == Building(h, c)
    ensures Bufs(free, owned, h', ref, handles, pcs[t := pc])
  {
    forall c | 0 <= c < |ref|
      ensures BufOk(c in free, Building(h', c), c in owned, ref[c], handles[c], pcs[t := pc], c)
    {
      DyingFrame(pcs, t, pc, c);
      assert BufOk(c in free, Building(h, c), c in owned, ref[c], handles[c], pcs, c);
    }
  }

  /** Who frees when a count has just reached 0: only the thread that saw it. */
  lemma StartsFreeing(pcs: seq<Pc>, t: Tid, pc: Pc, b: Buf)
    requires t < |pcs| && NobodyFrees(pcs, b) && Dying(pc, b)
    ensures OneFrees(pcs[t := pc], t, b)
  {
  }

  // ----- Every step keeps the invariant -----

  lemma Assemble(s: State)
    requires Parts(s, Holder(s))
    ensures Inv(s)
  {
    var h := Holder(s);
    forall b | b in s.all
      ensures b < |s.rec|
    {
      assert b in PresentSet(s.all, h);
    }
  }

  /** The lock holder goes on inside the lock. */
  lemma HolderMoves(s: State, t: Tid, pc: Pc)
    requires Inv(s) && t < |s.pcs| && HoldsAddDel(s.pcs[t]) && HoldsAddDel(pc) && PcInArena(pc, |s.rec|)
    ensures Holder(s) == s.pcs[t] && s.addDel == Some(t)
    ensures PcsOk(s.addDel, s.pcs[t := pc], |s.rec|)
    ensures KeyFinds(s.pcs[t := pc]) == KeyFinds(s.pcs) && IdFinds(s.pcs[t := pc]) == IdFinds(s.pcs)
  {
    FindsGoto(s.pcs, t, pc);
    assert KeyFinds(s.pcs)[t] == None && IdFinds(s.pcs)[t] == None;
  }

  /** Steps of the holder that only read shared data. */
  lemma PureMove(s: State, t: Tid, pc: Pc)
    requires Inv(s) && t < |s.pcs| && HoldsAddDel(s.pcs[t]) && HoldsAddDel(pc) && PcInArena(pc, |s.rec|)
    requires forall c :: !Dying(s.pcs[t], c) && !Dying(pc, c) && Building(pc, c) == Building(s.pcs[t], c)
    requires IdSet(s.all, pc) == IdSet(s.all, s.pcs[t]) && KeySet(s.all, pc) == KeySet(s.all, s.pcs[t])
    requires PresentSet(s.all, pc) == PresentSet(s.all, s.pcs[t]) && OwnedSet(s.all, pc) == OwnedSet(s.all, s.pcs[t])
    requires AllList(s.all, s.num, pc)
    requires pc.AddAlloc? || pc.AddGenId? ==> forall b | b in PresentSet(s.all, pc) :: s.rec[b].key != pc.key
    ensures Inv(Goto(s, t, pc))
  {
    HolderMoves(s, t, pc);
    BufsGoto(s.free, OwnedSet(s.all, s.pcs[t]), s.pcs[t], s.ref, s.handles, s.pcs, pc, t, pc);
    Assemble(Goto(s, t, pc));
  }

  /** The holder has changed hash lists whose locks were free, and nothing else. */
  lemma ListMove(s: State, t: Tid, h': Pc, idTab: seq<seq<Buf>>, keyTab: seq<seq<Buf>>)
    requires Inv(s) && t < |s.pcs| && HoldsAddDel(s.pcs[t]) && HoldsAddDel(h') && PcInArena(h', |s.rec|)
    requires forall c :: !Dying(s.pcs[t], c) && !Dying(h', c) && Building(h', c) == Building(s.pcs[t], c)
    requires PresentSet(s.all, h') == PresentSet(s.all, s.pcs[t]) && OwnedSet(s.all, h') == OwnedSet(s.all, s.pcs[t])
    requires AllList(s.all, s.num, h') && !h'.AddAlloc? && !h'.AddGenId?
    requires Indexed(idTab, IdLines(s.rec), IdSet(s.all, h')) && LineLocks(s.idLocks, IdFinds(s.pcs), idTab)
    requires Indexed(keyTab, KeyLines(s.rec), KeySet(s.all, h')) && LineLocks(s.keyLocks, KeyFinds(s.pcs), keyTab)
    ensures Inv(Goto(s.(idTab := idTab, keyTab := keyTab), t, h'))
  {
    var h := s.pcs[t];
    HolderMoves(s, t, h');
    BufsGoto(s.free, OwnedSet(s.all, h), h, s.ref, s.handles, s.pcs, h', t, h');
    Assemble(Goto(s.(idTab := idTab, keyTab := keyTab), t, h'));
  }

  lemma StepLinkId(s: State, t: Tid, b: Buf, line: nat)
    requires Inv(s) && t < |s.pcs| && s.pcs[t] == AddLinkId(b) && b < |s.rec|
    requires line == IdHash(s.rec[b].id) && line !in s.idLocks
    ensures Inv(Goto(s.(idTab := s.idTab[line := [b] + s.idTab[line]]), t, AddLinkKey(b)))
  {
    assert IdLines(s.rec)[b] == line;
    LockedLineStays(s.idLocks, IdFinds(s.pcs), s.idTab, line, [b] + s.idTab[line]);
    ListMove(s, t, AddLinkKey(b), s.idTab[line := [b] + s.idTab[line]], s.keyTab);
  }

  lemma StepLinkKey(s: State, t: Tid, b: Buf, line: nat)
    requires Inv(s) && t < |s.pcs| && s.pcs[t] == AddLinkKey(b) && b < |s.rec|
    requires line == KeyHash(s.rec[b].key) && line !in s.keyLocks
    ensures Inv(Goto(s.(keyTab := s.keyTab[line := [b] + s.keyTab[line]]), t, AddLinkAll(b)))
  {
    assert KeyLines(s.rec)[b] == line;
    LockedLineStays(s.keyLocks, KeyFinds(s.pcs), s.keyTab, line, [b] + s.keyTab[line]);
    ListMove(s, t, AddLinkAll(b), s.idTab, s.keyTab[line := [b] + s.keyTab[line]]);
  }

  lemma StepUnlinkId(s: State, t: Tid, b: Buf, line: nat)
    requires Inv(s) && t < |s.pcs| && s.pcs[t] == DelUnlinkId(b) && b < |s.rec|
    requires line == IdHash(s.rec[b].id) && line !in s.idLocks
    ensures Inv(Goto(s.(idTab := s.idTab[line := Remove(s.idTab[line], b)]), t, DelUnlinkKey(b)))
  {
    assert IdLines(s.rec)[b] == line;
    IndexRemove(s.idTab, IdLines(s.rec), AllSet(s.all), b);
    LockedLineStays(s.idLocks, IdFinds(s.pcs), s.idTab, line, Remove(s.idTab[line], b));
    ListMove(s, t, DelUnlinkKey(b), s.idTab[line := Remove(s.idTab[line], b)], s.keyTab);
  }

  lemma StepUnlinkKey(s: State, t: Tid, b: Buf, line: nat)
    requires Inv(s) && t < |s.pcs| && s.pcs[t] == DelUnlinkKey(b) && b < |s.rec|
    requires line == KeyHash(s.rec[b].key) && line !in s.keyLocks
    ensures Inv(Goto(s.(keyTab := s.keyTab[line := Remove(s.keyTab[line], b)]), t, DelUnlinkAll(b)))
  {
    assert KeyLines(s.rec)[b] == line;
    IndexRemove(s.keyTab, KeyLines(s.rec), AllSet(s.all), b);
    LockedLineStays(s.keyLocks, KeyFinds(s.pcs), s.keyTab, line, Remove(s.keyTab[line], b));
    ListMove(s, t, DelUnlinkAll(b), s.idTab, s.keyTab[line := Remove(s.keyTab[line], b)]);
  }

  lemma SetsLinkAll(all: seq<Buf>, b: Buf)
    ensures AllSet([b] + all) == AllSet(all) + {b}
    ensures IdSet([b] + all, AddCount(b)) == IdSet(all, AddLinkAll(b))
    ensures KeySet([b] + all, AddCount(b)) == KeySet(all, AddLinkAll(b))
    ensures PresentSet([b] + all, AddCount(b)) == PresentSet(all, AddLinkAll(b))
    ensures OwnedSet([b] + all, AddCount(b)) == OwnedSet(all, AddLinkAll(b))
  {
  }

  lemma SetsUnlinkAll(all: seq<Buf>, b: Buf)
    requires NoDup(all) && b in all
    ensures NoDup(Remove(all, b)) && b !in Remove(all, b) && |Remove(all, b)| == |all| - 1
    ensures IdSet(Remove(all, b), DelCount(b)) == IdSet(all, DelUnlinkAll(b))
    ensures KeySet(Remove(all, b), DelCount(b)) == KeySet(all, DelUnlinkAll(b))
    ensures PresentSet(Remove(all, b), DelCount(b)) == PresentSet(all, DelUnlinkAll(b)) - {b}
    ensures OwnedSet(Remove(all, b), DelCount(b)) == OwnedSet(all, DelUnlinkAll(b))
  {
    RemoveFromNoDup(all, b);
    assert AllSet(Remove(all, b)) == AllSet(all) - {b};
  }

  lemma StepLinkAll(s: State, t: Tid, b: Buf)
    requires Inv(s) && t < |s.pcs| && s.pcs[t] == AddLinkAll(b) && b < |s.rec|
    ensures Inv(AddStep(s, t).value)
  {
    var h, h' := s.pcs[t], AddCount(b);
    HolderMoves(s, t, h');
    SetsLinkAll(s.all, b);
    BufsGoto(s.free, OwnedSet(s.all, h), h, s.ref, s.handles, s.pcs, h', t, h');
    Assemble(AddStep(s, t).value);
  }

  lemma StepUnlinkAll(s: State, t: Tid, b: Buf)
    requires Inv(s) && t < |s.pcs| && s.pcs[t] == DelUnlinkAll(b) && b < |s.rec|
    ensures Inv(DelStep(s, t).value)
  {
    var h, h' := s.pcs[t], DelCount(b);
    HolderMoves(s, t, h');
    SetsUnlinkAll(s.all, b);
    BufsGoto(s.free, OwnedSet(s.all, h), h, s.ref, s.handles, s.pcs, h', t, h');
    Assemble(DelStep(s, t).value);
  }

  lemma UnknownKeyIsNew(s: State, k: Key)
    requires Inv(s) && Holder(s).AddSearch?
    ensures FindKey(s.keyTab[KeyHash(k)], s.rec, k).None? ==> forall b | b in AllSet(s.all) :: s.rec[b].key != k
  {
    if FindKey(s.keyTab[KeyHash(k)], s.rec, k).None? {
      forall b | b in AllSet(s.all)
        ensures s.rec[b].key != k
      {
        assert b in s.keyTab[KeyLines(s.rec)[b]];
      }
    }
  }

  lemma StepAddSearch(s: State, t: Tid)
    requires Inv(s) && t < |s.pcs| && s.pcs[t].AddSearch? && AddStep(s, t).Some?
    ensures Inv(AddStep(s, t).value)
  {
    var k, v := s.pcs[t].key, s.pcs[t].priv;
    UnknownKeyIsNew(s, k);
    PureMove(s, t, if FindKey(s.keyTab[KeyHash(k)], s.rec, k).Some? then Unlock else AddAlloc(k, v));
  }

  lemma StepAddAlloc(s: State, t: Tid)
    requires Inv(s) && t < |s.pcs| && s.pcs[t].AddAlloc? && s.free != []
    ensures Inv(AddStep(s, t).value)
  {
    var h := s.pcs[t];
    assert s.free[0] in s.free;
    var h' := AddGenId(h.key, h.priv, s.free[0]);
    BufsAlloc(s.free, AllSet(s.all), h, s.ref, s.handles, s.pcs, t, h');
    AllocParts(s, t, h');
  }

  lemma AllocParts(s: State, t: Tid, h': Pc)
    requires Inv(s) && t < |s.pcs| && s.pcs[t].AddAlloc? && s.free != []
    requires h' == AddGenId(s.pcs[t].key, s.pcs[t].priv, s.free[0]) && h'.b < |s.ref| && h'.b !in s.all
    requires Bufs(s.free[1..], AllSet(s.all), h', s.ref, s.handles, s.pcs[t := h'])
    ensures Inv(Goto(s.(free := s.free[1..]), t, h'))
  {
    HolderMoves(s, t, h');
    assert IdSet(s.all, h') == KeySet(s.all, h') == PresentSet(s.all, h') == OwnedSet(s.all, h') == AllSet(s.all);
    Assemble(Goto(s.(free := s.free[1..]), t, h'));
  }

  lemma BufsAlloc(free: seq<Buf>, owned: set<Buf>, h: Pc, ref: seq<nat>, handles: multiset<Buf>, pcs: seq<Pc>,
                  t: Tid, h': Pc)
    requires Bufs(free, owned, h, ref, handles, pcs) && t < |pcs| && pcs[t] == h && h.AddAlloc?
    requires free != [] && h'.AddGenId? && h'.b == free[0] && free[0] < |ref|
    ensures free[0] !in owned && Bufs(free[1..], owned, h', ref, handles, pcs[t := h'])
  {
    var b := free[0];
    assert b in free && b !in free[1..] && forall c :: c in free && c != b ==> c in free[1..];
    assert BufOk(true, false, b in owned, ref[b], handles[b], pcs, b);
    DyingFrame(pcs, t, h', b);
    BufsPoint(free, owned, h, ref, handles, pcs, free[1..], owned, h', ref, handles, t, h', b);
  }

  /** Skipping an id that is taken. */
  lemma StepSkipId(s: State, nextId: nat)
    requires Inv(s) && nextId < ID_SPACE
    ensures Inv(s.(nextId := nextId))
  {
    assert Holder(s.(nextId := nextId)) == Holder(s);
  }

  lemma StepBuild(s: State, t: Tid)
    requires Inv(s) && t < |s.pcs| && s.pcs[t].AddGenId? && s.pcs[t].b < |s.rec|
    requires IdHash(s.nextId) !in s.idLocks && FindId(s.idTab[IdHash(s.nextId)], s.rec, s.nextId).None?
    ensures Inv(AddStep(s, t).value)
  {
    var h, b := s.pcs[t], s.pcs[t].b;
    forall c | c in AllSet(s.all)
      ensures s.rec[c].id != s.nextId
    {
      assert c in s.idTab[IdLines(s.rec)[c]];
    }
    BufsBuild(s.free, AllSet(s.all), h, s.ref, s.handles, s.pcs, t, b);
    BuildParts(s, t, b);
  }

  lemma BufsBuild(free: seq<Buf>, owned: set<Buf>, h: Pc, ref: seq<nat>, handles: multiset<Buf>, pcs: seq<Pc>,
                  t: Tid, b: Buf)
    requires Bufs(free, owned, h, ref, handles, pcs) && t < |pcs| && pcs[t] == h && h.AddGenId? && h.b == b && b < |ref|
    ensures b !in owned
    ensures Bufs(free, owned + {b}, AddLinkId(b), ref[b := 1], handles, pcs[t := AddLinkId(b)])
  {
    assert BufOk(b in free, true, b in owned, ref[b], handles[b], pcs, b);
    DyingFrame(pcs, t, AddLinkId(b), b);
    BufsPoint(free, owned, h, ref, handles, pcs,
              free, owned + {b}, AddLinkId(b), ref[b := 1], handles, t, AddLinkId(b), b);
  }

  lemma BuildParts(s: State, t: Tid, b: Buf)
    requires Inv(s) && t < |s.pcs| && s.pcs[t].AddGenId? && s.pcs[t].b == b && b < |s.ref| && b !in s.all
    requires forall c | c in AllSet(s.all) :: c < |s.rec| && s.rec[c].id != s.nextId
    requires Bufs(s.free, AllSet(s.all) + {b}, AddLinkId(b), s.ref[b := 1], s.handles, s.pcs[t := AddLinkId(b)])
    ensures Inv(Goto(s.(rec := s.rec[b := Rec(s.nextId, s.pcs[t].key, s.pcs[t].priv)], ref := s.ref[b := 1],
                        nextId := BumpId(s.nextId)), t, AddLinkId(b)))
  {
    var h, h' := s.pcs[t], AddLinkId(b);
    var rec' := s.rec[b := Rec(s.nextId, h.key, h.priv)];
    HolderMoves(s, t, h');
    IndexFrame(s.idTab, IdLines(s.rec), IdLines(rec'), AllSet(s.all));
    IndexFrame(s.keyTab, KeyLines(s.rec), KeyLines(rec'), AllSet(s.all));
    assert Unique(rec', AllSet(s.all) + {b}, BumpId(s.nextId), h');
    Assemble(Goto(s.(rec := rec', ref := s.ref[b := 1], nextId := BumpId(s.nextId)), t, h'));
  }

  lemma StepAddCount(s: State, t: Tid)
    requires Inv(s) && t < |s.pcs| && s.pcs[t].AddCount?
    ensures Inv(AddStep(s, t).value)
  {
    var h := s.pcs[t];
    HolderMoves(s, t, Unlock);
    BufsGoto(s.free, OwnedSet(s.all, h), h, s.ref, s.handles, s.pcs, Unlock, t, Unlock);
    Assemble(AddStep(s, t).value);
  }

  lemma StepDelSearch(s: State, t: Tid)
    requires Inv(s) && t < |s.pcs| && s.pcs[t].DelSearch? && DelStep(s, t).Some?
    ensures Inv(DelStep(s, t).value)
  {
    var k := s.pcs[t].key;
    match FindKey(s.keyTab[KeyHash(k)], s.rec, k) {
      case None => PureMove(s, t, Unlock);
      case Some(b) =>
        assert b in KeySet(s.all, s.pcs[t]);
        PureMove(s, t, DelUnlinkId(b));
    }
  }

  lemma StepDelCount(s: State, t: Tid)
    requires Inv(s) && t < |s.pcs| && s.pcs[t].DelCount?
    ensures Inv(DelStep(s, t).value)
  {
    var h, h' := s.pcs[t], DelDec(s.pcs[t].b);
    HolderMoves(s, t, h');
    BufsGoto(s.free, OwnedSet(s.all, h), h, s.ref, s.handles, s.pcs, h', t, h');
    Assemble(DelStep(s, t).value);
  }

  lemma StepDelDec(s: State, t: Tid, b: Buf, h': Pc)
    requires Inv(s) && t < |s.pcs| && s.pcs[t] == DelDec(b) && b < |s.ref|
    requires h' == DelFree(b) || h' == Unlock
    requires s.ref[b] >= 1
    requires Bufs(s.free, AllSet(s.all), h', s.ref[b := s.ref[b] - 1], s.handles, s.pcs[t := h'])
    ensures Inv(Goto(s.(ref := s.ref[b := s.ref[b] - 1]), t, h'))
  {
    var h := s.pcs[t];
    HolderMoves(s, t, h');
    assert IdSet(s.all, h') == IdSet(s.all, h) && KeySet(s.all, h') == KeySet(s.all, h);
    assert PresentSet(s.all, h') == PresentSet(s.all, h) && OwnedSet(s.all, h') == AllSet(s.all);
    Assemble(Goto(s.(ref := s.ref[b := s.ref[b] - 1]), t, h'));
  }

  lemma DelDecKeepsInv(s: State, t: Tid, b: Buf)
    requires Inv(s) && t < |s.pcs| && s.pcs[t] == DelDec(b) && b < |s.ref| && Roomy(s)
    ensures Inv(DelStep(s, t).value)
  {
    var h' := DelDecBufs(s, t, b);
    DecStays32(s, b);
    StepDelDec(s, t, b, h');
  }

  /** A count that is not 0 goes down by one. */
  lemma DecStays32(s: State, b: Buf)
    requires b < |s.ref| && s.ref[b] >= 1 && (s.ref[b] + UINT32 - 1) % UINT32 == s.ref[b] - 1
    ensures Dec(s, b) == s.(ref := s.ref[b := s.ref[b] - 1])
  {
  }

  lemma DelDecBufs(s: State, t: Tid, b: Buf) returns (h': Pc)
    requires Inv(s) && t < |s.pcs| && s.pcs[t] == DelDec(b) && Holder(s) == DelDec(b) && b < |s.ref| && Roomy(s)
    ensures s.ref[b] >= 1 && (s.ref[b] + UINT32 - 1) % UINT32 == s.ref[b] - 1
    ensures h' == if s.ref[b] == 1 then DelFree(b) else Unlock
    ensures Bufs(s.free, AllSet(s.all), h', s.ref[b := s.ref[b] - 1], s.handles, s.pcs[t := h'])
  {
    h' := if s.ref[b] == 1 then DelFree(b) else Unlock;
    BufsDrop(s.free, OwnedSet(s.all, DelDec(b)), AllSet(s.all), s.ref, s.handles, s.pcs, t, h', b);
  }

  /** `del` gives back the table's own reference; whoever drops the last one frees. */
  lemma BufsDrop(free: seq<Buf>, owned: set<Buf>, owned': set<Buf>, ref: seq<nat>, handles: multiset<Buf>, pcs: seq<Pc>,
                 t: Tid, h': Pc, b: Buf)
    requires Bufs(free, owned, DelDec(b), ref, handles, pcs) && t < |pcs| && pcs[t] == DelDec(b) && b < |ref|
    requires b in owned && owned' == owned - {b}
    requires h' == if ref[b] == 1 then DelFree(b) else Unlock
    requires handles[b] < UINT32 - 2
    ensures ref[b] >= 1 && (ref[b] + UINT32 - 1) % UINT32 == ref[b] - 1
    ensures Bufs(free, owned', h', ref[b := ref[b] - 1], handles, pcs[t := h'])
  {
    assert BufOk(b in free, false, true, ref[b], handles[b], pcs, b);
    if ref[b] == 1 {
      StartsFreeing(pcs, t, h', b);
    } else {
      DyingFrame(pcs, t, h', b);
    }
    BufsPoint(free, owned, DelDec(b), ref, handles, pcs,
              free, owned', h', ref[b := ref[b] - 1], handles, t, h', b);
  }

  lemma StepDelFree(s: State, t: Tid)
    requires Inv(s) && t < |s.pcs| && s.pcs[t].DelFree?
    ensures Inv(DelStep(s, t).value)
  {
    var h, b := s.pcs[t], s.pcs[t].b;
    HolderMoves(s, t, Unlock);
    FreeBuffer(s, t, Unlock, Unlock);
    Assemble(DelStep(s, t).value);
  }

  /** A thread that is about to free a buffer is its only user, so the pool takes it back intact. */
  lemma FreeBuffer(s: State, t: Tid, pc: Pc, h': Pc)
    requires Inv(s) && t < |s.pcs| && (s.pcs[t].DelFree? || s.pcs[t].PutFree?) && (pc == Unlock || pc == Idle)
    requires h' == if s.pcs[t].DelFree? then Unlock else Holder(s)
    ensures var b := s.pcs[t].b;
      b !in s.free && Bufs(s.free + [b], OwnedSet(s.all, h'), h', s.ref, s.handles, s.pcs[t := pc])
  {
    var b, h := s.pcs[t].b, Holder(s);
    var owned := OwnedSet(s.all, h);
    assert OwnedSet(s.all, h') == owned;
    assert Dying(s.pcs[t], b);
    assert BufOk(b in s.free, Building(h, b), b in owned, s.ref[b], s.handles[b], s.pcs, b);
    var u :| OneFrees(s.pcs, u, b);
    BufsPoint(s.free, owned, h, s.ref, s.handles, s.pcs,
              s.free + [b], owned, h', s.ref, s.handles, t, pc, b);
  }

  // ----- Threads outside add_del_lock -----

  lemma StepEnter(s: State, t: Tid, pc: Pc)
    requires Inv(s) && t < |s.pcs| && s.pcs[t] == Idle && s.addDel == None && (pc.AddSearch? || pc.DelSearch?)
    ensures Inv(Goto(s.(addDel := Some(t)), t, pc))
  {
    var s' := Goto(s.(addDel := Some(t)), t, pc);
    NoFinds(s.pcs, t, pc);
    BufsGoto(s.free, AllSet(s.all), Idle, s.ref, s.handles, s.pcs, pc, t, pc);
    assert Holder(s) == Idle && Holder(s') == pc;
    Assemble(s');
  }

  lemma StepUnlock(s: State, t: Tid)
    requires Inv(s) && t < |s.pcs| && s.pcs[t] == Unlock
    ensures Inv(Goto(s.(addDel := None), t, Idle))
  {
    var s' := Goto(s.(addDel := None), t, Idle);
    NoFinds(s.pcs, t, Idle);
    BufsGoto(s.free, AllSet(s.all), Unlock, s.ref, s.handles, s.pcs, Idle, t, Idle);
    Assemble(s');
  }

  /** Lookups and puts change only locks, counts, handles, the pool and their own program point. */
  lemma OtherKeeps(s: State, s': State, t: Tid, pc: Pc)
    requires Inv(s) && t < |s.pcs| && !HoldsAddDel(s.pcs[t]) && !HoldsAddDel(pc) && PcInArena(pc, |s.rec|)
    requires s' == s.(free := s'.free, ref := s'.ref, idLocks := s'.idLocks, keyLocks := s'.keyLocks,
                      handles := s'.handles, pcs := s.pcs[t := pc])
    requires |s'.ref| == |s.rec|
    requires LineLocks(s'.keyLocks, KeyFinds(s'.pcs), s.keyTab) && LineLocks(s'.idLocks, IdFinds(s'.pcs), s.idTab)
    requires Bufs(s'.free, OwnedSet(s.all, Holder(s)), Holder(s), s'.ref, s'.handles, s'.pcs)
    ensures Inv(s')
  {
    assert Holder(s') == Holder(s);
    Assemble(s');
  }

  lemma NoFinds(pcs: seq<Pc>, t: Tid, pc: Pc)
    requires t < |pcs| && !pcs[t].GetKeyFound? && !pcs[t].GetIdFound?
    ensures !pc.GetKeyFound? ==> KeyFinds(pcs[t := pc]) == KeyFinds(pcs)
    ensures !pc.GetIdFound? ==> IdFinds(pcs[t := pc]) == IdFinds(pcs)
    ensures KeyFinds(pcs)[t] == None && IdFinds(pcs)[t] == None
  {
    FindsGoto(pcs, t, pc);
  }

  lemma StepFindKey(s: State, t: Tid, line: nat, b: Buf)
    requires Inv(s) && t < |s.pcs| && s.pcs[t] == Idle && line < MAX_HASH_LINE_NUM && line !in s.keyLocks
    requires b in s.keyTab[line]
    ensures Inv(Goto(s.(keyLocks := s.keyLocks[line := t]), t, GetKeyFound(line, b)))
  {
    var pc, h := GetKeyFound(line, b), Holder(s);
    FindsGoto(s.pcs, t, pc);
    NoFinds(s.pcs, t, pc);
    TakeLine(s.keyLocks, KeyFinds(s.pcs), s.keyTab, t, Found(line, b));
    BufsGoto(s.free, OwnedSet(s.all, h), h, s.ref, s.handles, s.pcs, h, t, pc);
    OtherKeeps(s, Goto(s.(keyLocks := s.keyLocks[line := t]), t, pc), t, pc);
  }

  lemma StepFindId(s: State, t: Tid, line: nat, b: Buf)
    requires Inv(s) && t < |s.pcs| && s.pcs[t] == Idle && line < MAX_HASH_LINE_NUM && line !in s.idLocks
    requires b in s.idTab[line]
    ensures Inv(Goto(s.(idLocks := s.idLocks[line := t]), t, GetIdFound(line, b)))
  {
    var pc, h := GetIdFound(line, b), Holder(s);
    FindsGoto(s.pcs, t, pc);
    NoFinds(s.pcs, t, pc);
    TakeLine(s.idLocks, IdFinds(s.pcs), s.idTab, t, Found(line, b));
    BufsGoto(s.free, OwnedSet(s.all, h), h, s.ref, s.handles, s.pcs, h, t, pc);
    OtherKeeps(s, Goto(s.(idLocks := s.idLocks[line := t]), t, pc), t, pc);
  }

  /** Taking a reference on an entry that the table owns. */
  lemma BufsInc(free: seq<Buf>, owned: set<Buf>, h: Pc, ref: seq<nat>, handles: multiset<Buf>, pcs: seq<Pc>,
                t: Tid, b: Buf)
    requires Bufs(free, owned, h, ref, handles, pcs) && t < |pcs| && b in owned && b < |ref|
    requires forall c :: !Dying(pcs[t], c)
    requires handles[b] < UINT32 - 2
    ensures Bufs(free, owned, h, ref[b := (ref[b] + 1) % UINT32], handles + multiset{b}, pcs[t := Idle])
  {
    var ref' := ref[b := (ref[b] + 1) % UINT32];
    assert BufOk(b in free, Building(h, b), true, ref[b], handles[b], pcs, b);
    DyingFrame(pcs, t, Idle, b);
    BufsPoint(free, owned, h, ref, handles, pcs, free, owned, h, ref', handles + multiset{b}, t, Idle, b);
  }

  lemma RefKeyLocks(s: State, t: Tid, b: Buf)
    requires Inv(s) && t < |s.pcs| && s.pcs[t].GetKeyFound? && b == s.pcs[t].b
    ensures LineLocks(s.keyLocks - {s.pcs[t].line}, KeyFinds(s.pcs[t := Idle]), s.keyTab)
    ensures IdFinds(s.pcs[t := Idle]) == IdFinds(s.pcs)
    ensures b in OwnedSet(s.all, Holder(s))
  {
    var h, line := Holder(s), s.pcs[t].line;
    FindsGoto(s.pcs, t, Idle);
    assert KeyFinds(s.pcs)[t] == Some(Found(line, b)) && IdFinds(s.pcs)[t := None] == IdFinds(s.pcs);
    DropLine(s.keyLocks, KeyFinds(s.pcs), s.keyTab, t);
  }

  lemma StepRefKey(s: State, t: Tid, b: Buf)
    requires Inv(s) && t < |s.pcs| && s.pcs[t].GetKeyFound? && b == s.pcs[t].b && b < |s.ref|
    requires s.handles[b] < UINT32 - 2
    ensures Inv(Goto(Inc(s, b).(keyLocks := s.keyLocks - {s.pcs[t].line}), t, Idle))
  {
    RefKeyLocks(s, t, b);
    BufsInc(s.free, OwnedSet(s.all, Holder(s)), Holder(s), s.ref, s.handles, s.pcs, t, b);
    OtherKeeps(s, Goto(Inc(s, b).(keyLocks := s.keyLocks - {s.pcs[t].line}), t, Idle), t, Idle);
  }

  lemma RefIdLocks(s: State, t: Tid, b: Buf)
    requires Inv(s) && t < |s.pcs| && s.pcs[t].GetIdFound? && b == s.pcs[t].b
    ensures LineLocks(s.idLocks - {s.pcs[t].line}, IdFinds(s.pcs[t := Idle]), s.idTab)
    ensures KeyFinds(s.pcs[t := Idle]) == KeyFinds(s.pcs)
    ensures b in OwnedSet(s.all, Holder(s))
  {
    var h, line := Holder(s), s.pcs[t].line;
    FindsGoto(s.pcs, t, Idle);
    assert IdFinds(s.pcs)[t] == Some(Found(line, b)) && KeyFinds(s.pcs)[t := None] == KeyFinds(s.pcs);
    DropLine(s.idLocks, IdFinds(s.pcs), s.idTab, t);
  }

  lemma StepRefId(s: State, t: Tid, b: Buf)
    requires Inv(s) && t < |s.pcs| && s.pcs[t].GetIdFound? && b == s.pcs[t].b && b < |s.ref|
    requires s.handles[b] < UINT32 - 2
    ensures Inv(Goto(Inc(s, b).(idLocks := s.idLocks - {s.pcs[t].line}), t, Idle))
  {
    RefIdLocks(s, t, b);
    BufsInc(s.free, OwnedSet(s.all, Holder(s)), Holder(s), s.ref, s.handles, s.pcs, t, b);
    OtherKeeps(s, Goto(Inc(s, b).(idLocks := s.idLocks - {s.pcs[t].line}), t, Idle), t, Idle);
  }

  lemma StepPutFree(s: State, t: Tid)
    requires Inv(s) && t < |s.pcs| && s.pcs[t].PutFree?
    ensures Inv(Goto(s.(free := s.free + [s.pcs[t].b]), t, Idle))
  {
    NoFinds(s.pcs, t, Idle);
    FreeBuffer(s, t, Idle, Holder(s));
    OtherKeeps(s, Goto(s.(free := s.free + [s.pcs[t].b]), t, Idle), t, Idle);
  }

  /** Giving back one handle. */
  lemma BufsPut(free: seq<Buf>, owned: set<Buf>, h: Pc, ref: seq<nat>, handles: multiset<Buf>, pcs: seq<Pc>,
                t: Tid, b: Buf)
    requires Bufs(free, owned, h, ref, handles, pcs) && t < |pcs| && pcs[t] == Idle && b in handles
    requires handles[b] < UINT32 - 1
    ensures b < |ref| && ref[b] >= 1 && (ref[b] + UINT32 - 1) % UINT32 == ref[b] - 1
    ensures Bufs(free, owned, h, ref[b := ref[b] - 1], handles - multiset{b},
                 pcs[t := if ref[b] == 1 then PutFree(b) else Idle])
  {
    assert BufOk(b in free, Building(h, b), b in owned, ref[b], handles[b], pcs, b);
    var pc := if ref[b] == 1 then PutFree(b) else Idle;
    if ref[b] == 1 {
      StartsFreeing(pcs, t, pc, b);
    } else {
      DyingFrame(pcs, t, pc, b);
    }
    BufsPoint(free, owned, h, ref, handles, pcs, free, owned, h, ref[b := ref[b] - 1], handles - multiset{b}, t, pc, b);
  }

  lemma PutParts(s: State, t: Tid, b: Buf, pc: Pc)
    requires Inv(s) && t < |s.pcs| && s.pcs[t] == Idle && b in s.handles && b < |s.ref|
    requires s.ref[b] >= 1 && pc == if s.ref[b] == 1 then PutFree(b) else Idle
    requires Bufs(s.free, OwnedSet(s.all, Holder(s)), Holder(s), s.ref[b := s.ref[b] - 1], s.handles - multiset{b},
                  s.pcs[t := pc])
    ensures Inv(Goto(s.(ref := s.ref[b := s.ref[b] - 1], handles := s.handles - multiset{b}), t, pc))
  {
    NoFinds(s.pcs, t, pc);
    OtherKeeps(s, Goto(s.(ref := s.ref[b := s.ref[b] - 1], handles := s.handles - multiset{b}), t, pc), t, pc);
  }

  lemma PutIs(s: State, t: Tid, b: Buf, pc: Pc)
    requires WellFormed(s) && t < |s.pcs| && s.pcs[t] == Idle && b in s.handles && b < |s.ref|
    requires s.ref[b] >= 1 && (s.ref[b] + UINT32 - 1) % UINT32 == s.ref[b] - 1
    requires pc == if s.ref[b] == 1 then PutFree(b) else Idle
    ensures StartCall(s, t, Put(b)) ==
      Some(Goto(s.(ref := s.ref[b := s.ref[b] - 1], handles := s.handles - multiset{b}), t, pc))
  {
    assert s.pcs[t := Idle] == s.pcs;
  }

  lemma StepPut(s: State, t: Tid, b: Buf) returns (s': State)
    requires Inv(s) && t < |s.pcs| && s.pcs[t] == Idle && b in s.handles && b < |s.ref| && Roomy(s)
    ensures StartCall(s, t, Put(b)) == Some(s') && Inv(s')
  {
    BufsPut(s.free, OwnedSet(s.all, Holder(s)), Holder(s), s.ref, s.handles, s.pcs, t, b);
    var pc := if s.ref[b] == 1 then PutFree(b) else Idle;
    PutIs(s, t, b, pc);
    PutParts(s, t, b, pc);
    s' := Goto(s.(ref := s.ref[b := s.ref[b] - 1], handles := s.handles - multiset{b}), t, pc);
  }

  // ----- Main results: every interleaving -----

  lemma AddKeepsInv(s: State, t: Tid)
    requires Inv(s) && t < |s.pcs| && IsAdd(s.pcs[t]) && PcInArena(s.pcs[t], |s.rec|) && AddStep(s, t).Some?
    ensures Inv(AddStep(s, t).value)
  {
    match s.pcs[t] {
      case AddSearch(k, v) => StepAddSearch(s, t);
      case AddAlloc(k, v) =>
        if s.free == [] {
          PureMove(s, t, Unlock);
        } else {
          StepAddAlloc(s, t);
        }
      case AddGenId(k, v, b) =>
        if FindId(s.idTab[IdHash(s.nextId)], s.rec, s.nextId).Some? {
          StepSkipId(s, BumpId(s.nextId));
        } else {
          StepBuild(s, t);
        }
      case AddLinkId(b) => StepLinkId(s, t, b, IdHash(s.rec[b].id));
      case AddLinkKey(b) => StepLinkKey(s, t, b, KeyHash(s.rec[b].key));
      case AddLinkAll(b) => StepLinkAll(s, t, b);
      case AddCount(b) => StepAddCount(s, t);
    }
  }

  lemma DelKeepsInv(s: State, t: Tid)
    requires Inv(s) && t < |s.pcs| && IsDel(s.pcs[t]) && PcInArena(s.pcs[t], |s.rec|) && DelStep(s, t).Some?
    requires Roomy(s)
    ensures Inv(DelStep(s, t).value)
  {
    match s.pcs[t] {
      case DelSearch(k) => StepDelSearch(s, t);
      case DelUnlinkId(b) => StepUnlinkId(s, t, b, IdHash(s.rec[b].id));
      case DelUnlinkKey(b) => StepUnlinkKey(s, t, b, KeyHash(s.rec[b].key));
      case DelUnlinkAll(b) => StepUnlinkAll(s, t, b);
      case DelCount(b) => StepDelCount(s, t);
      case DelDec(b) => DelDecKeepsInv(s, t, b);
      case DelFree(b) => StepDelFree(s, t);
    }
  }

  lemma StartKeepsInv(s: State, t: Tid, call: Call)
    requires Inv(s) && t < |s.pcs| && s.pcs[t] == Idle && StartCall(s, t, call).Some? && Roomy(s)
    ensures Inv(StartCall(s, t, call).value)
  {
    match call {
      case Add(k, v) => StepEnter(s, t, AddSearch(k, v));
      case Del(k) => StepEnter(s, t, DelSearch(k));
      case GetByKey(k) =>
        var r := FindKey(s.keyTab[KeyHash(k)], s.rec, k);
        if r.Some? {
          StepFindKey(s, t, KeyHash(k), r.value);
        }
      case GetById(id) =>
        var r := FindId(s.idTab[IdHash(id)], s.rec, id);
        if r.Some? {
          StepFindId(s, t, IdHash(id), r.value);
        }
      case Put(b) => var s' := StepPut(s, t, b);
    }
  }

  lemma PcFits(s: State, t: Tid)
    requires Inv(s) && t < |s.pcs|
    ensures PcInArena(s.pcs[t], |s.rec|)
  {
  }

  lemma StepKeepsInv(s: State, t: Tid, call: Call)
    requires Inv(s) && t < |s.pcs| && PcInArena(s.pcs[t], |s.rec|) && Step(s, t, call).Some? && Roomy(s)
    ensures Inv(Step(s, t, call).value)
  {
    var pc := s.pcs[t];
    if pc.Idle? {
      StartKeepsInv(s, t, call);
    } else if IsAdd(pc) {
      AddKeepsInv(s, t);
    } else if IsDel(pc) {
      DelKeepsInv(s, t);
    } else if pc.GetKeyFound? {
      StepRefKey(s, t, pc.b);
    } else if pc.GetIdFound? {
      StepRefId(s, t, pc.b);
    } else if pc.PutFree? {
      StepPutFree(s, t);
    } else {
      StepUnlock(s, t);
    }
  }

  datatype Move = Move(t: Tid, call: Call)

  /** One move of a schedule; a thread that has to wait stays where it is. */
  function Next(s: State, m: Move): State {
    if m.t < |s.pcs| && WellFormed(s) && PcInArena(s.pcs[m.t], |s.rec|) && Step(s, m.t, m.call).Some?
    then Step(s, m.t, m.call).value
    else s
  }

  /** A schedule of any threads and calls leads from `s` to `s'` without a count about to overflow. */
  ghost predicate Reaches(s: State, moves: seq<Move>, s': State)
    decreases |moves|
  {
    if moves == [] then s' == s else Roomy(s) && Reaches(Next(s, moves[0]), moves[1..], s')
  }

  lemma NextKeepsInv(s: State, m: Move)
    requires Inv(s) && Roomy(s)
    ensures Inv(Next(s, m))
  {
    if m.t < |s.pcs| && PcInArena(s.pcs[m.t], |s.rec|) && Step(s, m.t, m.call).Some? {
      StepKeepsInv(s, m.t, m.call);
    }
  }

  lemma {:induction false} RunKeepsInv(s: State, moves: seq<Move>, s': State)
    requires Inv(s) && Reaches(s, moves, s')
    ensures Inv(s')
    decreases |moves|
  {
    if moves == [] {
    } else {
      NextKeepsInv(s, moves[0]);
      RunKeepsInv(Next(s, moves[0]), moves[1..], s');
    }
  }

  lemma ReachesFirst(s: State, m: Move, moves: seq<Move>, s': State)
    ensures Reaches(s, [m] + moves, s') <==> Roomy(s) && Reaches(Next(s, m), moves, s')
  {
    assert ([m] + moves)[1..] == moves;
  }

  /** One schedule after the other. */
  lemma {:induction false} ReachesConcat(s: State, a: seq<Move>, s': State, b: seq<Move>, s'': State)
    requires Reaches(s, a, s') && Reaches(s', b, s'')
    ensures Reaches(s, a + b, s'')
    decreases |a|
  {
    if a == [] {
      assert a + b == b;
    } else {
      assert a == [a[0]] + a[1..] && a + b == [a[0]] + (a[1..] + b);
      ReachesFirst(s, a[0], a[1..], s');
      ReachesConcat(Next(s, a[0]), a[1..], s', b, s'');
      ReachesFirst(s, a[0], a[1..] + b, s'');
    }
  }

  lemma OneMoveMore(s: State, a: seq<Move>, s': State, m: Move)
    requires Reaches(s, a, s') && Roomy(s')
    ensures Reaches(s, a + [m], Next(s', m))
  {
    assert [m][1..] == [];
    ReachesConcat(s, a, s', [m], Next(s', m));
  }

  ghost predicate IsRun(cap: nat, threads: nat, moves: seq<Move>, s: State) {
    Reaches(Init(cap, threads), moves, s)
  }

  lemma RunInv(cap: nat, threads: nat, moves: seq<Move>, s: State)
    requires IsRun(cap, threads, moves, s)
    ensures Inv(s)
  {
    InitInv(cap, threads);
    RunKeepsInv(Init(cap, threads), moves, s);
  }

  /** A buffer is idle in the pool, or being built, or counts exactly the table and the handles. */
  lemma RefCountIsExact(cap: nat, threads: nat, moves: seq<Move>, s: State, b: Buf)
    requires IsRun(cap, threads, moves, s)
    requires b < |s.ref| && b !in s.free && !Building(Holder(s), b)
    ensures s.ref[b] == (if b in OwnedSet(s.all, Holder(s)) then 1 else 0) + s.handles[b]
  {
    RunInv(cap, threads, moves, s);
    assert BufOk(false, false, b in OwnedSet(s.all, Holder(s)), s.ref[b], s.handles[b], s.pcs, b);
  }

  /** The entry that a thread between two steps is about to touch. */
  function Touches(pc: Pc): Option<Buf> {
    match pc
    case AddGenId(_, _, b) => Some(b)
    case AddLinkId(b) => Some(b)
    case AddLinkKey(b) => Some(b)
    case AddLinkAll(b) => Some(b)
    case DelUnlinkId(b) => Some(b)
    case DelUnlinkKey(b) => Some(b)
    case DelUnlinkAll(b) => Some(b)
    case DelDec(b) => Some(b)
    case DelFree(b) => Some(b)
    case GetKeyFound(_, b) => Some(b)
    case GetIdFound(_, b) => Some(b)
    case PutFree(b) => Some(b)
    case _ => None
  }

  /** No use after free: nothing linked, handed out or about to be touched is in the pool. */
  lemma UsedIsNeverFree(cap: nat, threads: nat, moves: seq<Move>, s: State, b: Buf)
    requires IsRun(cap, threads, moves, s)
    requires
      || b in s.all || b in s.handles
      || (exists l :: 0 <= l < |s.idTab| && b in s.idTab[l])
      || (exists l :: 0 <= l < |s.keyTab| && b in s.keyTab[l])
      || (exists t :: 0 <= t < |s.pcs| && Touches(s.pcs[t]) == Some(b))
    ensures b < |s.ref| && b !in s.free
  {
    RunInv(cap, threads, moves, s);
    var h := Holder(s);
    if exists t :: 0 <= t < |s.pcs| && Touches(s.pcs[t]) == Some(b) {
      var t :| 0 <= t < |s.pcs| && Touches(s.pcs[t]) == Some(b);
      assert PcInArena(s.pcs[t], |s.rec|);
      TouchedIsUsed(s, t, b);
    } else {
      assert b in OwnedSet(s.all, h) || b in s.handles;
    }
    assert BufOk(b in s.free, Building(h, b), b in OwnedSet(s.all, h), s.ref[b], s.handles[b], s.pcs, b);
  }

  lemma TouchedIsUsed(s: State, t: Tid, b: Buf)
    requires Inv(s) && t < |s.pcs| && Touches(s.pcs[t]) == Some(b)
    ensures b in OwnedSet(s.all, Holder(s)) || Building(Holder(s), b) || Dying(s.pcs[t], b)
  {
    var pc := s.pcs[t];
    if pc.GetKeyFound? {
      RefKeyLocks(s, t, b);
    } else if pc.GetIdFound? {
      RefIdLocks(s, t, b);
    }
  }

  /** A buffer goes back once, by one thread, when no list and no handle knows it any more. */
  lemma FreedOnceByOne(cap: nat, threads: nat, moves: seq<Move>, s: State, t: Tid, b: Buf)
    requires IsRun(cap, threads, moves, s)
    requires t < |s.pcs| && Dying(s.pcs[t], b)
    ensures WellFormed(s)
    ensures b < |s.ref| && b !in s.free && s.handles[b] == 0 && s.ref[b] == 0
    ensures b !in s.all && forall l | 0 <= l < MAX_HASH_LINE_NUM :: b !in s.idTab[l] && b !in s.keyTab[l]
    ensures forall u | 0 <= u < |s.pcs| && Touches(s.pcs[u]) == Some(b) :: u == t
  {
    RunInv(cap, threads, moves, s);
    var h := Holder(s);
    assert PcInArena(s.pcs[t], |s.rec|);
    assert BufOk(b in s.free, Building(h, b), b in OwnedSet(s.all, h), s.ref[b], s.handles[b], s.pcs, b);
    var o :| OneFrees(s.pcs, o, b);
    forall u | 0 <= u < |s.pcs| && Touches(s.pcs[u]) == Some(b)
      ensures u == t
    {
      TouchedIsUsed(s, u, b);
    }
  }

  /** The holder of add_del_lock has the entry in some of the three indices only. */
  predicate Moving(h: Pc, b: Buf) {
    h == AddLinkKey(b) || h == AddLinkAll(b) || h == DelUnlinkKey(b) || h == DelUnlinkAll(b)
  }

  /** A hash index has an entry exactly if the invariant's set has it. */
  lemma InLine(s: State, b: Buf)
    requires Inv(s) && b < |s.rec|
    ensures b in s.idTab[IdHash(s.rec[b].id)] <==> b in IdSet(s.all, Holder(s))
    ensures b in s.keyTab[KeyHash(s.rec[b].key)] <==> b in KeySet(s.all, Holder(s))
  {
    assert IdLines(s.rec)[b] == IdHash(s.rec[b].id) && KeyLines(s.rec)[b] == KeyHash(s.rec[b].key);
  }

  /** What any line holds is in its own line, and only the entry in motion is not in the all-list. */
  lemma OwnLine(s: State, l: nat, b: Buf)
    requires Inv(s) && l < MAX_HASH_LINE_NUM
    ensures b in s.idTab[l] ==> b < |s.rec| && l == IdHash(s.rec[b].id) && b in PresentSet(s.all, Holder(s))
    ensures b in s.keyTab[l] ==> b < |s.rec| && l == KeyHash(s.rec[b].key) && b in PresentSet(s.all, Holder(s))
  {
    assert b < |s.rec| ==> IdLines(s.rec)[b] == IdHash(s.rec[b].id) && KeyLines(s.rec)[b] == KeyHash(s.rec[b].key);
  }

  /**
   At every moment, also in the middle of an add or a delete, the three indices have the same
   entries except exactly for the one that the holder of add_del_lock is linking or unlinking.
   */
  lemma IndicesAgree(cap: nat, threads: nat, moves: seq<Move>, s: State)
    requires IsRun(cap, threads, moves, s)
    ensures WellFormed(s) && NoDup(s.all)
    ensures s.num == |s.all| + (if Holder(s).AddCount? then -1 else if Holder(s).DelCount? then 1 else 0)
    ensures forall b | 0 <= b < |s.rec| ::
      Moving(Holder(s), b) <==>
        !((b in s.all <==> b in s.idTab[IdHash(s.rec[b].id)]) && (b in s.all <==> b in s.keyTab[KeyHash(s.rec[b].key)]))
    ensures forall l, b | 0 <= l < MAX_HASH_LINE_NUM && b in s.idTab[l] :: b < |s.rec| && l == IdHash(s.rec[b].id)
    ensures forall l, b | 0 <= l < MAX_HASH_LINE_NUM && b in s.keyTab[l] :: b < |s.rec| && l == KeyHash(s.rec[b].key)
    ensures forall b, c | b in s.all && c in s.all && b != c ::
      s.rec[b].id != s.rec[c].id && s.rec[b].key != s.rec[c].key
  {
    RunInv(cap, threads, moves, s);
    assert forall b | b in s.all :: b in AllSet(s.all) && b in PresentSet(s.all, Holder(s));
    forall b | 0 <= b < |s.rec|
      ensures Moving(Holder(s), b) <==>
        !((b in s.all <==> b in s.idTab[IdHash(s.rec[b].id)]) && (b in s.all <==> b in s.keyTab[KeyHash(s.rec[b].key)]))
    {
      InLine(s, b);
    }
    forall l, b | 0 <= l < MAX_HASH_LINE_NUM && (b in s.idTab[l] || b in s.keyTab[l])
      ensures b < |s.rec|
      ensures (b in s.idTab[l] ==> l == IdHash(s.rec[b].id)) && (b in s.keyTab[l] ==> l == KeyHash(s.rec[b].key))
    {
      OwnLine(s, l, b);
    }
  }

  lemma KeySearch(s: State, k: Key, b: Buf)
    requires Inv(s) && b < |s.rec|
    ensures FindKey(s.keyTab[KeyHash(k)], s.rec, k) == Some(b) <==> b in KeySet(s.all, Holder(s)) && s.rec[b].key == k
  {
    var f := FindKey(s.keyTab[KeyHash(k)], s.rec, k);
    InLine(s, b);
    if f.Some? {
      OwnLine(s, KeyHash(k), f.value);
    }
  }

  lemma IdSearch(s: State, id: nat, b: Buf)
    requires Inv(s) && b < |s.rec|
    ensures FindId(s.idTab[IdHash(id)], s.rec, id) == Some(b) <==> b in IdSet(s.all, Holder(s)) && s.rec[b].id == id
  {
    var f := FindId(s.idTab[IdHash(id)], s.rec, id);
    InLine(s, b);
    if f.Some? {
      OwnLine(s, IdHash(id), f.value);
    }
  }

  /** At every moment a bucket search answers exactly as a lookup in the whole index does. */
  lemma SearchIsLookup(cap: nat, threads: nat, moves: seq<Move>, s: State, k: Key, id: nat, b: Buf)
    requires IsRun(cap, threads, moves, s) && b < |s.rec|
    ensures WellFormed(s)
    ensures FindKey(s.keyTab[KeyHash(k)], s.rec, k) == Some(b) <==> b in KeySet(s.all, Holder(s)) && s.rec[b].key == k
    ensures FindId(s.idTab[IdHash(id)], s.rec, id) == Some(b) <==> b in IdSet(s.all, Holder(s)) && s.rec[b].id == id
  {
    RunInv(cap, threads, moves, s);
    KeySearch(s, k, b);
    IdSearch(s, id, b);
  }

  lemma NewKeyIsUnknown(s: State, b: Buf)
    requires Inv(s) && b < |s.rec| && Holder(s) == AddLinkKey(b)
    ensures FindKey(s.keyTab[KeyHash(s.rec[b].key)], s.rec, s.rec[b].key) == None
  {
    var found := FindKey(s.keyTab[KeyHash(s.rec[b].key)], s.rec, s.rec[b].key);
    var c := if found.Some? then found.value else b;
    OwnLine(s, KeyHash(s.rec[b].key), c);
    assert b in PresentSet(s.all, Holder(s)) && b !in KeySet(s.all, Holder(s));
    KeySearch(s, s.rec[b].key, b);
  }

  /**
   An entry is found by its id and not by its key exactly while its add is about to link the key,
   and by its key and not by its id exactly while its delete is about to unlink the key.
   */
  lemma HalfLinkedIff(cap: nat, threads: nat, moves: seq<Move>, s: State, b: Buf)
    requires IsRun(cap, threads, moves, s) && b < |s.rec|
    ensures WellFormed(s)
    ensures var r := s.rec[b];
      var byId, byKey := FindId(s.idTab[IdHash(r.id)], s.rec, r.id), FindKey(s.keyTab[KeyHash(r.key)], s.rec, r.key);
      && (byId == Some(b) && byKey != Some(b) <==> Holder(s) == AddLinkKey(b))
      && (byId != Some(b) && byKey == Some(b) <==> Holder(s) == DelUnlinkKey(b))
      && (Holder(s) == AddLinkKey(b) ==> byKey == None)
  {
    RunInv(cap, threads, moves, s);
    var r := s.rec[b];
    KeySearch(s, r.key, b);
    IdSearch(s, r.id, b);
    if Holder(s) == AddLinkKey(b) {
      NewKeyIsUnknown(s, b);
    }
  }

  /** Nothing leaks: with all calls over and all handles returned, a buffer is free or in the table. */
  lemma NoLeak(cap: nat, threads: nat, moves: seq<Move>, s: State)
    requires IsRun(cap, threads, moves, s)
    requires (forall t | 0 <= t < |s.pcs| :: s.pcs[t] == Idle) && s.handles == multiset{}
    ensures forall b | 0 <= b < |s.ref| :: b in s.free <==> b !in s.all
  {
    RunInv(cap, threads, moves, s);
    assert Holder(s) == Idle;
    forall b | 0 <= b < |s.ref|
      ensures b in s.free <==> b !in s.all
    {
      assert BufOk(b in s.free, false, b in AllSet(s.all), s.ref[b], 0, s.pcs, b);
    }
  }

  /** Either no line is locked, or a lookup holds one. */
  lemma WhoHoldsALine(s: State, t: Tid) returns (u: Tid)
    requires Inv(s) && t < |s.pcs|
    ensures u < |s.pcs|
    ensures s.pcs[u].GetKeyFound? || s.pcs[u].GetIdFound? || (u == t && s.keyLocks == map[] && s.idLocks == map[])
  {
    u := t;
    if line :| line in s.keyLocks {
      u := s.keyLocks[line];
      assert KeyFinds(s.pcs)[u].Some?;
    } else if line :| line in s.idLocks {
      u := s.idLocks[line];
      assert IdFinds(s.pcs)[u].Some?;
    } else {
      assert s.keyLocks == map[] && s.idLocks == map[];
    }
  }

  /** A lookup that has its line never waits again; with every line free, only add_del_lock can make a thread wait. */
  lemma GoesOn(s: State, u: Tid, c: Call)
    requires WellFormed(s) && u < |s.pcs| && PcInArena(s.pcs[u], |s.rec|) && s.pcs[u] != Idle
    requires s.pcs[u].GetKeyFound? || s.pcs[u].GetIdFound? || (s.keyLocks == map[] && s.idLocks == map[])
    ensures Step(s, u, c).Some?
  {
  }

  /**
   Lock order: a call that is not finished can go on, or some lookup that holds a line can,
   so no set of threads waits for each other.
   */
  lemma NoDeadlock(cap: nat, threads: nat, moves: seq<Move>, s: State, t: Tid) returns (u: Tid)
    requires IsRun(cap, threads, moves, s) && t < |s.pcs| && s.pcs[t] != Idle
    ensures u < |s.pcs| && s.pcs[u] != Idle && (u == t || s.pcs[u].GetKeyFound? || s.pcs[u].GetIdFound?)
    ensures WellFormed(s) && PcInArena(s.pcs[u], |s.rec|) && forall c :: Step(s, u, c).Some?
  {
    RunInv(cap, threads, moves, s);
    u := WhoHoldsALine(s, t);
    PcFits(s, u);
    forall c
      ensures Step(s, u, c).Some?
    {
      GoesOn(s, u, c);
    }
  }

  lemma TakesTooMany(s: State, s': State, b: Buf)
    requires Inv(s) && b < |s.ref| && b in OwnedSet(s.all, Holder(s)) && s.handles[b] >= UINT32 - 2
    requires |s'.ref| == |s.ref| && s'.ref[b] == (s.ref[b] + 1) % UINT32 && s'.handles == s.handles + multiset{b}
    requires Holder(s') == Holder(s) && s'.all == s.all
    ensures !Inv(s') && (s.handles[b] == UINT32 - 2 ==> s'.ref[b] == 0)
  {
    var h := Holder(s);
    assert BufOk(b in s.free, Building(h, b), true, s.ref[b], s.handles[b], s.pcs, b);
    assert !BufOk(b in s'.free, Building(h, b), true, s'.ref[b], s'.handles[b], s'.pcs, b);
  }

  /** The second step of a lookup. */
  function Taken(s: State, t: Tid): State
    requires t < |s.pcs| && (s.pcs[t].GetKeyFound? || s.pcs[t].GetIdFound?) && s.pcs[t].b < |s.ref|
  {
    if s.pcs[t].GetKeyFound? then Goto(Inc(s, s.pcs[t].b).(keyLocks := s.keyLocks - {s.pcs[t].line}), t, Idle)
    else Goto(Inc(s, s.pcs[t].b).(idLocks := s.idLocks - {s.pcs[t].line}), t, Idle)
  }

  lemma TakesReference(s: State, t: Tid, b: Buf, s': State)
    requires Inv(s) && t < |s.pcs| && (s.pcs[t].GetKeyFound? || s.pcs[t].GetIdFound?) && b == s.pcs[t].b < |s.ref|
    requires s' == Taken(s, t)
    ensures b in OwnedSet(s'.all, Holder(s'))
    ensures if s.handles[b] < UINT32 - 2 then Inv(s') else !Inv(s') && (s.handles[b] == UINT32 - 2 ==> s'.ref[b] == 0)
  {
    FoundIsOwned(s, t, b);
    if s.handles[b] >= UINT32 - 2 {
      TakesTooMany(s, s', b);
    } else if s.pcs[t].GetKeyFound? {
      StepRefKey(s, t, b);
    } else {
      StepRefId(s, t, b);
    }
  }

  lemma FoundIsOwned(s: State, t: Tid, b: Buf)
    requires Inv(s) && t < |s.pcs| && (s.pcs[t].GetKeyFound? || s.pcs[t].GetIdFound?) && b == s.pcs[t].b
    ensures b in OwnedSet(s.all, Holder(s))
  {
    if s.pcs[t].GetKeyFound? {
      RefKeyLocks(s, t, b);
    } else {
      RefIdLocks(s, t, b);
    }
  }

  lemma StepTakes(s: State, t: Tid, call: Call)
    requires WellFormed(s) && t < |s.pcs| && (s.pcs[t].GetKeyFound? || s.pcs[t].GetIdFound?) && s.pcs[t].b < |s.ref|
    ensures Step(s, t, call) == Some(Taken(s, t))
  {
  }

  /**
   The limit in Roomy is exact: the step that takes a reference keeps the invariant exactly below
   2^32 - 2 handles; at that number the 32-bit count becomes 0 while the table holds the entry.
   */
  lemma CountWraps(s: State, t: Tid, b: Buf, call: Call)
    requires Inv(s) && t < |s.pcs| && (s.pcs[t].GetKeyFound? || s.pcs[t].GetIdFound?) && b == s.pcs[t].b
    ensures PcInArena(s.pcs[t], |s.rec|) && Step(s, t, call).Some?
    ensures var s' := Step(s, t, call).value;
      && (Inv(s') <==> s.handles[b] < UINT32 - 2)
      && (s.handles[b] == UINT32 - 2 ==> b < |s'.ref| && s'.ref[b] == 0 && b in OwnedSet(s'.all, Holder(s')))
  {
    PcFits(s, t);
    StepTakes(s, t, call);
    TakesReference(s, t, b, Taken(s, t));
  }
}
