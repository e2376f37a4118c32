/**
 The cooperative scheduler: ten task slots, a cyclic scan at every yield and a scan from slot 0
 at every exit.  A task is the finite program it still has to run; saving and restoring its
 registers is keeping that program in its slot.
 */
module Sched {
  import opened Common

  const MAX_TASK_NUM: nat := 10

  /** What a task does: an action of its own, `schedule()`, `create_task`, and at the end its exit code. */
  datatype Program =
    | Exit(ret: nat)
    | Act(action: int, next: Program)
    | Yield(next: Program)
    | Spawn(child: Program, next: Program)

  datatype TaskState = INVALID | SLEEPING | RUNNING | FINISHED

  datatype Task = Task(state: TaskState, rest: Program, ret: nat)

  datatype Event = Event(slot: nat, action: int)

  /**
   Where control is: in the main thread before or after scheduling, in the running task, or in a
   scan that has left the array, of which nothing more is said.
   */
  datatype Control = Before | InTask | After | Outside

  /** `progs` remembers what each slot was created with; `log` what has been done, by whom. */
  datatype State = State(tasks: seq<Task>, cur: int, control: Control, log: seq<Event>, progs: seq<Program>)

  function Init(): State {
    State(seq(MAX_TASK_NUM, _ => Task(INVALID, Exit(0), 0)), -1, Before, [], [])
  }

  function Count(s: State): nat {
    |s.progs|
  }

  // ----- Programs -----

  /** How many instructions a program has, those of its descendants included. */
  function Size(p: Program): (n: nat)
    ensures n > 0
  {
    match p
    case Exit(_) => 1
    case Act(_, next) => 1 + Size(next)
    case Yield(next) => 1 + Size(next)
    case Spawn(child, next) => 1 + Size(child) + Size(next)
  }

  /** How many tasks it creates, directly or through its children. */
  function Spawns(p: Program): nat {
    match p
    case Exit(_) => 0
    case Act(_, next) => Spawns(next)
    case Yield(next) => Spawns(next)
    case Spawn(child, next) => 1 + Spawns(child) + Spawns(next)
  }

  /** Its own actions, in program order. */
  function Actions(p: Program): seq<int> {
    match p
    case Exit(_) => []
    case Act(a, next) => [a] + Actions(next)
    case Yield(next) => Actions(next)
    case Spawn(_, next) => Actions(next)
  }

  function Result(p: Program): nat {
    match p
    case Exit(ret) => ret
    case Act(_, next) => Result(next)
    case Yield(next) => Result(next)
    case Spawn(_, next) => Result(next)
  }

  function ActionsOf(log: seq<Event>, slot: nat): seq<int> {
    if log == [] then []
    else
      var before, e := ActionsOf(log[..|log| - 1], slot), log[|log| - 1];
      if e.slot == slot then before + [e.action] else before
  }

  // ----- The scans -----

  /** The loop of `task_scheduler`: the first sleeping slot from `i` on. */
  function FirstSleeping(tasks: seq<Task>, i: nat): (r: Option<nat>)
    requires i <= |tasks|
    ensures r.Some? ==> i <= r.value < |tasks| && tasks[r.value].state == SLEEPING
    ensures r.Some? ==> forall j | i <= j < r.value :: tasks[j].state != SLEEPING
    ensures r.None? ==> forall j | i <= j < |tasks| :: tasks[j].state != SLEEPING
    decreases |tasks| - i
  {
    if i == |tasks| then None
    else if tasks[i].state == SLEEPING then Some(i)
    else FirstSleeping(tasks, i + 1)
  }

  /** How far slot `i` lies after slot `cur`, going round. */
  function Distance(cur: nat, i: nat): (d: nat)
    requires cur < MAX_TASK_NUM && i < MAX_TASK_NUM
    ensures d < MAX_TASK_NUM && (d == 0 <==> i == cur)
  {
    if i >= cur then i - cur else i + MAX_TASK_NUM - cur
  }

  /** `(i + 1) % MAX_TASK_NUM` */
  function NextSlot(i: nat): (r: nat)
    requires i < MAX_TASK_NUM
    ensures r < MAX_TASK_NUM
  {
    if i + 1 == MAX_TASK_NUM then 0 else i + 1
  }

  /** The loop of `schedule`: the first sleeping slot from `i` on, going round, before it comes back to `cur`. */
  function NextSleeping(tasks: seq<Task>, cur: nat, i: nat): (r: Option<nat>)
    requires |tasks| == MAX_TASK_NUM && cur < MAX_TASK_NUM && i < MAX_TASK_NUM
    ensures r.Some? ==> r.value < MAX_TASK_NUM && r.value != cur && tasks[r.value].state == SLEEPING
    decreases if i == cur then 0 else MAX_TASK_NUM - Distance(cur, i)
  {
    if i == cur then None
    else if tasks[i].state == SLEEPING then Some(i)
    else NextSleeping(tasks, cur, NextSlot(i))
  }

  // ----- Steps -----

  predicate Running(s: State) {
    && s.control == InTask && |s.tasks| == MAX_TASK_NUM && 0 <= s.cur < MAX_TASK_NUM
    && s.tasks[s.cur].state == RUNNING
  }

  /** `create_task`; slots are never used twice. */
  function Create(s: State, p: Program): State
    requires Count(s) < |s.tasks|
  {
    s.(tasks := s.tasks[Count(s) := Task(SLEEPING, p, 0)], progs := s.progs + [p])
  }

  function Dispatch(s: State, j: nat): State
    requires j < |s.tasks|
  {
    s.(tasks := s.tasks[j := s.tasks[j].(state := RUNNING)], cur := j, control := InTask)
  }

  /** `schedule`, called by the running task.  From the last slot the scan starts behind the array. */
  function Schedule(s: State): State
    requires Running(s)
  {
    if s.cur + 1 == MAX_TASK_NUM then s.(control := Outside)
    else
    match NextSleeping(s.tasks, s.cur, s.cur + 1)
    case None => s
    case Some(j) => Dispatch(s.(tasks := s.tasks[s.cur := s.tasks[s.cur].(state := SLEEPING)]), j)
  }

  /** The scan of `task_scheduler`; if it finds nothing, the last slot is the current one and main goes on. */
  function Pick(s: State): State
    requires |s.tasks| == MAX_TASK_NUM
  {
    match FirstSleeping(s.tasks, 0)
    case None => s.(cur := MAX_TASK_NUM - 1, control := After)
    case Some(j) => Dispatch(s, j)
  }

  /** `task_scheduler`, which a task returns to. */
  function Finish(s: State, ret: nat): State
    requires Running(s)
  {
    Pick(s.(tasks := s.tasks[s.cur := s.tasks[s.cur].(state := FINISHED, ret := ret)]))
  }

  function Continue(s: State, next: Program): State
    requires Running(s)
  {
    s.(tasks := s.tasks[s.cur := s.tasks[s.cur].(rest := next)])
  }

  /** The running task's next instruction. */
  function Step(s: State): State
    requires Running(s) && (s.tasks[s.cur].rest.Spawn? ==> Count(s) < MAX_TASK_NUM)
  {
    match s.tasks[s.cur].rest
    case Exit(ret) => Finish(s, ret)
    case Act(a, next) => Continue(s, next).(log := s.log + [Event(s.cur, a)])
    case Yield(next) => Schedule(Continue(s, next))
    case Spawn(child, next) => Create(Continue(s, next), child)
  }

  // ----- Sums over the slots -----

  function Sum(ns: seq<nat>): nat {
    if ns == [] then 0 else Sum(ns[..|ns| - 1]) + ns[|ns| - 1]
  }

  lemma {:induction false} SumUpdate(ns: seq<nat>, i: nat, n: nat)
    requires i < |ns|
    ensures Sum(ns[i := n]) == Sum(ns) - ns[i] + n
  {
    var last := |ns| - 1;
    if i == last {
      assert ns[i := n][..last] == ns[..last];
    } else {
      assert ns[i := n][..last] == ns[..last][i := n];
      SumUpdate(ns[..last], i, n);
    }
  }

  predicate Alive(t: Task) {
    t.state == SLEEPING || t.state == RUNNING
  }

  function WorkOf(t: Task): nat {
    if Alive(t) then Size(t.rest) else 0
  }

  function PendingOf(t: Task): nat {
    if Alive(t) then Spawns(t.rest) else 0
  }

  function UnfinishedOf(t: Task): nat {
    if t.state == FINISHED then 0 else 1
  }

  function Works(tasks: seq<Task>): seq<nat> {
    seq<nat>(|tasks|, i requires 0 <= i < |tasks| => WorkOf(tasks[i]))
  }

  function Pendings(tasks: seq<Task>): seq<nat> {
    seq<nat>(|tasks|, i requires 0 <= i < |tasks| => PendingOf(tasks[i]))
  }

  function Unfinisheds(tasks: seq<Task>): seq<nat> {
    seq<nat>(|tasks|, i requires 0 <= i < |tasks| => UnfinishedOf(tasks[i]))
  }

  /** The instructions still to be run. */
  function Work(tasks: seq<Task>): nat {
    Sum(Works(tasks))
  }

  /** The tasks still to be created. */
  function Pending(tasks: seq<Task>): nat {
    Sum(Pendings(tasks))
  }

  function Unfinished(tasks: seq<Task>): nat {
    Sum(Unfinisheds(tasks))
  }

  lemma SumsUpdate(tasks: seq<Task>, i: nat, t: Task)
    requires i < |tasks|
    ensures Work(tasks[i := t]) == Work(tasks) - WorkOf(tasks[i]) + WorkOf(t)
    ensures Pending(tasks[i := t]) == Pending(tasks) - PendingOf(tasks[i]) + PendingOf(t)
    ensures Unfinished(tasks[i := t]) == Unfinished(tasks) - UnfinishedOf(tasks[i]) + UnfinishedOf(t)
  {
    SumUpdate(Works(tasks), i, WorkOf(t));
    SumUpdate(Pendings(tasks), i, PendingOf(t));
    SumUpdate(Unfinisheds(tasks), i, UnfinishedOf(t));
    assert Works(tasks[i := t]) == Works(tasks)[i := WorkOf(t)];
    assert Pendings(tasks[i := t]) == Pendings(tasks)[i := PendingOf(t)];
    assert Unfinisheds(tasks[i := t]) == Unfinisheds(tasks)[i := UnfinishedOf(t)];
  }

  // ----- The invariant -----

  /** The running task is in a slot. */
  predicate Busy(s: State) {
    s.control == InTask || s.control == Outside
  }

  /** The slots up to the count are in use, and one task runs exactly while main does not. */
  ghost predicate Slots(s: State) {
    && |s.tasks| == MAX_TASK_NUM && Count(s) <= MAX_TASK_NUM
    && (forall i | 0 <= i < MAX_TASK_NUM :: s.tasks[i].state == INVALID <==> i >= Count(s))
    && (forall i | 0 <= i < MAX_TASK_NUM :: s.tasks[i].state == RUNNING <==> Busy(s) && i == s.cur)
    && (Busy(s) ==> 0 <= s.cur < Count(s))
    && (s.control == Outside ==> s.cur == MAX_TASK_NUM - 1)
    && (s.control == After ==> forall i | 0 <= i < MAX_TASK_NUM :: s.tasks[i].state != SLEEPING)
  }

  /** What slot `i` has done and what it still has to do make up its program. */
  ghost predicate Faithful(t: Task, done: seq<int>, p: Program) {
    && done + Actions(t.rest) == Actions(p) && Result(t.rest) == Result(p)
    && (t.state == FINISHED ==> t.rest == Exit(t.ret))
  }

  ghost predicate Story(s: State) {
    && |s.tasks| == MAX_TASK_NUM && Count(s) <= MAX_TASK_NUM
    && (forall e | e in s.log :: e.slot < Count(s))
    && (forall i | 0 <= i < Count(s) :: Faithful(s.tasks[i], ActionsOf(s.log, i), s.progs[i]))
  }

  /** All tasks, those still to be created included, have a slot. */
  ghost predicate Inv(s: State) {
    && Slots(s) && Story(s)
    && Count(s) + Pending(s.tasks) <= MAX_TASK_NUM
  }

  // ----- Steps keep the invariant -----

  lemma ScanFinds(tasks: seq<Task>, cur: nat, i: nat, j: nat)
    requires |tasks| == MAX_TASK_NUM && cur < MAX_TASK_NUM && i < MAX_TASK_NUM && j < MAX_TASK_NUM
    requires i != cur && j != cur && tasks[j].state == SLEEPING && Distance(cur, i) <= Distance(cur, j)
    ensures NextSleeping(tasks, cur, i).Some?
    ensures Distance(cur, i) <= Distance(cur, NextSleeping(tasks, cur, i).value) <= Distance(cur, j)
    decreases MAX_TASK_NUM - Distance(cur, i)
  {
    if tasks[i].state == SLEEPING {
    } else {
      ScanFinds(tasks, cur, NextSlot(i), j);
    }
  }

  lemma ActKeepsStory(s: State, a: int, next: Program)
    requires Running(s) && Story(s) && s.cur < Count(s) && s.tasks[s.cur].rest == Act(a, next)
    ensures Story(Continue(s, next).(log := s.log + [Event(s.cur, a)]))
  {
    var s' := Continue(s, next).(log := s.log + [Event(s.cur, a)]);
    assert s'.log[..|s'.log| - 1] == s.log;
    forall i | 0 <= i < Count(s)
      ensures Faithful(s'.tasks[i], ActionsOf(s'.log, i), s'.progs[i])
    {
      if i == s.cur {
        var done := ActionsOf(s.log, i);
        assert done + ([a] + Actions(next)) == (done + [a]) + Actions(next);
      } else {
        assert s'.tasks[i] == s.tasks[i] && Faithful(s.tasks[i], ActionsOf(s.log, i), s.progs[i]);
      }
    }
  }

  ghost predicate SameMeaning(t: Task, t': Task) {
    && Result(t'.rest) == Result(t.rest) && Actions(t'.rest) == Actions(t.rest)
    && (t'.state == FINISHED ==> t'.rest == Exit(t'.ret))
  }

  /** Changes of state that do not touch what is left of any program. */
  lemma SameStory(s: State, s': State)
    requires Story(s) && s'.log == s.log && s'.progs == s.progs && |s'.tasks| == |s.tasks|
    requires forall i | 0 <= i < Count(s) :: SameMeaning(s.tasks[i], s'.tasks[i])
    ensures Story(s')
  {
    forall i | 0 <= i < Count(s)
      ensures Faithful(s'.tasks[i], ActionsOf(s'.log, i), s'.progs[i])
    {
      assert Faithful(s.tasks[i], ActionsOf(s.log, i), s.progs[i]);
    }
  }

  lemma {:induction false} NothingDone(log: seq<Event>, slot: nat)
    requires forall e | e in log :: e.slot != slot
    ensures ActionsOf(log, slot) == []
  {
    if log == [] {
    } else {
      assert log[|log| - 1] in log;
      NothingDone(log[..|log| - 1], slot);
    }
  }

  lemma CreateKeepsInv(s: State, p: Program)
    requires Slots(s) && Story(s) && s.control != After && s.control != Outside && Count(s) + 1 <= MAX_TASK_NUM
    requires Count(s) + 1 + Pending(s.tasks) + Spawns(p) <= MAX_TASK_NUM
    ensures Inv(Create(s, p))
    ensures Work(Create(s, p).tasks) == Work(s.tasks) + Size(p)
    ensures Pending(Create(s, p).tasks) == Pending(s.tasks) + Spawns(p)
    ensures Unfinished(Create(s, p).tasks) == Unfinished(s.tasks)
  {
    var n, s' := Count(s), Create(s, p);
    SumsUpdate(s.tasks, n, Task(SLEEPING, p, 0));
    NothingDone(s.log, n);
    forall i | 0 <= i < Count(s')
      ensures Faithful(s'.tasks[i], ActionsOf(s'.log, i), s'.progs[i])
    {
      if i < n {
        assert Faithful(s.tasks[i], ActionsOf(s.log, i), s.progs[i]);
      } else {
        assert [] + Actions(p) == Actions(p);
      }
    }
  }

  lemma DispatchSums(s: State, j: nat)
    requires j < |s.tasks| && s.tasks[j].state == SLEEPING
    ensures Work(Dispatch(s, j).tasks) == Work(s.tasks) && Pending(Dispatch(s, j).tasks) == Pending(s.tasks)
    ensures Unfinished(Dispatch(s, j).tasks) == Unfinished(s.tasks)
  {
    SumsUpdate(s.tasks, j, s.tasks[j].(state := RUNNING));
  }

  lemma PickKeepsInv(s: State)
    requires |s.tasks| == MAX_TASK_NUM && Count(s) <= MAX_TASK_NUM && Story(s)
    requires forall i | 0 <= i < MAX_TASK_NUM ::
      s.tasks[i].state != RUNNING && (s.tasks[i].state == INVALID <==> i >= Count(s))
    requires Count(s) + Pending(s.tasks) <= MAX_TASK_NUM
    ensures Inv(Pick(s)) && (Pick(s).control == InTask || Pick(s).control == After)
    ensures Work(Pick(s).tasks) == Work(s.tasks) && Unfinished(Pick(s).tasks) == Unfinished(s.tasks)
    ensures Pending(Pick(s).tasks) == Pending(s.tasks)
  {
    var r := FirstSleeping(s.tasks, 0);
    SameStory(s, Pick(s));
    if r.Some? {
      DispatchSums(s, r.value);
    }
  }

  lemma ContinueSums(s: State, next: Program)
    requires Running(s)
    ensures var t := s.tasks[s.cur];
      && Work(Continue(s, next).tasks) == Work(s.tasks) - Size(t.rest) + Size(next)
      && Pending(Continue(s, next).tasks) == Pending(s.tasks) - Spawns(t.rest) + Spawns(next)
      && Unfinished(Continue(s, next).tasks) == Unfinished(s.tasks)
  {
    SumsUpdate(s.tasks, s.cur, s.tasks[s.cur].(rest := next));
  }

  lemma ScheduleKeepsSlots(s: State)
    requires Slots(s) && Running(s)
    ensures Slots(Schedule(s)) && Schedule(s).control == if s.cur + 1 == MAX_TASK_NUM then Outside else InTask
  {
  }

  lemma ScheduleKeepsSums(s: State)
    requires |s.tasks| == MAX_TASK_NUM && Running(s)
    ensures Work(Schedule(s).tasks) == Work(s.tasks) && Unfinished(Schedule(s).tasks) == Unfinished(s.tasks)
    ensures Pending(Schedule(s).tasks) == Pending(s.tasks)
  {
    if s.cur + 1 < MAX_TASK_NUM {
      var r := NextSleeping(s.tasks, s.cur, s.cur + 1);
      if r.Some? {
        var s1 := s.(tasks := s.tasks[s.cur := s.tasks[s.cur].(state := SLEEPING)]);
        SumsUpdate(s.tasks, s.cur, s.tasks[s.cur].(state := SLEEPING));
        DispatchSums(s1, r.value);
      }
    }
  }

  lemma ScheduleKeepsStory(s: State)
    requires Story(s) && Running(s)
    ensures Story(Schedule(s)) && Schedule(s).progs == s.progs
  {
    forall i | 0 <= i < Count(s)
      ensures SameMeaning(s.tasks[i], Schedule(s).tasks[i])
    {
      ScheduleKeepsMeaning(s, i);
    }
    SameStory(s, Schedule(s));
  }

  lemma ScheduleKeepsInv(s: State)
    requires Inv(s) && Running(s)
    ensures Inv(Schedule(s)) && Schedule(s).control == if s.cur + 1 == MAX_TASK_NUM then Outside else InTask
    ensures Work(Schedule(s).tasks) == Work(s.tasks) && Unfinished(Schedule(s).tasks) == Unfinished(s.tasks)
    ensures Pending(Schedule(s).tasks) == Pending(s.tasks)
  {
    ScheduleKeepsSlots(s);
    ScheduleKeepsSums(s);
    ScheduleKeepsStory(s);
  }

  lemma ScheduleKeepsMeaning(s: State, i: nat)
    requires Story(s) && Running(s) && i < Count(s)
    ensures SameMeaning(s.tasks[i], Schedule(s).tasks[i])
  {
    assert Faithful(s.tasks[i], ActionsOf(s.log, i), s.progs[i]);
  }

  lemma FinishKeepsInv(s: State, ret: nat)
    requires Inv(s) && Running(s) && s.tasks[s.cur].rest == Exit(ret)
    ensures Inv(Finish(s, ret)) && (Finish(s, ret).control == InTask || Finish(s, ret).control == After)
    ensures Work(Finish(s, ret).tasks) == Work(s.tasks) - 1 && Pending(Finish(s, ret).tasks) == Pending(s.tasks)
    ensures Unfinished(Finish(s, ret).tasks) == Unfinished(s.tasks) - 1
  {
    var t := s.tasks[s.cur].(state := FINISHED, ret := ret);
    var s1 := s.(tasks := s.tasks[s.cur := t]);
    SumsUpdate(s.tasks, s.cur, t);
    SameStory(s, s1);
    PickKeepsInv(s1);
  }

  lemma ContinueKeepsInv(s: State, next: Program)
    requires Inv(s) && Running(s)
    requires s.tasks[s.cur].rest == Yield(next) || exists child :: s.tasks[s.cur].rest == Spawn(child, next)
    ensures Slots(Continue(s, next)) && Story(Continue(s, next)) && Running(Continue(s, next))
  {
    SameStory(s, Continue(s, next));
  }

  lemma ActKeepsInv(s: State, a: int, next: Program)
    requires Inv(s) && Running(s) && s.tasks[s.cur].rest == Act(a, next)
    ensures var s' := Continue(s, next).(log := s.log + [Event(s.cur, a)]);
      && Inv(s') && s'.control == InTask && Work(s'.tasks) == Work(s.tasks) - 1
      && Pending(s'.tasks) == Pending(s.tasks) && Unfinished(s'.tasks) == Unfinished(s.tasks)
  {
    ContinueSums(s, next);
    ActKeepsStory(s, a, next);
  }

  lemma YieldKeepsInv(s: State, next: Program)
    requires Inv(s) && Running(s) && s.tasks[s.cur].rest == Yield(next)
    ensures var s' := Schedule(Continue(s, next));
      && Inv(s') && s'.control == (if s.cur + 1 == MAX_TASK_NUM then Outside else InTask)
      && Work(s'.tasks) == Work(s.tasks) - 1
      && Pending(s'.tasks) == Pending(s.tasks) && Unfinished(s'.tasks) == Unfinished(s.tasks)
  {
    ContinueSums(s, next);
    ContinueKeepsInv(s, next);
    ScheduleKeepsInv(Continue(s, next));
  }

  lemma SpawnKeepsInv(s: State, child: Program, next: Program)
    requires Inv(s) && Running(s) && s.tasks[s.cur].rest == Spawn(child, next) && Count(s) < MAX_TASK_NUM
    ensures var s' := Create(Continue(s, next), child);
      && Inv(s') && s'.control == InTask && Work(s'.tasks) == Work(s.tasks) - 1
      && Count(s') + Pending(s'.tasks) == Count(s) + Pending(s.tasks) && Unfinished(s'.tasks) == Unfinished(s.tasks)
  {
    ContinueSums(s, next);
    ContinueKeepsInv(s, next);
    CreateKeepsInv(Continue(s, next), child);
  }

  /** A task that creates another is counted with it. */
  lemma SpawnHasRoom(s: State)
    requires Inv(s) && s.control == InTask
    ensures Running(s) && (s.tasks[s.cur].rest.Spawn? ==> Count(s) < MAX_TASK_NUM)
  {
    var i: nat := s.cur;
    assert Pendings(s.tasks)[i] == Spawns(s.tasks[i].rest);
    SumAtLeast(Pendings(s.tasks), i);
  }

  lemma {:induction false} SumAtLeast(ns: seq<nat>, i: nat)
    requires i < |ns|
    ensures ns[i] <= Sum(ns)
  {
    if i == |ns| - 1 {
    } else {
      SumAtLeast(ns[..|ns| - 1], i);
    }
  }

  /** Each step keeps the invariant and leaves one instruction less. */
  lemma StepKeepsInv(s: State)
    requires Inv(s) && s.control == InTask
    ensures Running(s) && (s.tasks[s.cur].rest.Spawn? ==> Count(s) < MAX_TASK_NUM)
    ensures Inv(Step(s)) && Step(s).control != Before
    ensures Step(s).control == Outside <==> s.tasks[s.cur].rest.Yield? && s.cur + 1 == MAX_TASK_NUM
    ensures Work(Step(s).tasks) == Work(s.tasks) - 1
    ensures Count(Step(s)) + Pending(Step(s).tasks) == Count(s) + Pending(s.tasks)
    ensures Unfinished(Step(s).tasks) == Unfinished(s.tasks) - (if s.tasks[s.cur].rest.Exit? then 1 else 0)
  {
    SpawnHasRoom(s);
    match s.tasks[s.cur].rest
    case Exit(ret) =>
      FinishKeepsInv(s, ret);
    case Act(a, next) =>
      ActKeepsInv(s, a, next);
    case Yield(next) =>
      YieldKeepsInv(s, next);
    case Spawn(child, next) =>
      SpawnKeepsInv(s, child, next);
  }

  // ----- Runs -----

  /** Running until control is back in the main thread, or outside the array. */
  ghost function Run(s: State): (s': State)
    requires Inv(s) && s.control != Before
    ensures Inv(s') && (s'.control == After || s'.control == Outside)
    decreases Work(s.tasks)
  {
    if s.control != InTask then s
    else
      StepKeepsInv(s);
      Run(Step(s))
  }

  /** Everything that was created, by main or by tasks. */
  ghost predicate AllDone(s: State) {
    forall i | 0 <= i < Count(s) && i < |s.tasks| ::
      && s.tasks[i].state == FINISHED
      && s.tasks[i].ret == Result(s.progs[i])
      && ActionsOf(s.log, i) == Actions(s.progs[i])
  }

  /** Main goes on exactly when every task has finished, with its own exit code and all its actions done in order. */
  lemma BackInMainIffDone(s: State)
    requires Inv(s) && s.control != Before
    ensures s.control == After <==> forall i | 0 <= i < Count(s) :: s.tasks[i].state == FINISHED
    ensures s.control == After ==> AllDone(s)
  {
    if s.control == After {
      forall i | 0 <= i < Count(s)
        ensures s.tasks[i].state == FINISHED && s.tasks[i].ret == Result(s.progs[i])
        ensures ActionsOf(s.log, i) == Actions(s.progs[i])
      {
        assert s.tasks[i].state == FINISHED;
        assert Faithful(s.tasks[i], ActionsOf(s.log, i), s.progs[i]);
        assert ActionsOf(s.log, i) + [] == ActionsOf(s.log, i);
      }
    } else {
      assert s.tasks[s.cur].state == RUNNING;
    }
  }

  function CreateAll(ps: seq<Program>): (s: State)
    requires |ps| <= MAX_TASK_NUM
    ensures s.progs == ps && |s.tasks| == MAX_TASK_NUM && s.control == Before
  {
    if ps == [] then Init() else Create(CreateAll(ps[..|ps| - 1]), ps[|ps| - 1])
  }

  function SpawnsOf(ps: seq<Program>): nat {
    if ps == [] then 0 else SpawnsOf(ps[..|ps| - 1]) + Spawns(ps[|ps| - 1])
  }

  lemma {:induction false} CreateAllKeepsInv(ps: seq<Program>)
    requires |ps| + SpawnsOf(ps) <= MAX_TASK_NUM
    ensures Inv(CreateAll(ps)) && Pending(CreateAll(ps).tasks) == SpawnsOf(ps)
  {
    if ps == [] {
      assert Pendings(Init().tasks) == [0, 0, 0, 0, 0, 0, 0, 0, 0, 0];
      ZeroSum(Pendings(Init().tasks));
    } else {
      var s := CreateAll(ps[..|ps| - 1]);
      CreateAllKeepsInv(ps[..|ps| - 1]);
      CreateKeepsInv(s, ps[|ps| - 1]);
      SumsUpdate(s.tasks, Count(s), Task(SLEEPING, ps[|ps| - 1], 0));
    }
  }

  lemma {:induction false} ZeroSum(ns: seq<nat>)
    requires forall i | 0 <= i < |ns| :: ns[i] == 0
    ensures Sum(ns) == 0
  {
    if ns == [] {
    } else {
      ZeroSum(ns[..|ns| - 1]);
    }
  }

  /** Scheduling has been started on these programs. */
  ghost function Started(ps: seq<Program>): (s: State)
    requires |ps| + SpawnsOf(ps) <= MAX_TASK_NUM
    ensures Inv(s) && (s.control == InTask || s.control == After)
    ensures s.progs == ps && Pending(s.tasks) == SpawnsOf(ps) && s.tasks == Pick(CreateAll(ps)).tasks
  {
    CreateAllKeepsInv(ps);
    PickKeepsInv(CreateAll(ps));
    Pick(CreateAll(ps))
  }

  /** A task that calls `schedule` somewhere. */
  predicate HasYield(p: Program) {
    match p
    case Exit(_) => false
    case Act(_, next) => HasYield(next)
    case Yield(_) => true
    case Spawn(_, next) => HasYield(next)
  }

  /** Up to the first call of `schedule` in the last slot, what is left of its program has one if the program had. */
  ghost predicate LastSlot(s: State) {
    Count(s) == MAX_TASK_NUM == |s.tasks| ==>
      (HasYield(s.progs[MAX_TASK_NUM - 1]) <==>
        HasYield(s.tasks[MAX_TASK_NUM - 1].rest) || s.control == Outside)
  }

  lemma StepKeepsLastSlot(s: State)
    requires Inv(s) && s.control == InTask && LastSlot(s)
    requires Running(s) && (s.tasks[s.cur].rest.Spawn? ==> Count(s) < MAX_TASK_NUM)
    ensures LastSlot(Step(s))
  {
    StepKeepsInv(s);
    var last := MAX_TASK_NUM - 1;
    match s.tasks[s.cur].rest
    case Exit(ret) =>
      assert Step(s).tasks[last].rest == s.tasks[last].rest;
    case Act(a, next) =>
    case Yield(next) =>
      if s.cur != last {
        assert Step(s).tasks[last].rest == s.tasks[last].rest;
      }
    case Spawn(child, next) =>
  }

  lemma {:induction false} RunKeepsLastSlot(s: State)
    requires Inv(s) && s.control != Before && LastSlot(s)
    ensures LastSlot(Run(s))
    decreases Work(s.tasks)
  {
    if s.control != InTask {
    } else {
      StepKeepsInv(s);
      StepKeepsLastSlot(s);
      RunKeepsLastSlot(Step(s));
    }
  }

  lemma {:induction false} CreatedWhole(ps: seq<Program>)
    requires |ps| <= MAX_TASK_NUM
    ensures forall i | 0 <= i < |ps| :: CreateAll(ps).tasks[i].rest == ps[i]
  {
    if ps == [] {
    } else {
      CreatedWhole(ps[..|ps| - 1]);
    }
  }

  lemma PickKeepsRest(s: State, i: nat)
    requires |s.tasks| == MAX_TASK_NUM && i < MAX_TASK_NUM
    ensures Pick(s).tasks[i].rest == s.tasks[i].rest && Pick(s).control != Outside
  {
  }

  lemma StartedLastSlot(ps: seq<Program>)
    requires |ps| + SpawnsOf(ps) <= MAX_TASK_NUM
    ensures LastSlot(Started(ps))
  {
    CreatedWhole(ps);
    PickKeepsRest(CreateAll(ps), MAX_TASK_NUM - 1);
    assert Started(ps).tasks == Pick(CreateAll(ps)).tasks;
  }

  lemma LastSlotDecides(r: State)
    requires Inv(r) && (r.control == After || r.control == Outside) && LastSlot(r)
    ensures r.control == After <==> Count(r) < MAX_TASK_NUM || !HasYield(r.progs[MAX_TASK_NUM - 1])
  {
    var last: nat := MAX_TASK_NUM - 1;
    BackInMainIffDone(r);
    if r.control == After && Count(r) == MAX_TASK_NUM {
      assert Faithful(r.tasks[last], ActionsOf(r.log, last), r.progs[last]);
    }
  }

  lemma RunCompletes(s: State, total: nat)
    requires Inv(s) && s.control != Before && total == Count(s) + Pending(s.tasks)
    ensures s.progs <= Run(s).progs && Count(Run(s)) == total
    ensures Run(s).control == After ==> AllDone(Run(s))
  {
    var r := Run(s);
    BackInMainIffDone(r);
    RunKeepsProgs(s);
    if r.control == After {
      NothingPending(r);
    }
  }

  /**
   Any programs that fit the slots, their descendants included: the run ends with all of them created.
   Unless the task in the last slot calls `schedule`, it ends in the main thread, and then every task,
   created by main or by tasks, is finished with its own exit code and its actions were done once and
   in program order.
   */
  lemma EveryRunCompletes(ps: seq<Program>, total: nat)
    requires total == |ps| + SpawnsOf(ps) <= MAX_TASK_NUM
    ensures var r := Run(Started(ps));
      && ps <= r.progs && Count(r) == total
      && (r.control == After <==> total < MAX_TASK_NUM || !HasYield(r.progs[MAX_TASK_NUM - 1]))
      && (r.control == After ==> AllDone(r))
      && (r.control == After || r.control == Outside)
  {
    var s := Started(ps);
    StartedLastSlot(ps);
    RunKeepsLastSlot(s);
    RunCompletes(s, total);
    LastSlotDecides(Run(s));
  }

  /**
   When the condition can be seen beforehand.  With at most nine tasks in all, descendants included,
   or with tasks of main only, the run ends in main exactly if there is no tenth task that calls
   `schedule`.
   */
  lemma EndsInMainIff(ps: seq<Program>, total: nat)
    requires total == |ps| + SpawnsOf(ps) <= MAX_TASK_NUM && (total < MAX_TASK_NUM || |ps| == MAX_TASK_NUM)
    ensures var r := Run(Started(ps));
      && (r.control == After <==> |ps| < MAX_TASK_NUM || !HasYield(ps[MAX_TASK_NUM - 1]))
      && (r.control == After ==> AllDone(r) && Count(r) == total)
  {
    EveryRunCompletes(ps, total);
    var r := Run(Started(ps));
    assert |ps| == MAX_TASK_NUM ==> r.progs[MAX_TASK_NUM - 1] == ps[MAX_TASK_NUM - 1];
  }

  /** Every task that this one creates, directly or through its children, calls `schedule` (or none does). */
  predicate SpawnedYield(p: Program, calls: bool) {
    match p
    case Exit(_) => true
    case Act(_, next) => SpawnedYield(next, calls)
    case Yield(next) => SpawnedYield(next, calls)
    case Spawn(child, next) => HasYield(child) == calls && SpawnedYield(child, calls) && SpawnedYield(next, calls)
  }

  /** From slot `k` on all tasks call `schedule` (or none does), and so do all that are still to come. */
  predicate Uniform(s: State, k: nat, calls: bool) {
    && |s.tasks| == MAX_TASK_NUM && Count(s) <= MAX_TASK_NUM
    && (forall i | k <= i < Count(s) :: HasYield(s.progs[i]) == calls)
    && (forall i | 0 <= i < Count(s) :: SpawnedYield(s.tasks[i].rest, calls))
  }

  /** Tasks of the two states have the same rest. */
  lemma SameRests(s: State, s': State, k: nat, calls: bool)
    requires Uniform(s, k, calls) && |s'.tasks| == MAX_TASK_NUM && s'.progs == s.progs
    requires forall i | 0 <= i < MAX_TASK_NUM :: s'.tasks[i].rest == s.tasks[i].rest
    ensures Uniform(s', k, calls)
  {
  }

  lemma ScheduleKeepsRest(s: State, i: nat)
    requires Running(s) && i < MAX_TASK_NUM
    ensures Schedule(s).tasks[i].rest == s.tasks[i].rest
  {
  }

  lemma ContinueKeepsUniform(s: State, next: Program, k: nat, calls: bool)
    requires Running(s) && Uniform(s, k, calls) && SpawnedYield(next, calls)
    ensures Uniform(Continue(s, next), k, calls)
  {
  }

  lemma StepKeepsUniform(s: State, k: nat, calls: bool)
    requires Uniform(s, k, calls) && Running(s) && s.cur < Count(s) && k <= Count(s)
    requires s.tasks[s.cur].rest.Spawn? ==> Count(s) < MAX_TASK_NUM
    ensures Uniform(Step(s), k, calls)
  {
    assert SpawnedYield(s.tasks[s.cur].rest, calls);
    match s.tasks[s.cur].rest
    case Exit(ret) =>
      var s1 := s.(tasks := s.tasks[s.cur := s.tasks[s.cur].(state := FINISHED, ret := ret)]);
      forall i: nat | i < MAX_TASK_NUM
        ensures Finish(s, ret).tasks[i].rest == s.tasks[i].rest
      {
        PickKeepsRest(s1, i);
      }
      SameRests(s, Finish(s, ret), k, calls);
    case Act(a, next) =>
      ContinueKeepsUniform(s, next, k, calls);
    case Yield(next) =>
      ContinueKeepsUniform(s, next, k, calls);
      var s1 := Continue(s, next);
      forall i: nat | i < MAX_TASK_NUM
        ensures Schedule(s1).tasks[i].rest == s1.tasks[i].rest
      {
        ScheduleKeepsRest(s1, i);
      }
      SameRests(s1, Schedule(s1), k, calls);
    case Spawn(child, next) =>
      ContinueKeepsUniform(s, next, k, calls);
  }

  lemma {:induction false} RunKeepsUniform(s: State, k: nat, calls: bool)
    requires Inv(s) && s.control != Before && Uniform(s, k, calls) && k <= Count(s)
    ensures Uniform(Run(s), k, calls)
    decreases Work(s.tasks)
  {
    if s.control != InTask {
    } else {
      StepKeepsInv(s);
      StepKeepsProgs(s);
      StepKeepsUniform(s, k, calls);
      RunKeepsUniform(Step(s), k, calls);
    }
  }

  lemma StartedUniform(ps: seq<Program>, calls: bool)
    requires |ps| + SpawnsOf(ps) <= MAX_TASK_NUM && forall i | 0 <= i < |ps| :: SpawnedYield(ps[i], calls)
    ensures Uniform(Started(ps), |ps|, calls)
  {
    var s := CreateAll(ps);
    CreatedWhole(ps);
    forall i: nat | i < MAX_TASK_NUM
      ensures Pick(s).tasks[i].rest == s.tasks[i].rest
    {
      PickKeepsRest(s, i);
    }
    SameRests(s, Pick(s), |ps|, calls);
    assert Started(ps).tasks == Pick(s).tasks;
  }

  /**
   With the tenth task made by a task: if all that tasks create call `schedule`, the run leaves the
   array; if none of them does, it ends in main.
   */
  lemma SpawnedTenthIff(ps: seq<Program>, calls: bool)
    requires |ps| + SpawnsOf(ps) == MAX_TASK_NUM && SpawnsOf(ps) > 0
    requires forall i | 0 <= i < |ps| :: SpawnedYield(ps[i], calls)
    ensures var r := Run(Started(ps));
      (r.control == After <==> !calls) && (r.control == After ==> AllDone(r) && Count(r) == MAX_TASK_NUM)
  {
    EveryRunCompletes(ps, MAX_TASK_NUM);
    StartedUniform(ps, calls);
    RunKeepsUniform(Started(ps), |ps|, calls);
  }

  lemma StepKeepsProgs(s: State)
    requires Running(s) && (s.tasks[s.cur].rest.Spawn? ==> Count(s) < MAX_TASK_NUM)
    ensures s.progs <= Step(s).progs
  {
  }

  lemma {:induction false} RunKeepsProgs(s: State)
    requires Inv(s) && s.control != Before
    ensures s.progs <= Run(s).progs
    ensures Count(Run(s)) + Pending(Run(s).tasks) == Count(s) + Pending(s.tasks)
    decreases Work(s.tasks)
  {
    if s.control != InTask {
    } else {
      StepKeepsInv(s);
      StepKeepsProgs(s);
      RunKeepsProgs(Step(s));
    }
  }

  lemma NothingPending(s: State)
    requires Slots(s) && s.control == After
    ensures Pending(s.tasks) == 0
  {
    forall i | 0 <= i < |s.tasks|
      ensures Pendings(s.tasks)[i] == 0
    {
      assert s.tasks[i].state != SLEEPING && s.tasks[i].state != RUNNING;
    }
    ZeroSum(Pendings(s.tasks));
  }

  // ----- Waiting -----

  /** The state after `n` steps, or at the end of the run. */
  ghost function RunFor(s: State, n: nat): (s': State)
    requires Inv(s) && s.control != Before
    ensures Inv(s') && s'.control != Before
    decreases n
  {
    if n == 0 || s.control != InTask then s
    else
      StepKeepsInv(s);
      RunFor(Step(s), n - 1)
  }

  /** A yield or an exit. */
  predicate Schedules(s: State)
    requires Running(s)
  {
    s.tasks[s.cur].rest.Yield? || s.tasks[s.cur].rest.Exit?
  }

  /** How many scheduling events there are in the next `n` steps. */
  ghost function Events(s: State, n: nat): nat
    requires Inv(s) && s.control != Before
    decreases n
  {
    if n == 0 || s.control != InTask then 0
    else
      StepKeepsInv(s);
      (if Schedules(s) then 1 else 0) + Events(Step(s), n - 1)
  }

  /** A bound on the scheduling events before slot `j` has its turn: an exit restarts the scan, a yield moves it on. */
  function Patience(s: State, j: nat): nat
    requires 0 <= s.cur < MAX_TASK_NUM && j < MAX_TASK_NUM
  {
    MAX_TASK_NUM * Unfinished(s.tasks) + Distance(s.cur, j)
  }

  lemma YieldMovesOn(s: State, j: nat)
    requires Inv(s) && Running(s) && s.cur + 1 < MAX_TASK_NUM && j < MAX_TASK_NUM && s.tasks[j].state == SLEEPING
    ensures var s' := Schedule(s);
      && Running(s')
      && (if s'.cur == j then s'.tasks[j].state == RUNNING
          else s'.tasks[j].state == SLEEPING && Distance(s'.cur, j) < Distance(s.cur, j))
  {
    ScheduleKeepsInv(s);
    ScanFinds(s.tasks, s.cur, s.cur + 1, j);
  }

  /** While a task sleeps on, its patience runs down. */
  lemma StepWaits(s: State, j: nat)
    requires Inv(s) && s.control == InTask && j < MAX_TASK_NUM && s.tasks[j].state == SLEEPING
    ensures Running(s) && (s.tasks[s.cur].rest.Spawn? ==> Count(s) < MAX_TASK_NUM)
    ensures Inv(Step(s)) && (Step(s).control == InTask || Step(s).control == Outside)
    ensures Work(Step(s).tasks) < Work(s.tasks)
    ensures Step(s).control == Outside || Step(s).tasks[j].state == RUNNING || (Step(s).tasks[j].state == SLEEPING &&
      Patience(Step(s), j) + (if Schedules(s) then 1 else 0) <= Patience(s, j))
  {
    StepKeepsInv(s);
    match s.tasks[s.cur].rest
    case Exit(ret) =>
    case Act(a, next) =>
    case Yield(next) =>
      ContinueSums(s, next);
      ContinueKeepsInv(s, next);
      if s.cur + 1 < MAX_TASK_NUM {
        YieldMovesOn(Continue(s, next), j);
      }
    case Spawn(child, next) =>
  }

  predicate IsReached(s: State, j: nat) {
    s.control == InTask && j < |s.tasks| && s.tasks[j].state == RUNNING && s.cur == j
  }

  lemma WaitIsOver(s: State, j: nat)
    requires Slots(s) && Busy(s) && j < MAX_TASK_NUM && (s.control == Outside || s.tasks[j].state == RUNNING)
    ensures IsReached(s, j) || (s.control == Outside && Count(s) == MAX_TASK_NUM)
  {
  }

  /** The next state, and whether a scheduling event leads to it. */
  ghost function Following(s: State): (r: (State, nat))
    requires Inv(s) && s.control == InTask
    ensures Inv(r.0) && r.0.control != Before && r.1 <= 1
  {
    StepKeepsInv(s);
    (Step(s), if Schedules(s) then 1 else 0)
  }

  /** The wait for slot `j` goes on, with patience at most `p`. */
  ghost predicate Sleeps(s: State, j: nat, p: int) {
    && Slots(s) && s.control == InTask && j < MAX_TASK_NUM && s.tasks[j].state == SLEEPING
    && Patience(s, j) <= p
  }

  predicate IsLost(s: State) {
    s.control == Outside && Count(s) == MAX_TASK_NUM
  }

  /** After `n` steps the wait for slot `j` is over, with at most `p` yields and exits. */
  ghost predicate WaitEnds(s: State, j: nat, n: nat, p: nat)
    requires Inv(s) && s.control != Before
  {
    (IsReached(RunFor(s, n), j) && Events(s, n) <= p) || IsLost(RunFor(s, n))
  }

  /** One step of the wait: it is over, or goes on with less patience. */
  lemma WaitOnce(s: State, j: nat, p: nat)
    requires Inv(s) && Sleeps(s, j, p)
    ensures var (next, e) := Following(s);
      && Work(next.tasks) < Work(s.tasks) && p >= e
      && (IsReached(next, j) || IsLost(next) || Sleeps(next, j, p - e))
  {
    StepWaits(s, j);
    assert s.tasks[s.cur].state == RUNNING;
    var next := Following(s).0;
    if next.control == Outside || next.tasks[j].state == RUNNING {
      WaitIsOver(next, j);
    }
  }

  lemma WaitOneMore(s: State, j: nat, n: nat, p: nat)
    requires Inv(s) && s.control == InTask && WaitEnds(Following(s).0, j, n, p)
    ensures WaitEnds(s, j, n + 1, p + Following(s).1)
  {
  }

  /** The wait from a state in which it is not over, from that of its next state. */
  lemma WaitStep(s: State, j: nat, p: nat) returns (next: State, q: nat)
    requires Inv(s) && Sleeps(s, j, p)
    ensures Inv(next) && next.control != Before && Work(next.tasks) < Work(s.tasks)
    ensures Sleeps(next, j, q) || WaitEnds(s, j, 1, p)
    ensures forall n: nat {:trigger WaitEnds(next, j, n, q)} :: WaitEnds(next, j, n, q) ==> WaitEnds(s, j, n + 1, p)
  {
    WaitOnce(s, j, p);
    next, q := Following(s).0, p - Following(s).1;
    forall n: nat | WaitEnds(next, j, n, q)
      ensures WaitEnds(s, j, n + 1, p)
    {
      WaitOneMore(s, j, n, q);
    }
    if !Sleeps(next, j, q) {
      WaitOneMore(s, j, 0, 0);
    }
  }

  /**
   A sleeping task is dispatched, and before that happen at most `Patience` yields and exits; or the
   last slot calls `schedule` before.
   */
  lemma {:induction false} IsDispatched(s: State, j: nat, p: nat) returns (n: nat)
    requires Inv(s) && Sleeps(s, j, p)
    ensures WaitEnds(s, j, n, p)
    decreases Work(s.tasks)
  {
    var next, q := WaitStep(s, j, p);
    if Sleeps(next, j, q) {
      n := IsDispatched(next, j, q);
      n := n + 1;
    } else {
      n := 1;
    }
  }

  lemma {:induction false} SumOfBits(ns: seq<nat>)
    requires forall i | 0 <= i < |ns| :: ns[i] <= 1
    ensures Sum(ns) <= |ns|
  {
    if ns == [] {
    } else {
      SumOfBits(ns[..|ns| - 1]);
    }
  }

  /** Of the order of the square of the number of slots. */
  lemma PatienceBound(s: State, j: nat)
    requires Slots(s) && s.control == InTask && j < MAX_TASK_NUM
    ensures Patience(s, j) <= MAX_TASK_NUM * MAX_TASK_NUM + MAX_TASK_NUM - 1
  {
    SumOfBits(Unfinisheds(s.tasks));
  }

  // ----- The scheduler -----

  class Scheduler {
    const tasks: array<Task>
    var taskCnt: nat
    var cur: int
    var log: seq<Event>
    var control: Control
    ghost var progs: seq<Program>

    ghost function View(): State
      reads this, tasks
    {
      State(tasks[..], cur, control, log, progs)
    }

    ghost predicate Valid()
      reads this, tasks
    {
      tasks.Length == MAX_TASK_NUM && taskCnt == |progs| <= MAX_TASK_NUM
    }

    constructor ()
      ensures Valid() && View() == Init() && fresh(tasks)
    {
      tasks := new Task[MAX_TASK_NUM](_ => Task(INVALID, Exit(0), 0));
      taskCnt, cur, log, control, progs := 0, -1, [], Before, [];
      new;
      assert tasks[..] == Init().tasks;
    }

    method CreateTask(p: Program)
      requires Valid() && taskCnt < MAX_TASK_NUM
      modifies this, tasks
      ensures Valid() && View() == Create(old(View()), p)
    {
      tasks[taskCnt] := Task(SLEEPING, p, 0);
      taskCnt := taskCnt + 1;
      progs := progs + [p];
      assert tasks[..] == Create(old(View()), p).tasks;
    }

    method SwitchTo(j: nat)
      requires Valid() && Running(View()) && j < MAX_TASK_NUM && j != cur
      modifies this, tasks
      ensures Valid()
      ensures View() ==
        Dispatch(old(View()).(tasks := old(tasks[..])[old(cur) := old(tasks[cur]).(state := SLEEPING)]), j)
    {
      tasks[cur] := tasks[cur].(state := SLEEPING);
      cur := j;
      tasks[cur] := tasks[cur].(state := RUNNING);
      assert tasks[..] ==
        old(tasks[..])[old(cur) := old(tasks[cur]).(state := SLEEPING)][j := old(tasks[j]).(state := RUNNING)];
    }

    /** `schedule`: round the slots, starting behind the current one. */
    method ScheduleNext()
      requires Valid() && Running(View())
      modifies this, tasks
      ensures Valid() && View() == Schedule(old(View()))
    {
      if cur + 1 == MAX_TASK_NUM {
        control := Outside;
        return;
      }
      var i := cur + 1;
      while i != cur
        invariant 0 <= i < MAX_TASK_NUM
        invariant NextSleeping(tasks[..], cur, cur + 1) == NextSleeping(tasks[..], cur, i)
        invariant View() == old(View())
        decreases if i == cur then 0 else MAX_TASK_NUM - Distance(cur, i)
      {
        if tasks[i].state == SLEEPING {
          SwitchTo(i);
          return;
        }
        i := NextSlot(i);
      }
    }

    /** `task_scheduler`: where a task ends up when it returns, and where `start_sched` begins. */
    method TaskScheduler(ret: nat)
      requires Valid() && (cur >= 0 ==> Running(View()))
      modifies this, tasks
      ensures Valid() && View() == if old(cur) >= 0 then Finish(old(View()), ret) else Pick(old(View()))
    {
      if cur >= 0 {
        tasks[cur] := tasks[cur].(state := FINISHED, ret := ret);
        assert tasks[..] == old(tasks[..])[cur := old(tasks[cur]).(state := FINISHED, ret := ret)];
      }
      PickTask();
    }

    method PickTask()
      requires Valid()
      modifies this, tasks
      ensures Valid() && View() == Pick(old(View()))
    {
      var i := 0;
      while i < MAX_TASK_NUM
        invariant 0 <= i <= MAX_TASK_NUM && unchanged(tasks) && Valid()
        invariant View() == old(View()).(cur := cur) && (cur == i - 1 || i == 0)
        invariant FirstSleeping(tasks[..], 0) == FirstSleeping(tasks[..], i)
      {
        cur := i;
        if tasks[i].state == SLEEPING {
          tasks[i] := tasks[i].(state := RUNNING);
          control := InTask;
          assert tasks[..] == Pick(old(View())).tasks;
          return;
        }
        i := i + 1;
      }
      control := After;
    }

    /** One instruction of the running task. */
    method RunInstruction()
      requires Valid() && Running(View()) && (tasks[cur].rest.Spawn? ==> taskCnt < MAX_TASK_NUM)
      modifies this, tasks
      ensures Valid() && View() == Step(old(View()))
    {
      var t := tasks[cur];
      match t.rest
      case Exit(ret) =>
        TaskScheduler(ret);
      case Act(a, next) =>
        KeepRest(next);
        log := log + [Event(cur, a)];
      case Yield(next) =>
        KeepRest(next);
        ScheduleNext();
      case Spawn(child, next) =>
        KeepRest(next);
        CreateTask(child);
    }

    method KeepRest(next: Program)
      requires Valid() && Running(View())
      modifies tasks
      ensures Valid() && View() == Continue(old(View()), next)
    {
      tasks[cur] := tasks[cur].(rest := next);
      assert tasks[..] == Continue(old(View()), next).tasks;
    }

    /** From `start_sched` to its return. */
    method StartSched()
      requires Valid() && Inv(View()) && cur == -1 && control == Before
      modifies this, tasks
      ensures Valid() && Inv(Pick(old(View()))) && Pick(old(View())).control != Before
      ensures View() == Run(Pick(old(View())))
    {
      PickKeepsInv(View());
      TaskScheduler(0);
      ghost var s := View();
      while control == InTask
        invariant Valid() && Inv(View()) && control != Before
        invariant Run(View()) == Run(s)
        decreases Work(tasks[..])
      {
        StepKeepsInv(View());
        RunInstruction();
      }
    }
  }
}
