/**
 What one instruction does to the slots, and which programs a whole run has run: those of main and
 everything that they and their descendants create.
 */
module SchedSteps {
  import opened Common
  import opened Sched

  // ----- One instruction -----

  /** The slots are the same but for these two. */
  predicate OthersStay(s: State, s': State, i: int, j: int) {
    |s'.tasks| == |s.tasks| && forall k | 0 <= k < |s.tasks| && k != i && k != j :: s'.tasks[k] == s.tasks[k]
  }

  /** An action is done by the running task, which goes on. */
  lemma ActIs(s: State, a: int, next: Program)
    requires Running(s) && s.tasks[s.cur].rest == Act(a, next)
    ensures var s' := Step(s);
      && OthersStay(s, s', s.cur, s.cur) && s'.tasks[s.cur] == s.tasks[s.cur].(rest := next)
      && s'.log == s.log + [Event(s.cur, a)] && s'.progs == s.progs && s'.cur == s.cur && s'.control == InTask
  {
  }

  /** The first unused slot gets the program that was given and sleeps; the running task goes on. */
  lemma SpawnIs(s: State, child: Program, next: Program)
    requires Running(s) && s.tasks[s.cur].rest == Spawn(child, next) && s.cur < Count(s) < MAX_TASK_NUM
    ensures var s' := Step(s);
      && OthersStay(s, s', s.cur, Count(s)) && s'.tasks[s.cur] == s.tasks[s.cur].(rest := next)
      && s'.tasks[Count(s)] == Task(SLEEPING, child, 0) && s'.progs == s.progs + [child]
      && s'.log == s.log && s'.cur == s.cur && s'.control == InTask
  {
  }

  /**
   A task that ends keeps its exit code.  The lowest slot that sleeps runs next, or, if none sleeps,
   the main thread goes on.
   */
  lemma ExitIs(s: State, ret: nat)
    requires Running(s) && s.tasks[s.cur].rest == Exit(ret)
    ensures var s' := Step(s);
      && s'.log == s.log && s'.progs == s.progs && 0 <= s'.cur < |s'.tasks| == |s.tasks|
      && s'.tasks[s.cur] == s.tasks[s.cur].(state := FINISHED, ret := ret)
      && (if s'.control == After then OthersStay(s, s', s.cur, s.cur)
          else
            && s'.control == InTask && OthersStay(s, s', s.cur, s'.cur) && s'.cur != s.cur
            && s.tasks[s'.cur].state == SLEEPING && s'.tasks[s'.cur] == s.tasks[s'.cur].(state := RUNNING))
      && (s'.control == After ==> forall i | 0 <= i < MAX_TASK_NUM :: s.tasks[i].state != SLEEPING)
      && (s'.control == InTask ==> forall i | 0 <= i < s'.cur :: s.tasks[i].state != SLEEPING)
  {
    var s1 := s.(tasks := s.tasks[s.cur := s.tasks[s.cur].(state := FINISHED, ret := ret)]);
    assert forall i | 0 <= i < MAX_TASK_NUM :: s.tasks[i].state == SLEEPING <==> s1.tasks[i].state == SLEEPING;
  }

  /** Scheduling starts with the lowest slot that sleeps. */
  lemma StartIs(s: State)
    requires |s.tasks| == MAX_TASK_NUM
    ensures var s' := Pick(s);
      && s'.log == s.log && s'.progs == s.progs && 0 <= s'.cur < |s'.tasks| == |s.tasks|
      && (if s'.control == After then
            s'.tasks == s.tasks && forall i | 0 <= i < MAX_TASK_NUM :: s.tasks[i].state != SLEEPING
          else
            && s'.control == InTask && OthersStay(s, s', s'.cur, s'.cur)
            && s.tasks[s'.cur].state == SLEEPING && s'.tasks[s'.cur] == s.tasks[s'.cur].(state := RUNNING)
            && forall i | 0 <= i < s'.cur :: s.tasks[i].state != SLEEPING)
  {
  }

  /** Slot `k` places after `cur`, going round. */
  function Around(cur: nat, k: nat): (i: nat)
    ensures i < 10
  {
    (cur + k) % 10
  }

  lemma {:induction false} NextIsNearest(tasks: seq<Task>, cur: nat, i: nat, d: nat)
    requires |tasks| == MAX_TASK_NUM && cur < MAX_TASK_NUM && 1 <= d <= 10 && i == Around(cur, d)
    ensures var r := NextSleeping(tasks, cur, i);
      if r.None? then forall k | d <= k < 10 :: tasks[Around(cur, k)].state != SLEEPING
      else exists e :: d <= e < 10 && r.value == Around(cur, e) &&
                       forall k | d <= k < e :: tasks[Around(cur, k)].state != SLEEPING
    decreases 10 - d
  {
    if d == 10 {
      assert i == cur;
    } else {
      assert i != cur;
      if tasks[i].state != SLEEPING {
        assert NextSlot(i) == Around(cur, d + 1);
        NextIsNearest(tasks, cur, NextSlot(i), d + 1);
      }
    }
  }

  /**
   `schedule` hands over to the nearest slot that sleeps, going round from the next one on; the caller
   sleeps.  If none sleeps, the caller goes on.  From the last slot it leaves the array.
   */
  lemma YieldIs(s: State, next: Program) returns (d: nat)
    requires Running(s) && s.tasks[s.cur].rest == Yield(next)
    ensures var s' := Step(s);
      && s'.log == s.log && s'.progs == s.progs && |s'.tasks| == |s.tasks|
      && (s.cur == 9 ==> s'.control == Outside)
      && (s.cur < 9 ==> s'.control == InTask && 1 <= d <= 10 && s'.cur == Around(s.cur, d))
      && (s.cur < 9 ==> forall k | 1 <= k < d :: s.tasks[Around(s.cur, k)].state != SLEEPING)
      && (s.cur < 9 && d == 10 ==>
            OthersStay(s, s', s.cur, s.cur) && s'.tasks[s.cur] == s.tasks[s.cur].(rest := next))
      && (s.cur < 9 && d < 10 ==>
            && OthersStay(s, s', s.cur, s'.cur)
            && s'.tasks[s.cur] == s.tasks[s.cur].(rest := next, state := SLEEPING)
            && s.tasks[s'.cur].state == SLEEPING && s'.tasks[s'.cur] == s.tasks[s'.cur].(state := RUNNING))
  {
    d := 10;
    if s.cur < 9 {
      var s1 := Continue(s, next);
      var cur: nat := s.cur;
      var r := NextSleeping(s1.tasks, cur, cur + 1);
      assert cur + 1 == Around(cur, 1);
      NextIsNearest(s1.tasks, cur, cur + 1, 1);
      if r.Some? {
        d :| 1 <= d < 10 && r.value == Around(cur, d) &&
             forall k | 1 <= k < d :: s1.tasks[Around(cur, k)].state != SLEEPING;
      }
      assert forall k | 1 <= k < 10 :: Around(cur, k) != cur;
    }
  }

  // ----- Families -----

  /** Everything that a program creates, directly or through what it creates. */
  function Descendants(p: Program): multiset<Program> {
    match p
    case Exit(_) => multiset{}
    case Act(_, next) => Descendants(next)
    case Yield(next) => Descendants(next)
    case Spawn(child, next) => multiset{child} + Descendants(child) + Descendants(next)
  }

  function Family(ps: seq<Program>): multiset<Program> {
    if ps == [] then multiset{} else Family(ps[..|ps| - 1]) + multiset{ps[|ps| - 1]} + Descendants(ps[|ps| - 1])
  }

  /** What the slots have still to create. */
  function ToCome(tasks: seq<Task>): multiset<Program> {
    if tasks == [] then multiset{} else ToCome(tasks[..|tasks| - 1]) + Descendants(tasks[|tasks| - 1].rest)
  }

  lemma BagShift<T>(a: multiset<T>, b: multiset<T>, c: multiset<T>, d: multiset<T>, l: multiset<T>)
    requires a + b == c + d
    ensures (a + l) + b == (c + l) + d
  {
    assert (a + l) + b == (a + b) + l && (c + l) + d == (c + d) + l;
  }

  lemma {:induction false} ToComeUpdate(tasks: seq<Task>, i: nat, t: Task)
    requires i < |tasks|
    ensures ToCome(tasks[i := t]) + Descendants(tasks[i].rest) == ToCome(tasks) + Descendants(t.rest)
  {
    var last := |tasks| - 1;
    var before, l := tasks[..last], Descendants(tasks[last].rest);
    if i == last {
      assert tasks[i := t][..last] == before;
    } else {
      assert tasks[i := t][..last] == before[i := t];
      ToComeUpdate(before, i, t);
      BagShift(ToCome(before[i := t]), Descendants(tasks[i].rest), ToCome(before), Descendants(t.rest), l);
    }
  }

  lemma {:induction false} SameToCome(tasks: seq<Task>, tasks': seq<Task>)
    requires |tasks'| == |tasks| && forall i | 0 <= i < |tasks| :: tasks'[i].rest == tasks[i].rest
    ensures ToCome(tasks') == ToCome(tasks)
  {
    if tasks == [] {
    } else {
      SameToCome(tasks[..|tasks| - 1], tasks'[..|tasks| - 1]);
    }
  }

  /** Created and still to be created. */
  function Everything(s: State): multiset<Program>
    requires Count(s) <= |s.tasks|
  {
    multiset(s.progs) + ToCome(s.tasks[..Count(s)])
  }

  lemma {:induction false} SpawnsAreDescendants(p: Program)
    ensures |Descendants(p)| == Spawns(p)
    decreases p
  {
    match p
    case Exit(_) =>
    case Act(_, next) => SpawnsAreDescendants(next);
    case Yield(next) => SpawnsAreDescendants(next);
    case Spawn(child, next) =>
      SpawnsAreDescendants(child);
      SpawnsAreDescendants(next);
  }

  /** A new task and its descendants. */
  lemma CreateAdds(s: State, p: Program)
    requires Count(s) < |s.tasks|
    ensures Everything(Create(s, p)) == Everything(s) + multiset{p} + Descendants(p)
  {
    var n, s' := Count(s), Create(s, p);
    var l := s'.tasks[..n + 1];
    assert l[..n] == s.tasks[..n] && l[n] == Task(SLEEPING, p, 0);
    assert ToCome(l) == ToCome(s.tasks[..n]) + Descendants(p);
  }

  lemma ContinueTakes(s: State, next: Program)
    requires Running(s) && s.cur < Count(s) <= |s.tasks|
    ensures Everything(Continue(s, next)) + Descendants(s.tasks[s.cur].rest) == Everything(s) + Descendants(next)
  {
    var n, t := Count(s), s.tasks[s.cur].(rest := next);
    assert s.tasks[s.cur := t][..n] == s.tasks[..n][s.cur := t];
    ToComeUpdate(s.tasks[..n], s.cur, t);
    var progs := multiset(s.progs);
    assert Everything(Continue(s, next)) == progs + ToCome(s.tasks[..n][s.cur := t]);
    assert progs + ToCome(s.tasks[..n][s.cur := t]) + Descendants(s.tasks[s.cur].rest) ==
      progs + (ToCome(s.tasks[..n][s.cur := t]) + Descendants(s.tasks[s.cur].rest));
  }

  lemma SameEverything(s: State, s': State)
    requires Count(s) <= |s.tasks| == |s'.tasks| && s'.progs == s.progs
    requires forall i | 0 <= i < |s.tasks| :: s'.tasks[i].rest == s.tasks[i].rest
    ensures Everything(s') == Everything(s)
  {
    SameToCome(s.tasks[..Count(s)], s'.tasks[..Count(s)]);
  }

  lemma ContinueKeepsEverything(s: State, next: Program)
    requires Running(s) && s.cur < Count(s) <= |s.tasks| && Descendants(s.tasks[s.cur].rest) == Descendants(next)
    ensures Everything(Continue(s, next)) == Everything(s)
  {
    ContinueTakes(s, next);
    Balance(Everything(Continue(s, next)), Everything(s), multiset{}, Descendants(next));
  }

  lemma YieldKeepsEverything(s: State, next: Program)
    requires Running(s) && s.cur < Count(s) <= |s.tasks| && s.tasks[s.cur].rest == Yield(next)
    ensures |Step(s).tasks| == |s.tasks| && Step(s).progs == s.progs && Everything(Step(s)) == Everything(s)
  {
    ContinueKeepsEverything(s, next);
    YieldKeepsRests(s, next);
    SameEverything(Continue(s, next), Step(s));
  }

  lemma ExitKeepsEverything(s: State, ret: nat)
    requires Running(s) && s.cur < Count(s) <= |s.tasks| && s.tasks[s.cur].rest == Exit(ret)
    ensures |Step(s).tasks| == |s.tasks| && Step(s).progs == s.progs && Everything(Step(s)) == Everything(s)
  {
    ExitIs(s, ret);
    SameEverything(s, Step(s));
  }

  /** No step loses or invents a program. */
  lemma StepKeepsEverything(s: State)
    requires Running(s) && s.cur < Count(s) <= |s.tasks| && (s.tasks[s.cur].rest.Spawn? ==> Count(s) < MAX_TASK_NUM)
    ensures Count(Step(s)) <= |Step(s).tasks| && Everything(Step(s)) == Everything(s)
  {
    match s.tasks[s.cur].rest
    case Exit(ret) => ExitKeepsEverything(s, ret);
    case Act(a, next) => ContinueKeepsEverything(s, next);
    case Yield(next) => YieldKeepsEverything(s, next);
    case Spawn(child, next) => SpawnKeepsEverything(s, child, next);
  }

  lemma SpawnKeepsEverything(s: State, child: Program, next: Program)
    requires Running(s) && s.cur < Count(s) < |s.tasks| && s.tasks[s.cur].rest == Spawn(child, next)
    ensures Everything(Create(Continue(s, next), child)) == Everything(s)
  {
    ContinueTakes(s, next);
    CreateAdds(Continue(s, next), child);
    Balance(Everything(Continue(s, next)), Everything(s), multiset{child} + Descendants(child), Descendants(next));
  }

  lemma Balance<T>(a: multiset<T>, b: multiset<T>, child: multiset<T>, next: multiset<T>)
    requires a + (child + next) == b + next
    ensures a + child == b
  {
    assert a + (child + next) == (a + child) + next;
    assert (a + child) + next - next == a + child && b + next - next == b;
  }

  lemma YieldKeepsRests(s: State, next: Program)
    requires Running(s) && s.tasks[s.cur].rest == Yield(next)
    ensures |Step(s).tasks| == |s.tasks| && Step(s).progs == s.progs
    ensures forall i | 0 <= i < |s.tasks| :: Step(s).tasks[i].rest == Continue(s, next).tasks[i].rest
  {
  }

  lemma {:induction false} RunKeepsEverything(s: State)
    requires Inv(s) && s.control != Before
    ensures Count(s) <= |s.tasks| && Count(Run(s)) <= |Run(s).tasks| && Everything(Run(s)) == Everything(s)
    decreases Work(s.tasks)
  {
    if s.control != InTask {
    } else {
      StepKeepsInv(s);
      StepKeepsEverything(s);
      RunKeepsEverything(Step(s));
    }
  }

  lemma {:induction false} CreateAllIsFamily(ps: seq<Program>)
    requires |ps| <= MAX_TASK_NUM
    ensures Everything(CreateAll(ps)) == Family(ps)
  {
    if ps == [] {
      assert Init().tasks[..0] == [];
    } else {
      CreateAllIsFamily(ps[..|ps| - 1]);
      CreateAdds(CreateAll(ps[..|ps| - 1]), ps[|ps| - 1]);
    }
  }

  lemma {:induction false} NoneToCome(tasks: seq<Task>)
    requires forall t | t in tasks :: Spawns(t.rest) == 0
    ensures ToCome(tasks) == multiset{}
  {
    if tasks == [] {
    } else {
      var t := tasks[|tasks| - 1];
      assert t in tasks;
      SpawnsAreDescendants(t.rest);
      NoneToCome(tasks[..|tasks| - 1]);
    }
  }

  lemma NoneIsPending(r: State)
    requires Inv(r) && Pending(r.tasks) == 0
    ensures forall t | t in r.tasks[..Count(r)] :: Spawns(t.rest) == 0
  {
    forall i | 0 <= i < Count(r)
      ensures Spawns(r.tasks[i].rest) == 0
    {
      assert Faithful(r.tasks[i], ActionsOf(r.log, i), r.progs[i]);
      SumAtLeast(Pendings(r.tasks), i);
    }
  }

  lemma StartedEverything(ps: seq<Program>)
    requires |ps| + SpawnsOf(ps) <= MAX_TASK_NUM
    ensures Count(Started(ps)) <= |Started(ps).tasks| && Everything(Started(ps)) == Family(ps)
  {
    CreateAllIsFamily(ps);
    PickKeepsEverything(CreateAll(ps), Started(ps));
  }

  lemma PickKeepsEverything(s: State, s': State)
    requires |s.tasks| == MAX_TASK_NUM && Count(s) <= MAX_TASK_NUM && s'.tasks == Pick(s).tasks && s'.progs == s.progs
    ensures Everything(s') == Everything(s)
  {
    forall i: nat | i < MAX_TASK_NUM
      ensures s'.tasks[i].rest == s.tasks[i].rest
    {
      PickKeepsRest(s, i);
    }
    SameEverything(s, s');
  }

  lemma EndsWithAll(s: State, all: multiset<Program>)
    requires Inv(s) && s.control != Before && Count(s) <= |s.tasks| && Everything(s) == all
    requires Pending(Run(s).tasks) == 0
    ensures multiset(Run(s).progs) == all
  {
    RunKeepsEverything(s);
    NoneIsPending(Run(s));
    NoneToCome(Run(s).tasks[..Count(Run(s))]);
  }

  lemma NoneLeft(ps: seq<Program>, total: nat)
    requires total == |ps| + SpawnsOf(ps) <= MAX_TASK_NUM
    ensures ps <= Run(Started(ps)).progs && Pending(Run(Started(ps)).tasks) == 0
  {
    RunCompletes(Started(ps), total);
    RunKeepsProgs(Started(ps));
  }

  /**
   Any programs that fit the slots: the tasks that have run are those of main and everything that they
   and their descendants create, each once, main's first and in their order.
   */
  lemma RunsTheFamily(ps: seq<Program>, total: nat)
    requires total == |ps| + SpawnsOf(ps) <= MAX_TASK_NUM
    ensures ps <= Run(Started(ps)).progs && multiset(Run(Started(ps)).progs) == Family(ps)
  {
    NoneLeft(ps, total);
    StartedEverything(ps);
    EndsWithAll(Started(ps), Family(ps));
  }
}
