/**
 The round-robin scheduler with sleepers (kernel/scheduler.c:17-133).

 A scheduler pass is one call of `scheduler_schedule`.  `IsPass` says what a pass does
 without running the scan; the progress bounds are proved about every sequence of passes in
 which the other tasks may change in any way between two passes.
 */
module Scheduler {
  datatype TaskState = Running | Ready | Blocked | Sleeping | Zombie

  datatype Task = Task(id: int, state: TaskState, priority: int, ticks: int, sleepTicks: int)

  const MAX_TASKS: int := 64

  datatype Table = Table(tasks: seq<Task>, count: int, current: int)

  ghost predicate WellFormed(s: Table) {
    && |s.tasks| == MAX_TASKS && 0 <= s.count <= MAX_TASKS
    && (if s.count == 0 then s.current == 0 else 0 <= s.current < s.count)
    && forall j | 0 <= j < MAX_TASKS :: 0 <= s.tasks[j].sleepTicks
  }

  /** Steps from `a` to `b` going round a ring of `n`; a full round if they are equal. */
  function Dist(a: int, b: int, n: int): int {
    if a < b then b - a else b - a + n
  }

  /** What the scan does to a task it comes to. */
  function Visited(t: Task): Task {
    if !t.state.Sleeping? then t
    else if t.sleepTicks <= 1 then t.(sleepTicks := 0, state := Ready)
    else t.(sleepTicks := t.sleepTicks - 1)
  }

  /**
   `r` is the table after one pass over `s` with at least two tasks: the scan came to the tasks
   from the one after the current up to the new current, all of them but the last were not ready,
   and the last is ready unless the scan came full circle.
   */
  ghost predicate IsPass(s: Table, r: Table) {
    && WellFormed(s) && WellFormed(r) && s.count == r.count >= 2
    && var n, k := s.count, Dist(s.current, r.current, s.count);
    && (forall j | 0 <= j < n ::
          r.tasks[j] == if Dist(s.current, j, n) <= k then Visited(s.tasks[j]) else s.tasks[j])
    && (forall j | n <= j < MAX_TASKS :: r.tasks[j] == s.tasks[j])
    && (forall j | 0 <= j < n && Dist(s.current, j, n) < k :: !Visited(s.tasks[j]).state.Ready?)
    && (r.current == s.current || Visited(s.tasks[r.current]).state.Ready?)
  }

  /** The result of a pass is a ready task, unless no task at all is ready; the scan takes at most `n` steps. */
  lemma Selection(s: Table, r: Table)
    requires IsPass(s, r)
    ensures 1 <= Dist(s.current, r.current, s.count) <= s.count
    ensures r.tasks[r.current].state.Ready? || forall j | 0 <= j < r.count :: !r.tasks[j].state.Ready?
  {
    if !r.tasks[r.current].state.Ready? {
      forall j | 0 <= j < r.count
        ensures !r.tasks[j].state.Ready?
      {
        assert j == r.current || Dist(s.current, j, s.count) < s.count;
      }
    }
  }

  /** What is `d` steps ahead on a ring of `n`. */
  lemma AheadOnRing(a: int, d: int, n: int)
    requires 0 <= a < n && 0 <= d <= n
    ensures (a + d) % n == if a + d < n then a + d else a + d - n
    ensures 1 <= d ==> Dist(a, (a + d) % n, n) == d
  {
    if a + d < n {
      SmallRemainder(a + d, n);
    } else {
      OneRound(a + d, n);
    }
  }

  /** A sleeping task loses a tick and wakes when none is left; nothing else about it changes. */
  ghost predicate CountedDown(t: Task, t': Task) {
    && t'.id == t.id && t'.priority == t.priority && t'.ticks == t.ticks
    && (if t.state.Sleeping? then
          && t'.sleepTicks == (if t.sleepTicks > 0 then t.sleepTicks - 1 else 0)
          && t'.state == if t'.sleepTicks == 0 then Ready else Sleeping
        else t' == t)
  }

  /**
   A pass goes round the ring from the task after the current one, counts down every task it comes to and
   stops at the first that is ready, or back at the current one; it leaves all others as they are.
   */
  lemma PassInOrder(s: Table, r: Table, d: int)
    requires IsPass(s, r) && 1 <= d <= s.count
    ensures var n, k := s.count, Dist(s.current, r.current, s.count);
            && 1 <= k <= n && r.current == (s.current + k) % n
            && var j := (s.current + d) % n;
            && 0 <= j < n
            && (if d <= k then CountedDown(s.tasks[j], r.tasks[j]) else r.tasks[j] == s.tasks[j])
            && (d < k ==> !r.tasks[j].state.Ready?)
            && (d == k ==> r.tasks[j].state.Ready? || k == n)
  {
    AheadOnRing(s.current, d, s.count);
    AheadOnRing(s.current, Dist(s.current, r.current, s.count), s.count);
  }

  /** A pass is a function of the table. */
  lemma PassDeterministic(s: Table, r: Table, r': Table)
    requires IsPass(s, r) && IsPass(s, r')
    ensures r == r'
  {
    var n := s.count;
    if Dist(s.current, r.current, n) < Dist(s.current, r'.current, n) {
      assert false;
    } else if Dist(s.current, r'.current, n) < Dist(s.current, r.current, n) {
      assert false;
    }
    assert r.tasks == r'.tasks;
  }

  // ---------- runs ----------

  /** Between two passes the other tasks may do anything; task `t` and the ring stay. */
  ghost predicate Undisturbed(s: Table, s': Table, t: int) {
    && WellFormed(s) && WellFormed(s') && 0 <= t < s.count
    && s'.count == s.count && s'.current == s.current && s'.tasks[t] == s.tasks[t]
  }

  /** A run: pass `i` takes `before[i]` to `after[i]`. */
  ghost predicate IsRun(before: seq<Table>, after: seq<Table>, t: int) {
    && |before| == |after|
    && (forall i | 0 <= i < |before| :: IsPass(before[i], after[i]) && 0 <= t < before[i].count)
    && (forall i, j | 0 <= i < |before| && 0 <= j < |before| && j == i + 1 :: Undisturbed(after[i], before[j], t))
  }

  predicate Selected(r: Table, t: int)
    requires 0 <= t < |r.tasks|
  {
    r.current == t && r.tasks[t].state.Ready?
  }

  /** An upper bound on the passes until the sleeper `t` is selected: rounds still to go and the way to `t`. */
  ghost function Budget(s: Table, t: int): int
    requires 0 <= t < |s.tasks|
  {
    var k := s.tasks[t].sleepTicks;
    (if k <= 1 then 0 else k - 1) * s.count + Dist(s.current, t, s.count)
  }

  lemma LessThanProduct(a: int, n: int)
    ensures (a - 1) * n == a * n - n
  {
  }

  /** A pass selects the sleeper or brings it strictly closer, and takes off at most one of its ticks. */
  lemma SleeperStep(s: Table, r: Table, t: int)
    requires IsPass(s, r) && 0 <= t < s.count && s.tasks[t].state.Sleeping?
    ensures Selected(r, t) ==> s.tasks[t].sleepTicks <= 1
    ensures !Selected(r, t) ==>
              && r.tasks[t].state.Sleeping? && Budget(r, t) < Budget(s, t)
              && s.tasks[t].sleepTicks - 1 <= r.tasks[t].sleepTicks
  {
    var k, n := s.tasks[t].sleepTicks, s.count;
    if k >= 2 { LessThanProduct(k - 1, n); }
    assert r.tasks[t] ==
           if Dist(s.current, t, n) <= Dist(s.current, r.current, n) then Visited(s.tasks[t]) else s.tasks[t];
  }

  lemma BudgetPositive(s: Table, t: int)
    requires WellFormed(s) && 0 <= t < s.count
    ensures Budget(s, t) >= 1
  {
    var k := s.tasks[t].sleepTicks;
    if k > 1 { assert (k - 1) * s.count >= 0; }
  }

  lemma {:induction false} SleeperRun(before: seq<Table>, after: seq<Table>, t: int, m: int)
    requires IsRun(before, after, t) && 0 <= m < |before| && before[0].tasks[t].state.Sleeping?
    requires forall i | 0 <= i < m :: !Selected(after[i], t)
    ensures before[m].tasks[t].state.Sleeping? && before[m].count == before[0].count
    ensures Budget(before[m], t) <= Budget(before[0], t) - m
    ensures before[m].tasks[t].sleepTicks >= before[0].tasks[t].sleepTicks - m
    decreases m
  {
    if m > 0 {
      SleeperRun(before, after, t, m - 1);
      SleeperStep(before[m - 1], after[m - 1], t);
      assert Undisturbed(after[m - 1], before[m], t);
    }
  }

  function Max(a: int, b: int): int { if a < b then b else a }

  /** The table in which the current task has just marked itself as sleeping for `k` ticks. */
  ghost predicate JustSlept(s: Table, t: int, k: int) {
    && WellFormed(s) && s.count >= 2 && s.current == t
    && s.tasks[t].state.Sleeping? && s.tasks[t].sleepTicks == k
  }

  /**
   A task that goes to sleep for `k` ticks among `n` tasks is selected, ready, within
   `max(k, 1) * n` passes, whatever the other tasks do.
   */
  lemma SleepUpperBound(before: seq<Table>, after: seq<Table>, t: int, k: int) returns (i: int)
    requires IsRun(before, after, t) && before != [] && JustSlept(before[0], t, k)
    requires |before| >= Max(k, 1) * before[0].count
    ensures 0 <= i < Max(k, 1) * before[0].count && i < |before| && Selected(after[i], t)
  {
    var n := before[0].count;
    var bound := Max(k, 1) * n;
    if k >= 1 { LessThanProduct(k, n); }
    assert Budget(before[0], t) == bound;
    i := 0;
    BudgetPositive(before[0], t);
    while !Selected(after[i], t)
      invariant 0 <= i < bound && i < |before|
      invariant forall j | 0 <= j < i :: !Selected(after[j], t)
      decreases bound - i
    {
      SleeperRun(before, after, t, i);
      SleeperStep(before[i], after[i], t);
      BudgetPositive(after[i], t);
      i := i + 1;
    }
  }

  /** It is not selected before its ticks are used up: not in fewer than `max(k, 1)` passes. */
  lemma SleepLowerBound(before: seq<Table>, after: seq<Table>, t: int, k: int, i: int)
    requires IsRun(before, after, t) && 0 <= i < |before| && JustSlept(before[0], t, k)
    requires Selected(after[i], t) && forall j | 0 <= j < i :: !Selected(after[j], t)
    ensures i + 1 >= Max(k, 1)
  {
    SleeperRun(before, after, t, i);
    SleeperStep(before[i], after[i], t);
  }

  /** A ready task is reached or comes closer with every pass. */
  lemma ReadyStep(s: Table, r: Table, t: int)
    requires IsPass(s, r) && 0 <= t < s.count && s.tasks[t].state.Ready?
    ensures r.tasks[t] == s.tasks[t]
    ensures r.current == t || Dist(r.current, t, s.count) < Dist(s.current, t, s.count)
  {
  }

  /** Bounded bypass: a ready task becomes current within `n - 1` passes, whatever the other tasks do. */
  lemma {:induction false} BoundedBypass(before: seq<Table>, after: seq<Table>, t: int) returns (i: int)
    requires IsRun(before, after, t) && before != []
    requires before[0].tasks[t].state.Ready? && before[0].current != t
    requires |before| >= Dist(before[0].current, t, before[0].count)
    ensures 0 <= i < |before| && i < before[0].count - 1 && Selected(after[i], t)
    ensures i < Dist(before[0].current, t, before[0].count)
    decreases |before|
  {
    ReadyStep(before[0], after[0], t);
    if after[0].current == t {
      i := 0;
    } else {
      assert Undisturbed(after[0], before[1], t);
      var j := BoundedBypass(before[1..], after[1..], t);
      i := j + 1;
    }
  }

  // ---------- the scheduler itself ----------

  class Scheduler {
    var tasks: array<Task>
    var taskCount: int
    var currentTask: int

    ghost function State(): Table
      reads this, tasks
    {
      Table(tasks[..], taskCount, currentTask)
    }

    ghost predicate Valid()
      reads this, tasks
    {
      WellFormed(State())
    }

    /** `scheduler_init`: every slot a zombie, no tasks. */
    constructor ()
      ensures Valid() && fresh(tasks) && taskCount == 0 && currentTask == 0
      ensures forall j | 0 <= j < MAX_TASKS :: tasks[j].state.Zombie? && tasks[j].id == 0
    {
      tasks := new Task[MAX_TASKS](_ => Task(0, Zombie, 0, 0, 0));
      taskCount, currentTask := 0, 0;
    }

    /** `scheduler_add_task`: the next slot becomes a ready task; a full table is left alone. */
    method AddTask() returns (added: bool)
      requires Valid()
      modifies this`taskCount, tasks
      ensures Valid()
      ensures added <==> old(taskCount) < MAX_TASKS
      ensures !added ==> State() == old(State())
      ensures added ==> State() == Table(old(tasks[..])[old(taskCount) := Task(old(taskCount), Ready, 1, 0, 0)],
                                         old(taskCount) + 1, old(currentTask))
    {
      if taskCount >= MAX_TASKS {
        return false;
      }
      tasks[taskCount] := Task(taskCount, Ready, 1, 0, 0);
      taskCount := taskCount + 1;
      return true;
    }

    /** `scheduler_schedule`: the round-robin scan. */
    method Schedule()
      requires Valid()
      modifies this`currentTask, tasks
      ensures Valid()
      ensures taskCount <= 1 ==> State() == old(State())
      ensures taskCount >= 2 ==> IsPass(old(State()), State())
    {
      if taskCount <= 1 {
        return;
      }
      var oldTask, n := currentTask, taskCount;
      ghost var steps := 0;
      ghost var was := tasks[..];
      var done := false;
      while !done
        invariant tasks == old(tasks) && tasks.Length == MAX_TASKS
        invariant done ==> IsPass(Table(was, n, oldTask), State())
        invariant !done ==> 0 <= steps < n && OnRing(oldTask, currentTask, n, steps)
        invariant !done ==> Scanned(was, tasks[..], oldTask, n, steps)
        decreases !done, n - steps
      {
        done := Advance(oldTask, n, steps, was);
        steps := steps + 1;
      }
    }

    /** One turn of the scan: on to the next task, which is visited; done if it is ready or the round is full. */
    method Advance(oldTask: int, n: int, ghost steps: int, ghost was: seq<Task>) returns (done: bool)
      requires tasks.Length == MAX_TASKS && taskCount == n >= 2 && 0 <= steps < n
      requires OnRing(oldTask, currentTask, n, steps) && Scanned(was, tasks[..], oldTask, n, steps)
      modifies this`currentTask, tasks
      ensures done ==> IsPass(Table(was, n, oldTask), State())
      ensures !done ==> steps + 1 < n && OnRing(oldTask, currentTask, n, steps + 1)
      ensures !done ==> Scanned(was, tasks[..], oldTask, n, steps + 1)
    {
      RingStep(oldTask, currentTask, n, steps);
      currentTask := (currentTask + 1) % n;
      ScannedStep(was, tasks[..], oldTask, n, steps, currentTask);
      VisitTask(currentTask);
      done := tasks[currentTask].state.Ready? || currentTask == oldTask;
    }

    /** Counts down a sleeping task and wakes it when its ticks are used up. */
    method VisitTask(c: int)
      requires 0 <= c < tasks.Length && tasks[c].sleepTicks >= 0
      modifies tasks
      ensures tasks[..] == old(tasks[..])[c := Visited(old(tasks[c]))]
    {
      if tasks[c].state.Sleeping? {
        if tasks[c].sleepTicks > 0 {
          tasks[c] := tasks[c].(sleepTicks := tasks[c].sleepTicks - 1);
        }
        if tasks[c].sleepTicks == 0 {
          tasks[c] := tasks[c].(state := Ready);
        }
      }
    }

    /** `scheduler_sleep`: the current task marks itself and gives up the processor. */
    method Sleep(ticks: int)
      requires Valid() && 0 <= ticks
      modifies this`currentTask, tasks
      ensures Valid()
      ensures taskCount == 0 ==> State() == old(State())
      ensures taskCount == 1 ==> State() == Asleep(old(State()), ticks)
      ensures taskCount >= 2 ==>
                && JustSlept(Asleep(old(State()), ticks), old(currentTask), ticks)
                && IsPass(Asleep(old(State()), ticks), State())
    {
      if taskCount == 0 {
        return;
      }
      tasks[currentTask] := tasks[currentTask].(state := Sleeping);
      tasks[currentTask] := tasks[currentTask].(sleepTicks := ticks);
      assert State() == Asleep(old(State()), ticks);
      Schedule();
    }
  }

  /** The table with the current task asleep for `ticks` ticks. */
  ghost function Asleep(s: Table, ticks: int): Table
    requires 0 <= s.current < |s.tasks|
  {
    s.(tasks := s.tasks[s.current := s.tasks[s.current].(state := Sleeping, sleepTicks := ticks)])
  }

  /** `last` is the task `steps` steps after `start`. */
  ghost predicate OnRing(start: int, last: int, n: int, steps: int) {
    0 <= start < n && 0 <= last < n && if steps == 0 then last == start else Dist(start, last, n) == steps
  }

  /** `now` is `was` with the `steps` tasks after `o` visited, and none of those is ready. */
  ghost predicate Scanned(was: seq<Task>, now: seq<Task>, o: int, n: int, steps: int) {
    && |was| == |now| == MAX_TASKS && 0 <= o < n <= MAX_TASKS
    && (forall j | 0 <= j < MAX_TASKS :: 0 <= was[j].sleepTicks)
    && (forall j | 0 <= j < n :: now[j] == if Dist(o, j, n) <= steps then Visited(was[j]) else was[j])
    && (forall j | n <= j < MAX_TASKS :: now[j] == was[j])
    && (forall j | 0 <= j < n && Dist(o, j, n) <= steps :: !Visited(was[j]).state.Ready?)
  }

  /** One more visit: the scan goes on, or the pass is complete. */
  lemma ScannedStep(was: seq<Task>, now: seq<Task>, o: int, n: int, steps: int, c: int)
    requires Scanned(was, now, o, n, steps) && 2 <= n && 0 <= steps < n
    requires 0 <= c < n && Dist(o, c, n) == steps + 1
    ensures now[c] == was[c]
    ensures var r := now[c := Visited(was[c])];
            if r[c].state.Ready? || c == o then IsPass(Table(was, n, o), Table(r, n, c))
            else Scanned(was, r, o, n, steps + 1) && steps + 1 < n
  {
    assert forall j | 0 <= j < n && Dist(o, j, n) == steps + 1 :: j == c;
  }

  lemma RingStep(start: int, last: int, n: int, steps: int)
    requires OnRing(start, last, n, steps) && 0 <= steps < n
    ensures var c := (last + 1) % n; 0 <= c < n && Dist(start, c, n) == steps + 1
  {
    NextOnRing(last, n);
  }

  lemma NextOnRing(i: int, n: int)
    requires 0 <= i < n
    ensures (i + 1) % n == if i + 1 == n then 0 else i + 1
  {
    if i + 1 == n { SelfRemainder(n); } else { SmallRemainder(i + 1, n); }
  }

  lemma SmallRemainder(i: int, n: int)
    requires 0 <= i < n
    ensures i % n == i
  {
  }

  lemma OneRound(i: int, n: int)
    requires 0 < n <= i < 2 * n
    ensures i % n == i - n
  {
    var p := i / n;
    assert i == p * n + i % n;
    if p <= 0 {
      NoMoreThan(p, 0, n);
    } else if p >= 2 {
      NoMoreThan(2, p, n);
    }
  }

  lemma NoMoreThan(a: int, b: int, n: int)
    requires a <= b && 0 <= n
    ensures a * n <= b * n
  {
  }

  lemma SelfRemainder(n: int)
    requires 0 < n
    ensures n % n == 0
  {
  }
}
