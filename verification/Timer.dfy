/**
 The timer interrupt as the source of scheduler passes (kernel/timer.c:11-45).  The tick
 counter is a 32-bit word; every tick whose new value is a multiple of five runs a pass.
 */
module Timer {
  import opened Types
  import S = Scheduler

  function NextTick(tick: int): int { (tick + 1) % TWO32 }

  predicate PassAt(tick: int) { tick % 5 == 0 }

  /** Ticks until the next pass.  The wrap-around only shortens the wait: 2^32 - 1 and 0 both pass. */
  function Wait(tick: int): (d: int)
    requires 0 <= tick < TWO32
    ensures 1 <= d <= 5
  {
    if tick == TWO32 - 1 then 1 else 5 - tick % 5
  }

  lemma WaitStep(tick: int)
    requires 0 <= tick < TWO32
    ensures PassAt(NextTick(tick)) <==> Wait(tick) == 1
    ensures !PassAt(NextTick(tick)) ==> Wait(NextTick(tick)) == Wait(tick) - 1
  {
  }

  function TickAfter(tick: int, n: nat): (r: int)
    requires 0 <= tick < TWO32
    ensures 0 <= r < TWO32
  {
    if n == 0 then tick else NextTick(TickAfter(tick, n - 1))
  }

  /** Any five consecutive ticks contain a pass, and the first one comes after exactly `Wait` of them. */
  lemma {:induction false} PassWithinFive(tick: int, n: nat)
    requires 0 <= tick < TWO32 && 1 <= n <= Wait(tick)
    ensures PassAt(TickAfter(tick, n)) <==> n == Wait(tick)
    ensures n < Wait(tick) ==> Wait(TickAfter(tick, n)) == Wait(tick) - n
  {
    if n > 1 { PassWithinFive(tick, n - 1); }
    WaitStep(TickAfter(tick, n - 1));
  }

  /** Passes of the timer are five ticks apart, until the counter wraps. */
  lemma {:induction false} PassesFiveApart(tick: int, n: nat)
    requires 0 <= tick && PassAt(tick) && tick + n < TWO32
    ensures TickAfter(tick, n) == tick + n
    ensures PassAt(TickAfter(tick, n)) <==> n % 5 == 0
  {
    if n > 0 {
      PassesFiveApart(tick, n - 1);
      FivesApart(tick, n);
    }
  }

  lemma FivesApart(a: int, n: int)
    requires a % 5 == 0
    ensures (a + n) % 5 == n % 5
  {
  }

  /** At the wrap two ticks in a row run a pass. */
  lemma PassesAtWrap()
    ensures PassAt(TWO32 - 1) && NextTick(TWO32 - 1) == 0 && PassAt(0)
  {
  }

  // ---------- timer-driven runs ----------

  /** A timer interrupt, or a pass some task asked for (`scheduler_yield`, `scheduler_sleep`). */
  datatype Event = Tick | Call

  datatype Step = Step(event: Event, tick: int, before: S.Table, after: S.Table)

  ghost predicate Passes(e: Step) {
    e.event.Call? || PassAt(NextTick(e.tick))
  }

  ghost function TickOf(e: Step): int {
    if e.event.Tick? then NextTick(e.tick) else e.tick
  }

  /** A run of events: those that pass change the table by a pass, the others leave it alone. */
  ghost predicate IsRun(es: seq<Step>, t: int) {
    && (forall i | 0 <= i < |es| :: IsStep(es[i], t))
    && (forall i, j | 0 <= i < |es| && 0 <= j < |es| && j == i + 1 ::
          es[j].tick == TickOf(es[i]) && S.Undisturbed(es[i].after, es[j].before, t))
  }

  ghost function TickCount(es: seq<Step>): (n: nat)
    ensures n <= |es|
  {
    if es == [] then 0 else TickCount(es[..|es| - 1]) + if es[|es| - 1].event.Tick? then 1 else 0
  }

  /** Ticks within which the sleeper must be selected. */
  ghost function TickBudget(e: Step, t: int): int
    requires 0 <= t < |e.before.tasks| && 0 <= e.tick < TWO32
  {
    5 * (S.Budget(e.before, t) - 1) + Wait(e.tick)
  }

  ghost predicate IsStep(e: Step, t: int) {
    && 0 <= e.tick < TWO32 && S.WellFormed(e.before) && S.WellFormed(e.after)
    && 0 <= t < e.before.count == e.after.count
    && if Passes(e) then S.IsPass(e.before, e.after) else e.after == e.before
  }

  /** Budget left after a step. */
  ghost function BudgetAfter(e: Step, t: int): int
    requires 0 <= t < |e.after.tasks| && 0 <= e.tick < TWO32
  {
    5 * (S.Budget(e.after, t) - 1) + Wait(TickOf(e))
  }

  /** A step that does not select the sleeper uses up a tick of its budget if it is a tick, and never adds to it. */
  lemma StepBudget(e: Step, t: int)
    requires IsStep(e, t) && e.before.tasks[t].state.Sleeping? && !S.Selected(e.after, t)
    ensures e.after.tasks[t].state.Sleeping?
    ensures 1 <= BudgetAfter(e, t) <= TickBudget(e, t) - if e.event.Tick? then 1 else 0
  {
    if Passes(e) { S.SleeperStep(e.before, e.after, t); }
    S.BudgetPositive(e.after, t);
    WaitStep(e.tick);
  }

  /** What the other tasks do between two steps does not change the sleeper's budget. */
  lemma Handover(e: Step, next: Step, t: int)
    requires IsStep(e, t) && S.Undisturbed(e.after, next.before, t) && next.tick == TickOf(e)
    ensures TickBudget(next, t) == BudgetAfter(e, t)
  {
    assert S.Budget(next.before, t) == S.Budget(e.after, t);
  }

  lemma RunPrefix(es: seq<Step>, t: int, m: nat)
    requires IsRun(es, t) && 1 <= m <= |es|
    ensures IsRun(es[..m], t) && es[..m][0] == es[0]
  {
  }

  /** After a run that did not select the sleeper, the ticks that went by are gone from its budget. */
  lemma {:induction false} SleeperTicks(es: seq<Step>, t: int)
    requires IsRun(es, t) && es != [] && es[0].before.tasks[t].state.Sleeping?
    requires forall i | 0 <= i < |es| :: !S.Selected(es[i].after, t)
    ensures es[|es| - 1].after.tasks[t].state.Sleeping?
    ensures 1 <= BudgetAfter(es[|es| - 1], t) <= TickBudget(es[0], t) - TickCount(es)
  {
    var last, init := es[|es| - 1], es[..|es| - 1];
    if |es| > 1 {
      RunPrefix(es, t, |es| - 1);
      SleeperTicks(init, t);
      Handover(init[|init| - 1], last, t);
    }
    StepBudget(last, t);
  }

  /**
   A task that goes to sleep for `k` ticks among `n` tasks is selected, ready, before
   `5 * max(k, 1) * n` timer ticks have gone by, whatever the other tasks do and however
   many extra passes they ask for.
   */
  lemma SleepTickBound(es: seq<Step>, t: int, k: int) returns (i: int)
    requires IsRun(es, t) && es != [] && S.JustSlept(es[0].before, t, k)
    requires TickCount(es) >= 5 * (S.Max(k, 1) * es[0].before.count)
    ensures 0 <= i < |es| && S.Selected(es[i].after, t)
    ensures TickCount(es[..i]) < 5 * (S.Max(k, 1) * es[0].before.count)
  {
    i := FirstSelected(es, t);
    StartBudget(es[0], t, k);
    if i == |es| {
      SleeperTicks(es, t);
      assert false;
    }
    if i > 0 {
      RunPrefix(es, t, i);
      SleeperTicks(es[..i], t);
    }
  }

  /** What the budget is when the sleep starts. */
  lemma StartBudget(e: Step, t: int, k: int)
    requires IsStep(e, t) && S.JustSlept(e.before, t, k)
    ensures 1 <= S.Max(k, 1) * e.before.count && TickBudget(e, t) <= 5 * (S.Max(k, 1) * e.before.count)
  {
    var n := e.before.count;
    if k >= 1 { S.LessThanProduct(k, n); }
    assert S.Budget(e.before, t) == S.Max(k, 1) * n;
    S.BudgetPositive(e.before, t);
    WaitStep(e.tick);
  }

  /** The first event after which the sleeper is selected, or the length of the run. */
  lemma FirstSelected(es: seq<Step>, t: int) returns (i: int)
    requires IsRun(es, t)
    ensures 0 <= i <= |es| && forall j | 0 <= j < i :: !S.Selected(es[j].after, t)
    ensures i < |es| ==> S.Selected(es[i].after, t)
  {
    i := 0;
    while i < |es| && !S.Selected(es[i].after, t)
      invariant 0 <= i <= |es| && forall j | 0 <= j < i :: !S.Selected(es[j].after, t)
    {
      i := i + 1;
    }
  }

  class Timer {
    var tickCount: int
    const scheduler: S.Scheduler

    constructor (s: S.Scheduler)
      ensures tickCount == 0 && scheduler == s
    {
      tickCount, scheduler := 0, s;
    }

    /** `timer_callback`: counts the tick and runs a pass on every fifth value. */
    method Callback()
      requires 0 <= tickCount < TWO32 && scheduler.Valid()
      modifies this`tickCount, scheduler`currentTask, scheduler.tasks
      ensures tickCount == NextTick(old(tickCount)) && scheduler.Valid()
      ensures if PassAt(tickCount) && scheduler.taskCount >= 2
              then S.IsPass(old(scheduler.State()), scheduler.State())
              else scheduler.State() == old(scheduler.State())
    {
      tickCount := (tickCount + 1) % TWO32;
      if tickCount % 5 == 0 {
        scheduler.Schedule();
      }
    }
  }
}
