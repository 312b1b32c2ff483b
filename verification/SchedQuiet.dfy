/** Bounded waiting among system calls: the running task may also sleep, wait or be
    killed, and tasks that nobody waits for may be killed, as long as no task wakes up
    and none is created. */
module SchedQuiet {
  import opened Options
  import opened Sched
  import opened SchedInvariant
  import opened SchedRuns
  import opened SchedWaiting

  /** The event is enabled, wakes and creates nothing, and leaves t alive. */
  ghost predicate Quiet(s: State, e: Event, t: Tid)
    ensures Quiet(s, e, t) ==> Enabled(s, e)
  {
    Enabled(s, e) &&
    match e
    case TickEvent(r) => NoneDue(s, r)
    case CreateEvent(_) => false
    case SleepEvent(wake, r) => NoneDue(FallAsleep(s, s.current.value, wake), r)
    case WaitEvent(u, r) => u in s.tasks ==> NoneDue(JoinWaiters(s, s.current.value, u), r)
    case KillEvent(u, r) =>
      && u != t
      && (u in s.tasks ==> s.tasks[u].waiters == [])
      && (u in s.tasks && s.current == Some(u) ==> NoneDue(KillTask(s, u), r))
  }

  /** The event uses up the processor for a while or gives it away; a call that names no
      live task and the killing of another task do neither. */
  ghost predicate Turn(s: State, e: Event) {
    match e
    case TickEvent(_) => true
    case SleepEvent(_, _) => true
    case WaitEvent(u, _) => u in s.tasks
    case KillEvent(u, _) => u in s.tasks && s.current == Some(u)
    case CreateEvent(_) => false
  }

  ghost predicate QuietRun(s: State, es: seq<Event>, t: Tid)
    decreases |es|
  {
    es == [] || (Quiet(s, es[0], t) && QuietRun(Step(s, es[0]), es[1..], t))
  }

  /** How many events of the run are turns. */
  ghost function Turns(s: State, es: seq<Event>, t: Tid): nat
    requires QuietRun(s, es, t)
    decreases |es|
  {
    if es == [] then 0 else (if Turn(s, es[0]) then 1 else 0) + Turns(Step(s, es[0]), es[1..], t)
  }

  lemma {:induction false} QuietIsLegal(s: State, es: seq<Event>, t: Tid)
    requires QuietRun(s, es, t)
    ensures Legal(s, es)
    decreases |es|
  {
    hide Enabled;
    hide Step;
    hide Quiet;
    if es != [] {
      QuietIsLegal(Step(s, es[0]), es[1..], t);
    }
  }

  /** A ready task is neither the current one nor asleep nor waiting. */
  ghost predicate Waits(s: State, t: Tid) {
    t in s.tasks && s.tasks[t].state == Ready
  }

  /** The current task has left for good or for a while: the next one is t or was ahead
      of it. */
  lemma GaveUp(s: State, q: State, t: Tid, readings: seq<Time>)
    requires Steady(s) && Waits(s, t) && Inv(q) && q.current.None? && q.ready == s.ready
    requires Waits(q, t) && q.tasks[t].level == s.tasks[t].level && NoneDue(q, readings)
    ensures var r := Dispatch(q, readings);
      && Steady(r) && (r.current == Some(t) || (Waits(r, t) && Budget(r, t) < Budget(s, t)))
  {
    hide Partition;
    hide FlushFrom;
    hide RunNext;
    hide Ahead;
    FlushNothing(q, 0, readings);
    RunNextBudget(q, t);
    DispatchKeeps(q, readings);
    SameAhead(s, q, t);
    var r := RunNext(q);
    IsCurrent(r, Lists(r.tasks), r.current.value);
    CounterRange(r, Lists(r.tasks), r.current.value);
    IsCurrent(s, Lists(s.tasks), s.current.value);
    CounterRange(s, Lists(s.tasks), s.current.value);
  }

  lemma ReadyIsNotCurrent(s: State, t: Tid)
    requires Steady(s) && Waits(s, t)
    ensures s.current.value in s.tasks && s.current.value != t
  {
    hide Partition;
    IsCurrent(s, Lists(s.tasks), s.current.value);
    Elsewhere(s, Lists(s.tasks), t);
  }

  lemma SleepProgress(s: State, t: Tid, wake: Time, readings: seq<Time>)
    requires Steady(s) && Waits(s, t) && Quiet(s, SleepEvent(wake, readings), t)
    ensures var r := Sleep(s, wake, readings);
      && Steady(r) && (r.current == Some(t) || (Waits(r, t) && Budget(r, t) < Budget(s, t)))
  {
    hide Partition;
    hide Flush;
    hide Dispatch;
    hide Budget;
    var c := s.current.value;
    ReadyIsNotCurrent(s, t);
    FallAsleepKeeps(s, Lists(s.tasks), c, wake);
    SameLists(s.tasks, FallAsleep(s, c, wake).tasks);
    GaveUp(s, FallAsleep(s, c, wake), t, readings);
  }

  lemma WaitProgress(s: State, t: Tid, u: Tid, readings: seq<Time>)
    requires Steady(s) && Waits(s, t) && Quiet(s, WaitEvent(u, readings), t) && u in s.tasks
    ensures var r := Wait(s, u, readings);
      && Steady(r) && (r.current == Some(t) || (Waits(r, t) && Budget(r, t) < Budget(s, t)))
  {
    hide Partition;
    hide Flush;
    hide Dispatch;
    hide Budget;
    var c := s.current.value;
    ReadyIsNotCurrent(s, t);
    JoinWaitersKeeps(s, Lists(s.tasks), c, u);
    GaveUp(s, JoinWaiters(s, c, u), t, readings);
  }

  /** Taking another task out of a queue does not move t back. */
  lemma RemoveAhead(q: seq<Tid>, u: Tid, t: Tid)
    requires u != t && t in q
    ensures PositionFrom(Remove(q, u), t, 0) <= PositionFrom(q, t, 0)
  {
    var k, j, r := PositionFrom(q, t, 0), PositionFrom(q, u, 0), Remove(q, u);
    var x :| 0 <= x < |q| && q[x] == t;
    assert k < |q|;
    if j < |q| {
      var p := if k < j then k else k - 1;
      assert r[p] == t && forall y :: 0 <= y < p ==> r[y] != t;
      PositionIs(r, t, p);
    }
  }

  lemma RemoveShorter(q: seq<Tid>, u: Tid)
    ensures |Remove(q, u)| <= |q|
  {
  }

  /** What the killing of a task that nobody waits for does to the others and the queues. */
  lemma Killed(s: State, u: Tid)
    requires u in s.tasks && s.tasks[u].waiters == [] && s.tasks[u].level < 3
    ensures var q, k := KillTask(s, u), s.tasks[u];
      && q.ready == (if k.state == Ready then s.ready[k.level := Remove(s.ready[k.level], u)] else s.ready)
      && q.current == (if k.state == Running then None else s.current)
      && q.tasks.Keys == s.tasks.Keys - {u}
      && forall x :: x in q.tasks ==> q.tasks[x] == s.tasks[x].(waiters := q.tasks[x].waiters)
  {
    hide Remove;
  }

  lemma QueuesShrink(s: State, q: State, t: Tid, u: Tid, k: nat)
    requires k < 3 && q.ready == s.ready[k := Remove(s.ready[k], u)] && q.current == s.current && t != u
    requires Of(q, t).level == Of(s, t).level < 3 && t in s.ready[Of(s, t).level]
    requires s.current.Some? ==> Of(q, s.current.value).level == Of(s, s.current.value).level
    ensures LevelSum(q) <= LevelSum(s) && Ahead(q, t) <= Ahead(s, t)
  {
    hide PositionFrom;
    hide Remove;
    RemoveShorter(s.ready[k], u);
    if Of(s, t).level == k { RemoveAhead(s.ready[k], u, t); }
  }

  /** Killing another task that nobody waits for. */
  lemma KillOther(s: State, t: Tid, u: Tid)
    requires Steady(s) && Waits(s, t) && u in s.tasks && u != t && s.tasks[u].waiters == [] && s.current != Some(u)
    ensures var q := KillTask(s, u);
      q.current == s.current && Waits(q, t) && Budget(q, t) <= Budget(s, t)
  {
    hide Partition;
    hide KillTask;
    hide Ahead;
    hide LevelSum;
    ReadyIsNotCurrent(s, t);
    Elsewhere(s, Lists(s.tasks), t);
    Elsewhere(s, Lists(s.tasks), u);
    CounterRange(s, Lists(s.tasks), u);
    Killed(s, u);
    var q := KillTask(s, u);
    if s.tasks[u].state == Ready { QueuesShrink(s, q, t, u, s.tasks[u].level); } else { SameQueues(s, q, t); }
  }

  lemma SameQueues(s: State, q: State, t: Tid)
    requires q.ready == s.ready && q.current == s.current && Of(q, t).level == Of(s, t).level
    requires s.current.Some? ==> Of(q, s.current.value).level == Of(s, s.current.value).level
    ensures LevelSum(q) == LevelSum(s) && Ahead(q, t) == Ahead(s, t)
  {
  }

  /** Killing the current task, if nobody waits for it. */
  lemma KillCurrent(s: State, t: Tid, readings: seq<Time>)
    requires Steady(s) && Waits(s, t) && s.tasks.Keys >= {s.current.value} && s.tasks[s.current.value].waiters == []
    requires NoneDue(KillTask(s, s.current.value), readings)
    ensures var r := Dispatch(KillTask(s, s.current.value), readings);
      && Steady(r) && (r.current == Some(t) || (Waits(r, t) && Budget(r, t) < Budget(s, t)))
  {
    hide Partition;
    hide Flush;
    hide Dispatch;
    hide Budget;
    hide Remove;
    var c := s.current.value;
    ReadyIsNotCurrent(s, t);
    IsCurrent(s, Lists(s.tasks), c);
    CurrentState(s, Lists(s.tasks), c);
    KillKeeps(s, c);
    GaveUp(s, KillTask(s, c), t, readings);
  }

  /** One quiet event: t runs, or its budget shrinks by every turn. */
  lemma QuietProgress(s: State, t: Tid, e: Event)
    requires Steady(s) && Waits(s, t) && Quiet(s, e, t)
    ensures var r := Step(s, e);
      && Steady(r)
      && (r.current == Some(t) ||
          (Waits(r, t) && Budget(r, t) <= Budget(s, t) && (Turn(s, e) ==> Budget(r, t) < Budget(s, t))))
  {
    hide Partition;
    hide Flush;
    hide Dispatch;
    hide RunNext;
    hide Budget;
    hide KillTask;
    hide Tick;
    StepKeeps(s, e);
    match e
    case TickEvent(r) => TickProgress(s, t, r);
    case SleepEvent(wake, r) => SleepProgress(s, t, wake, r);
    case WaitEvent(u, r) => if u in s.tasks { WaitProgress(s, t, u, r); }
    case KillEvent(u, r) =>
      if u in s.tasks {
        if s.current == Some(u) { KillCurrent(s, t, r); } else { KillOther(s, t, u); }
      }
    case CreateEvent(_) =>
  }

  /** Over every run of ticks, sleeps, waits and kills in which no task wakes up and none
      is created, a ready task that is not killed runs after at most Budget turns. */
  lemma {:induction false} BoundedWaitingAmidCalls(s: State, t: Tid, es: seq<Event>) returns (n: nat)
    requires Steady(s) && Waits(s, t) && QuietRun(s, es, t) && Turns(s, es, t) >= Budget(s, t)
    ensures 1 <= n <= |es| && Legal(s, es[..n]) && Run(s, es[..n]).current == Some(t)
    ensures QuietRun(s, es[..n], t) && Turns(s, es[..n], t) <= Budget(s, t)
    decreases |es|
  {
    hide Partition;
    hide Step;
    hide Budget;
    hide Quiet;
    hide Turn;
    BudgetRange(s, t);
    assert es != [];
    var r := Step(s, es[0]);
    QuietProgress(s, t, es[0]);
    if r.current == Some(t) {
      n := 1;
      assert es[..1][0] == es[0] && es[..1][1..] == [];
    } else {
      var m := BoundedWaitingAmidCalls(r, t, es[1..]);
      n := m + 1;
      assert es[..n][0] == es[0] && es[..n][1..] == es[1..][..m];
    }
    QuietIsLegal(s, es[..n], t);
  }
}
