/** Runs of the scheduler: the partition in every reachable state, sleepers that do
    not wake early, and the choice of the next task. */
module SchedRuns {
  import opened Sequences
  import opened Options
  import opened Sched
  import opened SchedInvariant

  /** A timer tick, or a system call of the current task; the readings are what the
      clock shows to the sleepers' check. */
  datatype Event =
    | TickEvent(readings: seq<Time>)
    | CreateEvent(junk: Time)
    | SleepEvent(wake: Time, readings: seq<Time>)
    | WaitEvent(target: Tid, readings: seq<Time>)
    | KillEvent(target: Tid, readings: seq<Time>)

  /** Some task is ready once the sleepers that are due have been woken up. */
  ghost predicate HasNext(s: State, readings: seq<Time>) {
    |s.sleep| <= |readings| && TopLevel(Flush(s, readings)).Some?
  }

  /** The event can happen: every sleeper gets a reading, and a step that gives the
      processor away finds a ready task. */
  ghost predicate Enabled(s: State, e: Event) {
    match e
    case TickEvent(r) => |s.sleep| <= |r|
    case CreateEvent(_) => true
    case SleepEvent(wake, r) => s.current.Some? && |s.sleep| < |r| && HasNext(FallAsleep(s, s.current.value, wake), r)
    case WaitEvent(u, r) =>
      s.current.Some? && |s.sleep| <= |r| && (u in s.tasks ==> HasNext(JoinWaiters(s, s.current.value, u), r))
    case KillEvent(u, r) =>
      |s.sleep| <= |r| && (u in s.tasks && s.current == Some(u) ==> HasNext(KillTask(s, u), r))
  }

  ghost function Step(s: State, e: Event): State
    requires Enabled(s, e)
  {
    match e
    case TickEvent(r) => Tick(s, r)
    case CreateEvent(junk) => Create(s, junk)
    case SleepEvent(wake, r) => Sleep(s, wake, r)
    case WaitEvent(u, r) => Wait(s, u, r)
    case KillEvent(u, r) => Kill(s, u, r)
  }

  /** Every event of the run is enabled when its turn comes. */
  ghost predicate Legal(s: State, es: seq<Event>)
    decreases |es|
  {
    es == [] || (Enabled(s, es[0]) && Legal(Step(s, es[0]), es[1..]))
  }

  ghost function Run(s: State, es: seq<Event>): State
    requires Legal(s, es)
    decreases |es|
  {
    if es == [] then s else Run(Step(s, es[0]), es[1..])
  }

  /** init_pc: the init task runs, nothing else exists. */
  function Initial(junk: Time): State {
    State(Some(0), [[], [], []], [], [0], map[0 := Task(0, Running, 1, junk, [])])
  }

  ghost predicate Steady(s: State) {
    Inv(s) && s.current.Some?
  }

  /** The init task runs on level 0, with one tick left, and there is no other. */
  lemma InitialSteady(junk: Time)
    ensures Steady(Initial(junk)) && Initial(junk).tasks.Keys == {0}
    ensures var k := Initial(junk).tasks[0]; k.state == Running && k.level == 0 && k.counter == 1 && k.waiters == []
  {
    var s := Initial(junk);
    assert Lists(s.tasks)[0] == [];
  }

  lemma TickKeeps(s: State, readings: seq<Time>)
    requires Steady(s) && |s.sleep| <= |readings|
    ensures Steady(Tick(s, readings))
  {
    hide Partition;
    hide Flush;
    hide RunNext;
    var c, w := s.current.value, Lists(s.tasks);
    IsCurrent(s, w, c);
    CounterRange(s, w, c);
    var k := s.tasks[c].counter - 1;
    var s1 := s.(tasks := s.tasks[c := s.tasks[c].(counter := k)]);
    SameLists(s.tasks, s1.tasks);
    if k > 0 {
      CountKeeps(s, w, c, k);
    } else {
      RequeueKeeps(s, w, c, k);
      var q := Requeue(s1, c);
      SameLists(s1.tasks, q.tasks);
      DispatchKeeps(q, readings);
      RequeuedHasNext(s1, c, readings);
    }
  }

  lemma CounterRange(s: State, w: map<Tid, seq<Tid>>, t: Tid)
    requires Partition(s, w) && t in s.tasks
    ensures 1 <= s.tasks[t].counter <= 8 && s.tasks[t].level < 3
  {
    assert TaskOk(s, w, t);
  }

  /** Waking sleepers up never empties a queue. */
  lemma {:induction false} FlushOnlyAdds(s: State, list: seq<Tid>, i: nat, readings: seq<Time>)
    requires i <= |list| <= |readings|
    ensures var r := FlushFrom(s, list, i, readings);
      |r.ready[0]| == |s.ready[0]| && |r.ready[1]| == |s.ready[1]| && |r.ready[2]| >= |s.ready[2]|
    decreases |list| - i
  {
    if i < |list| {
      FlushOnlyAdds(FlushOne(s, list[i], readings[i]), list, i + 1, readings);
    }
  }

  /** The expiring task itself is ready, so a tick always finds a task. */
  lemma RequeuedHasNext(s: State, c: Tid, readings: seq<Time>)
    requires Of(s, c).level < 3 && |s.sleep| <= |readings|
    ensures TopLevel(Flush(Requeue(s, c), readings)).Some?
  {
    FlushOnlyAdds(Requeue(s, c), s.sleep, 0, readings);
  }

  lemma DispatchTasks(s: State, readings: seq<Time>)
    requires Inv(s) && s.current.None? && |s.sleep| <= |readings|
    ensures Dispatch(s, readings).tasks.Keys == s.tasks.Keys
  {
    hide Partition;
    var w := Lists(s.tasks);
    SleepDistinct(s, w);
    assert forall j :: 0 <= j < |s.sleep| ==> s.sleep[j] in s.sleep;
    FlushKeeps(s, w, s.sleep, 0, readings);
    RunNextKeeps(Flush(s, readings), w);
  }

  lemma StepKeeps(s: State, e: Event)
    requires Steady(s) && Enabled(s, e)
    ensures Steady(Step(s, e))
  {
    hide Partition;
    hide Flush;
    hide RunNext;
    hide Delete;
    hide ReleaseFrom;
    hide LowestFree;
    var c, w := s.current.value, Lists(s.tasks);
    match e
    case TickEvent(r) =>
      TickKeeps(s, r);
    case CreateEvent(junk) =>
      CreateKeeps(s, junk);
    case SleepEvent(wake, r) =>
      IsCurrent(s, w, c);
      FallAsleepKeeps(s, w, c, wake);
      SameLists(s.tasks, FallAsleep(s, c, wake).tasks);
      DispatchKeeps(FallAsleep(s, c, wake), r);
    case WaitEvent(u, r) =>
      if u in s.tasks {
        JoinWaitersKeeps(s, w, c, u);
        DispatchKeeps(JoinWaiters(s, c, u), r);
      }
    case KillEvent(u, r) =>
      if u in s.tasks {
        KillKeeps(s, u);
        if s.current == Some(u) { DispatchKeeps(KillTask(s, u), r); }
      }
  }

  /** In every state reachable from init_pc each live task is in exactly one place. */
  lemma {:induction false} RunKeeps(s: State, es: seq<Event>)
    requires Steady(s) && Legal(s, es)
    ensures Steady(Run(s, es))
    decreases |es|
  {
    if es != [] {
      StepKeeps(s, es[0]);
      RunKeeps(Step(s, es[0]), es[1..]);
    }
  }

  lemma OneWaitList(s: State, t: Tid)
    requires Inv(s) && t in s.tasks
    ensures (exists u :: u in s.tasks && t in s.tasks[u].waiters) <==> s.tasks[t].state == Waiting
    ensures forall u, v :: u in s.tasks && v in s.tasks && t in s.tasks[u].waiters && t in s.tasks[v].waiters ==> u == v
  {
    hide Partition;
    var w := Lists(s.tasks);
    Elsewhere(s, w, t);
    if s.tasks[t].state == Waiting {
      var u :| u in w && t in w[u];
      assert u in s.tasks && t in s.tasks[u].waiters;
    }
    if u :| u in s.tasks && t in s.tasks[u].waiters { assert t in w[u]; }
    forall u, v | u in s.tasks && v in s.tasks && t in s.tasks[u].waiters && t in s.tasks[v].waiters ensures u == v {
      assert t in w[u] && t in w[v];
    }
  }

  /** What the partition says of one task: its state field and its level name the one
      list it is in. */
  lemma OnePlace(s: State, t: Tid)
    requires Inv(s) && t in s.tasks
    ensures var k := s.tasks[t];
      && (s.current == Some(t) <==> k.state == Running)
      && (t in s.ready[0] <==> k.state == Ready && k.level == 0)
      && (t in s.ready[1] <==> k.state == Ready && k.level == 1)
      && (t in s.ready[2] <==> k.state == Ready && k.level == 2)
      && (t in s.sleep <==> k.state == Sleeping)
      && ((exists u :: u in s.tasks && t in s.tasks[u].waiters) <==> k.state == Waiting)
      && k.state != Creating && k.level < 3
  {
    hide Partition;
    OneWaitList(s, t);
    Elsewhere(s, Lists(s.tasks), t);
  }

  // ------------------------------------------------------------------ sleepers

  lemma FlushOneOther(s: State, t: Tid, now: Time, x: Tid)
    requires Distinct(s.sleep) && x != t
    ensures var r := FlushOne(s, t, now);
      && Distinct(r.sleep) && (x in r.sleep <==> x in s.sleep) && Of(r, x) == Of(s, x)
      && (t in r.sleep <==> t in s.sleep && TimeCmp(now, Of(s, t).sleeptime) < 0)
      && (TimeCmp(now, Of(s, t).sleeptime) < 0 ==> r == s)
  {
    RemoveFacts(s.sleep, t);
  }

  /** The k-th sleeper is woken up if and only if the clock it sees has reached its
      wake time; otherwise nothing of it changes. */
  lemma {:induction false} FlushExact(s: State, list: seq<Tid>, i: nat, readings: seq<Time>, k: nat)
    requires i <= |list| <= |readings| && i <= k < |list| && Distinct(list) && Distinct(s.sleep)
    requires forall j :: i <= j < |list| ==> list[j] in s.sleep
    ensures var r, t := FlushFrom(s, list, i, readings), list[k];
      && (t in r.sleep <==> TimeCmp(readings[k], Of(s, t).sleeptime) < 0)
      && (t in r.sleep ==> Of(r, t) == Of(s, t))
    decreases |list| - i
  {
    hide FlushOne;
    var r, t := FlushOne(s, list[i], readings[i]), list[k];
    AnyOther(s, list[i], readings[i]);
    forall j | i < j < |list| ensures list[j] in r.sleep { FlushOneOther(s, list[i], readings[i], list[j]); }
    if i < k {
      FlushOneOther(s, list[i], readings[i], t);
      FlushExact(r, list, i + 1, readings, k);
    } else {
      FlushRest(r, list, i + 1, readings, t);
    }
  }

  lemma AnyOther(s: State, t: Tid, now: Time)
    requires Distinct(s.sleep)
    ensures var r := FlushOne(s, t, now);
      && Distinct(r.sleep) && (t in r.sleep <==> t in s.sleep && TimeCmp(now, Of(s, t).sleeptime) < 0)
      && (TimeCmp(now, Of(s, t).sleeptime) < 0 ==> r == s)
  {
    RemoveFacts(s.sleep, t);
  }

  /** The rest of the loop does not touch a task it does not visit. */
  lemma {:induction false} FlushRest(s: State, list: seq<Tid>, i: nat, readings: seq<Time>, t: Tid)
    requires i <= |list| <= |readings| && Distinct(s.sleep) && forall j :: i <= j < |list| ==> list[j] != t
    ensures var r := FlushFrom(s, list, i, readings); (t in r.sleep <==> t in s.sleep) && Of(r, t) == Of(s, t)
    decreases |list| - i
  {
    if i < |list| {
      FlushOneOther(s, list[i], readings[i], t);
      FlushRest(FlushOne(s, list[i], readings[i]), list, i + 1, readings, t);
    }
  }

  ghost predicate AllBefore(readings: seq<Time>, wake: Time) {
    forall i :: 0 <= i < |readings| ==> IsTime(readings[i]) && Value(readings[i]) < Value(wake)
  }

  /** t sleeps until `wake`. */
  ghost predicate Asleep(s: State, t: Tid, wake: Time) {
    t in s.sleep && t in s.tasks && Of(s, t).state == Sleeping && Of(s, t).sleeptime == wake
  }

  lemma DispatchAsleep(s: State, readings: seq<Time>, t: Tid, wake: Time)
    requires Inv(s) && s.current.None? && |s.sleep| <= |readings| && Asleep(s, t, wake) && IsTime(wake) && AllBefore(readings, wake)
    ensures Asleep(Dispatch(s, readings), t, wake)
  {
    hide Partition;
    var w := Lists(s.tasks);
    var k :| 0 <= k < |s.sleep| && s.sleep[k] == t;
    SleepDistinct(s, w);
    TimeCmpIsOrder(readings[k], wake);
    assert forall j :: 0 <= j < |s.sleep| ==> s.sleep[j] in s.sleep;
    FlushExact(s, s.sleep, 0, readings, k);
    FlushKeeps(s, w, s.sleep, 0, readings);
    var f := Flush(s, readings);
    if TopLevel(f).Some? {
      var l := TopLevel(f).value;
      InReady(f, w, l, f.ready[l][0]);
      Elsewhere(f, w, t);
    }
  }

  ghost function Readings(e: Event): seq<Time> {
    match e
    case TickEvent(r) => r
    case CreateEvent(_) => []
    case SleepEvent(_, r) => r
    case WaitEvent(_, r) => r
    case KillEvent(_, r) => r
  }

  lemma {:induction false} ReleaseAsleep(s: State, w: map<Tid, seq<Tid>>, d: Tid, list: seq<Tid>, i: nat, t: Tid, wake: Time)
    requires Partition(s, w) && i <= |list| && d in w && w[d] == list[i..] && Asleep(s, t, wake)
    ensures Asleep(ReleaseFrom(s, list, i), t, wake)
    decreases |list| - i
  {
    hide Partition;
    if i < |list| {
      var x := list[i];
      assert w[d][0] == x && x in w[d];
      InWait(s, w, d, x);
      AwakeWaiter(s, w, d, x);
      assert w[d][1..] == list[i + 1..];
      ReleaseAsleep(Awake(s, x), w[d := w[d][1..]], d, list, i + 1, t, wake);
    }
  }

  lemma KillAsleep(s: State, u: Tid, t: Tid, wake: Time)
    requires Inv(s) && u in s.tasks && u != t && Asleep(s, t, wake)
    ensures Asleep(KillTask(s, u), t, wake)
  {
    hide Partition;
    hide ReleaseFrom;
    hide Remove;
    var w, q := Lists(s.tasks), s.tasks[u].waiters;
    ReleaseAsleep(s, w, u, q, 0, t, wake);
    ReleaseKeeps(s, w, u, q, 0);
    var r := ReleaseFrom(s, q, 0);
    SleepDistinct(r, w[u := []]);
    RemoveFacts(r.sleep, u);
  }

  lemma TickAsleep(s: State, readings: seq<Time>, t: Tid, wake: Time)
    requires Steady(s) && |s.sleep| <= |readings| && Asleep(s, t, wake) && IsTime(wake) && AllBefore(readings, wake)
    ensures Asleep(Tick(s, readings), t, wake)
  {
    hide Partition;
    hide Dispatch;
    var c, w := s.current.value, Lists(s.tasks);
    IsCurrent(s, w, c);
    CounterRange(s, w, c);
    var k := s.tasks[c].counter - 1;
    var s1 := s.(tasks := s.tasks[c := s.tasks[c].(counter := k)]);
    if k <= 0 {
      RequeueKeeps(s, w, c, k);
      var q := Requeue(s1, c);
      SameLists(s.tasks, q.tasks);
      DispatchAsleep(q, readings, t, wake);
    }
  }

  lemma SleepAsleep(s: State, until: Time, readings: seq<Time>, t: Tid, wake: Time)
    requires Steady(s) && |s.sleep| < |readings| && Asleep(s, t, wake) && IsTime(wake) && AllBefore(readings, wake)
    ensures Asleep(Sleep(s, until, readings), t, wake)
  {
    hide Partition;
    hide Dispatch;
    var c, w := s.current.value, Lists(s.tasks);
    IsCurrent(s, w, c);
    FallAsleepKeeps(s, w, c, until);
    SameLists(s.tasks, FallAsleep(s, c, until).tasks);
    AppendMember(s.sleep, c, t);
    DispatchAsleep(FallAsleep(s, c, until), readings, t, wake);
  }

  lemma WaitAsleep(s: State, u: Tid, readings: seq<Time>, t: Tid, wake: Time)
    requires Steady(s) && |s.sleep| <= |readings| && Asleep(s, t, wake) && IsTime(wake) && AllBefore(readings, wake)
    ensures Asleep(Wait(s, u, readings), t, wake)
  {
    hide Partition;
    hide Dispatch;
    var c, w := s.current.value, Lists(s.tasks);
    IsCurrent(s, w, c);
    if u in s.tasks {
      JoinWaitersKeeps(s, w, c, u);
      DispatchAsleep(JoinWaiters(s, c, u), readings, t, wake);
    }
  }

  lemma KillStepAsleep(s: State, u: Tid, readings: seq<Time>, t: Tid, wake: Time)
    requires Steady(s) && |s.sleep| <= |readings| && Asleep(s, t, wake) && IsTime(wake) && AllBefore(readings, wake) && u != t
    ensures Asleep(Kill(s, u, readings), t, wake)
  {
    hide Partition;
    hide Dispatch;
    hide KillTask;
    if u in s.tasks {
      KillKeeps(s, u);
      KillAsleep(s, u, t, wake);
      if s.current == Some(u) { DispatchAsleep(KillTask(s, u), readings, t, wake); }
    }
  }

  /** A sleeper stays asleep through every step whose clock readings are before its
      wake time, unless it is killed. */
  lemma StepAsleep(s: State, e: Event, t: Tid, wake: Time)
    requires Steady(s) && Enabled(s, e) && Asleep(s, t, wake) && IsTime(wake)
    requires AllBefore(Readings(e), wake) && !(e.KillEvent? && e.target == t)
    ensures Asleep(Step(s, e), t, wake)
  {
    hide Partition;
    hide Tick;
    hide Sleep;
    hide Wait;
    hide Kill;
    hide LowestFree;
    match e
    case TickEvent(r) => TickAsleep(s, r, t, wake);
    case CreateEvent(junk) =>
    case SleepEvent(until, r) => SleepAsleep(s, until, r, t, wake);
    case WaitEvent(u, r) => WaitAsleep(s, u, r, t, wake);
    case KillEvent(u, r) => KillStepAsleep(s, u, r, t, wake);
  }

  lemma AppendMember(q: seq<Tid>, c: Tid, t: Tid)
    requires t in q
    ensures t in q + [c]
  {
  }

  /** No sleeper becomes ready before its 64-bit wake time, over whole runs. */
  lemma {:induction false} NoEarlyWake(s: State, es: seq<Event>, t: Tid, wake: Time)
    requires Steady(s) && Legal(s, es) && Asleep(s, t, wake) && IsTime(wake)
    requires forall i :: 0 <= i < |es| ==> AllBefore(Readings(es[i]), wake) && !(es[i].KillEvent? && es[i].target == t)
    ensures Asleep(Run(s, es), t, wake)
    decreases |es|
  {
    hide Step;
    hide Partition;
    hide Asleep;
    hide Enabled;
    if es != [] {
      StepAsleep(s, es[0], t, wake);
      StepKeeps(s, es[0]);
      NoEarlyWake(Step(s, es[0]), es[1..], t, wake);
    }
  }

  // ------------------------------------------------------------------- choice

  /** The task that runs next was ready at the highest level in use, at the head of
      its queue, and nothing else moved. */
  lemma ChoiceIsHighest(s: State)
    requires Inv(s) && s.current.None? && TopLevel(s).Some?
    ensures var r := RunNext(s);
      && r.current.Some? && var t := r.current.value;
      && t in s.tasks && s.tasks[t].state == Ready && s.ready[s.tasks[t].level][0] == t
      && (forall x :: x in s.tasks && s.tasks[x].state == Ready ==> s.tasks[x].level <= s.tasks[t].level)
      && (forall x :: x in s.tasks && x != t ==> r.tasks[x] == s.tasks[x])
      && r.tasks[t] == s.tasks[t].(state := Running)
  {
    hide Partition;
    var w := Lists(s.tasks);
    var l := TopLevel(s).value;
    InReady(s, w, l, s.ready[l][0]);
    forall x | x in s.tasks && s.tasks[x].state == Ready ensures s.tasks[x].level <= l { Elsewhere(s, w, x); }
  }
}
