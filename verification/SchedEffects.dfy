/** What a tick and the system calls do to the tasks involved, told from the states before
    and after alone (kernel/pc/shed.c, kernel/pc/pc.c). */
module SchedEffects {
  import opened Sequences
  import opened Options
  import opened Sched
  import opened SchedInvariant
  import opened SchedRuns
  import opened SchedWaiting

  // ---------------------------------------------------------------- waking up

  /** The sleepers from the i-th on whose reading has reached their wake time, the last
      one first. */
  ghost function DueFrom(tasks: map<Tid, Task>, list: seq<Tid>, i: nat, readings: seq<Time>): seq<Tid>
    requires i <= |list| <= |readings| && forall j :: 0 <= j < |list| ==> list[j] in tasks
    decreases |list| - i
  {
    if i == |list| then []
    else DueFrom(tasks, list, i + 1, readings) +
         if Value(readings[i]) >= Value(tasks[list[i]].sleeptime) then [list[i]] else []
  }

  lemma {:induction false} DueFrame(a: map<Tid, Task>, b: map<Tid, Task>, list: seq<Tid>, i: nat, readings: seq<Time>)
    requires i <= |list| <= |readings| && a.Keys == b.Keys && forall j :: 0 <= j < |list| ==> list[j] in a
    requires forall x :: x in a ==> b[x].sleeptime == a[x].sleeptime
    ensures DueFrom(a, list, i, readings) == DueFrom(b, list, i, readings)
    decreases |list| - i
  {
    if i < |list| { DueFrame(a, b, list, i + 1, readings); }
  }

  lemma {:induction false} DueInList(tasks: map<Tid, Task>, list: seq<Tid>, i: nat, readings: seq<Time>, x: Tid)
    requires i <= |list| <= |readings| && forall j :: 0 <= j < |list| ==> list[j] in tasks
    ensures x in DueFrom(tasks, list, i, readings) <==>
      exists k :: i <= k < |list| && list[k] == x && Value(readings[k]) >= Value(tasks[x].sleeptime)
    decreases |list| - i
  {
    if i < |list| { DueInList(tasks, list, i + 1, readings, x); }
  }

  ghost predicate Times(s: State, readings: seq<Time>) {
    && (forall x :: x in s.tasks ==> IsTime(s.tasks[x].sleeptime))
    && (forall k :: 0 <= k < |readings| ==> IsTime(readings[k]))
  }

  /** Woken up: level 2, ready, nothing else changed. */
  ghost function Woken(tasks: map<Tid, Task>, due: seq<Tid>): map<Tid, Task> {
    map x | x in tasks :: if x in due then tasks[x].(level := 2, state := Ready) else tasks[x]
  }

  lemma WokenStep(tasks: map<Tid, Task>, t: Tid, rest: seq<Tid>)
    requires t in tasks
    ensures Woken(tasks[t := tasks[t].(level := 2, state := Ready)], rest) == Woken(tasks, rest + [t])
  {
    assert forall x :: x in rest + [t] <==> x in rest || x == t;
  }

  /** A flush puts the sleepers that are due at the head of list 2, the last one first, with
      their counters kept; all else stays. */
  lemma {:induction false} FlushEffect(s: State, list: seq<Tid>, i: nat, readings: seq<Time>)
    requires i <= |list| <= |readings| && Times(s, readings)
    requires forall j :: 0 <= j < |list| ==> list[j] in s.tasks
    ensures var r, due := FlushFrom(s, list, i, readings), DueFrom(s.tasks, list, i, readings);
      && r.ready == s.ready[2 := due + s.ready[2]] && r.tasks == Woken(s.tasks, due)
      && r.current == s.current && r.shed == s.shed
    decreases |list| - i
  {
    hide Woken;
    hide Value;
    hide Remove;
    if i == |list| {
      NoneWoken(s.tasks);
      assert [] + s.ready[2] == s.ready[2];
    } else {
      var t := list[i];
      var q, rest := FlushOne(s, t, readings[i]), DueFrom(s.tasks, list, i + 1, readings);
      TimeCmpIsOrder(readings[i], s.tasks[t].sleeptime);
      DueFrame(s.tasks, q.tasks, list, i + 1, readings);
      FlushEffect(q, list, i + 1, readings);
      if TimeCmp(readings[i], s.tasks[t].sleeptime) >= 0 {
        WokenStep(s.tasks, t, rest);
        assert rest + [t] + s.ready[2] == rest + q.ready[2];
        assert DueFrom(s.tasks, list, i, readings) == rest + [t];
      } else {
        assert q == s && DueFrom(s.tasks, list, i, readings) == rest;
      }
    }
  }

  lemma NoneWoken(tasks: map<Tid, Task>)
    ensures Woken(tasks, []) == tasks
  {
  }

  // ----------------------------------------------------------------- dispatch

  /** Those that a dispatch finds due. */
  ghost function Due(s: State, readings: seq<Time>): seq<Tid>
    requires Inv(s) && |s.sleep| <= |readings|
  {
    SleepersLive(s);
    DueFrom(s.tasks, s.sleep, 0, readings)
  }

  lemma SleepersLive(s: State)
    requires Inv(s)
    ensures Distinct(s.sleep) && forall j :: 0 <= j < |s.sleep| ==> s.sleep[j] in s.tasks && s.tasks[s.sleep[j]].state == Sleeping
  {
    hide Partition;
    SleepDistinct(s, Lists(s.tasks));
    forall j | 0 <= j < |s.sleep| ensures s.sleep[j] in s.tasks && s.tasks[s.sleep[j]].state == Sleeping {
      InSleep(s, Lists(s.tasks), s.sleep[j]);
    }
  }

  /** The head of list l runs, and no higher list has a task. */
  ghost predicate Chosen(q: Queues, l: nat, r: State) {
    l < 3 && q[l] != [] && r.current == Some(q[l][0]) && r.ready == q[l := q[l][1..]] && forall k :: l < k < 3 ==> q[k] == []
  }

  /** From s, with `due` woken up at the head of list 2, the head of list l has started. */
  ghost predicate Started(s: State, due: seq<Tid>, l: nat, r: State) {
    && Chosen(s.ready[2 := due + s.ready[2]], l, r) && r.shed == s.shed
    && r.current.Some? && r.current.value in s.tasks
    && (r.current.value in due || s.tasks[r.current.value].state == Ready)
    && var w := Woken(s.tasks, due); r.tasks == w[r.current.value := w[r.current.value].(state := Running)]
  }

  /** A dispatch puts the sleepers that are due at the head of list 2, the last one first,
      and runs the head of the highest list; a task keeps its counter, its wake time and
      its wait list whatever happens to it. */
  lemma DispatchEffect(s: State, readings: seq<Time>) returns (l: nat)
    requires Inv(s) && s.current.None? && HasNext(s, readings) && Times(s, readings)
    ensures Inv(Dispatch(s, readings)) && Started(s, Due(s, readings), l, Dispatch(s, readings))
  {
    hide Partition;
    hide FlushFrom;
    hide DueFrom;
    SleepersLive(s);
    FlushEffect(s, s.sleep, 0, readings);
    FlushKeeps(s, Lists(s.tasks), s.sleep, 0, readings);
    DispatchKeeps(s, readings);
    var f := Flush(s, readings);
    l := TopLevel(f).value;
    InReady(f, Lists(s.tasks), l, f.ready[l][0]);
  }

  lemma StartedKeeps(s: State, due: seq<Tid>, l: nat, r: State, x: Tid)
    requires Started(s, due, l, r) && x in s.tasks
    ensures x in r.tasks && r.tasks.Keys == s.tasks.Keys
    ensures r.tasks[x].(level := 0, state := Ready) == s.tasks[x].(level := 0, state := Ready)
  {
  }

  /** A task that is not asleep stays as it is, unless it is the one that runs now. */
  lemma DispatchOther(s: State, readings: seq<Time>, x: Tid)
    requires Inv(s) && s.current.None? && HasNext(s, readings) && Times(s, readings)
    requires x in s.tasks && s.tasks[x].state != Sleeping
    ensures var r := Dispatch(s, readings);
      && x in r.tasks && x !in Due(s, readings)
      && (if r.current == Some(x) then s.tasks[x].state == Ready && r.tasks[x] == s.tasks[x].(state := Running)
          else r.tasks[x] == s.tasks[x])
  {
    hide Partition;
    hide Dispatch;
    hide DueFrom;
    SleepersLive(s);
    var l := DispatchEffect(s, readings);
    DueInList(s.tasks, s.sleep, 0, readings, x);
  }

  // --------------------------------------------------------------------- ticks

  ghost predicate AtTail(q: seq<Tid>, t: Tid) {
    q != [] && q[|q| - 1] == t
  }

  /** The tick that uses up a quantum: the task falls one level, down to 0, with 8 ticks
      on level 0 and 4 on level 1, and goes to the tail of its new list, unless it is
      the only task of that level and there is none above, and runs on. */
  lemma QuantumEnds(s: State, readings: seq<Time>)
    requires Steady(s) && |s.sleep| <= |readings| && Times(s, readings) && Of(s, s.current.value).counter == 1
    ensures var c, r := s.current.value, Tick(s, readings);
      var l := if Of(s, c).level == 0 then 0 else Of(s, c).level - 1;
      && c in r.tasks && l <= 1 && r.tasks[c].level == l && r.tasks[c].counter == (if l == 0 then 8 else 4)
      && r.tasks[c].waiters == s.tasks[c].waiters
      && (if r.current == Some(c) then r.ready[l] == [] && forall k :: l < k < 3 ==> r.ready[k] == []
          else r.tasks[c].state == Ready && AtTail(r.ready[l], c))
  {
    hide Partition;
    hide Dispatch;
    hide Due;
    hide Woken;
    var c, w := s.current.value, Lists(s.tasks);
    IsCurrent(s, w, c);
    CounterRange(s, w, c);
    var s1 := s.(tasks := s.tasks[c := s.tasks[c].(counter := 0)]);
    var q := Requeue(s1, c);
    RequeueKeeps(s, w, c, 0);
    SameLists(s.tasks, q.tasks);
    RequeuedHasNext(s1, c, readings);
    DispatchOther(q, readings, c);
    var l := DispatchEffect(q, readings);
    Alone(Dispatch(q, readings), q, Due(q, readings), c, l);
  }

  /** A task at the tail of list 0 or 1 is still there after a dispatch, or was alone. */
  lemma Alone(r: State, q: State, due: seq<Tid>, c: Tid, l: nat)
    requires Inv(q) && c in q.tasks && q.tasks[c].state == Ready && q.tasks[c].level <= 1 && c !in due
    requires AtTail(q.ready[q.tasks[c].level], c) && Chosen(q.ready[2 := due + q.ready[2]], l, r)
    ensures var k := q.tasks[c].level;
      if r.current == Some(c) then r.ready[k] == [] && forall h :: k < h < 3 ==> r.ready[h] == [] else AtTail(r.ready[k], c)
  {
    hide Partition;
    Elsewhere(q, Lists(q.tasks), c);
    var k, f := q.tasks[c].level, q.ready[2 := due + q.ready[2]];
    if r.current == Some(c) {
      assert f[l][0] in f[l];
      assert l == k;
    }
  }

  /** Until then only its counter changes: it stays the current task for as many ticks as
      its counter says. */
  lemma {:induction false} QuantumLasts(s: State, ticks: seq<seq<Time>>)
    requires Steady(s) && |ticks| < Of(s, s.current.value).counter
    requires forall i :: 0 <= i < |ticks| ==> |ticks[i]| >= |s.sleep|
    ensures var c := s.current.value;
      AfterTicks(s, ticks) == s.(tasks := s.tasks[c := Of(s, c).(counter := Of(s, c).counter - |ticks|)])
    decreases |ticks|
  {
    hide Partition;
    var c := s.current.value;
    IsCurrent(s, Lists(s.tasks), c);
    if ticks == [] {
      assert s.tasks == s.tasks[c := s.tasks[c]];
    } else {
      TickKeeps(s, ticks[0]);
      QuantumLasts(Tick(s, ticks[0]), ticks[1..]);
    }
  }

  lemma {:induction false} OneMoreTick(s: State, ticks: seq<seq<Time>>, last: seq<Time>)
    requires forall i :: 0 <= i < |ticks| ==> |AfterTicks(s, ticks[..i]).sleep| <= |ticks[i]|
    requires |AfterTicks(s, ticks).sleep| <= |last|
    ensures AfterTicks(s, ticks + [last]) == Tick(AfterTicks(s, ticks), last)
    decreases |ticks|
  {
    if ticks == [] {
      assert ([] + [last])[1..] == [];
    } else {
      var r, rest := Tick(s, ticks[0]), ticks[1..];
      assert AfterTicks(s, ticks[..0]) == s;
      forall i | 0 <= i < |rest| ensures |AfterTicks(r, rest[..i]).sleep| <= |rest[i]| {
        assert ticks[..i + 1][1..] == rest[..i];
        assert AfterTicks(s, ticks[..i + 1]) == AfterTicks(r, rest[..i]);
      }
      OneMoreTick(r, rest, last);
      assert (ticks + [last])[1..] == rest + [last];
    }
  }

  /** A quantum from its start to its end: a task dispatched with k ticks left is current
      for k ticks, and the k-th takes it to its next level. */
  lemma WholeQuantum(s: State, ticks: seq<seq<Time>>)
    requires Steady(s) && |ticks| == Of(s, s.current.value).counter
    requires forall i :: 0 <= i < |ticks| ==> |ticks[i]| >= |s.sleep| && Times(s, ticks[i])
    ensures forall i :: 0 <= i < |ticks| ==> AfterTicks(s, ticks[..i]).current == s.current
    ensures var c, r := s.current.value, AfterTicks(s, ticks);
      var l := if Of(s, c).level == 0 then 0 else Of(s, c).level - 1;
      && c in r.tasks && l <= 1 && r.tasks[c].level == l && r.tasks[c].counter == (if l == 0 then 8 else 4)
      && (if r.current == Some(c) then r.ready[l] == [] && forall k :: l < k < 3 ==> r.ready[k] == []
          else r.tasks[c].state == Ready && AtTail(r.ready[l], c))
  {
    hide Partition;
    hide Tick;
    hide AfterTicks;
    var n, c := |ticks| - 1, s.current.value;
    IsCurrent(s, Lists(s.tasks), c);
    CounterRange(s, Lists(s.tasks), c);
    forall i | 0 <= i < |ticks|
      ensures AfterTicks(s, ticks[..i]) == s.(tasks := s.tasks[c := s.tasks[c].(counter := |ticks| - i)])
    {
      QuantumLasts(s, ticks[..i]);
    }
    var q := AfterTicks(s, ticks[..n]);
    CountKeeps(s, Lists(s.tasks), c, 1);
    SameLists(s.tasks, q.tasks);
    forall i | 0 <= i < n ensures |AfterTicks(s, ticks[..n][..i]).sleep| <= |ticks[..n][i]| {
      assert ticks[..n][..i] == ticks[..i];
    }
    OneMoreTick(s, ticks[..n], ticks[n]);
    assert ticks == ticks[..n] + [ticks[n]];
    QuantumEnds(q, ticks[n]);
  }

  // ------------------------------------------------------------ creation, sleep

  /** A created task takes the lowest ASID not in use, starts on level 1 with one tick and
      goes to the tail of its list; with all ASIDs in use nothing happens. */
  lemma CreateEffect(s: State, junk: Time, a: Tid)
    ensures (forall b: nat :: b < 256 ==> b in s.tasks) ==> Create(s, junk) == s
    ensures a < 256 && a !in s.tasks && (forall b: nat :: b < a ==> b in s.tasks) ==>
      var r := Create(s, junk);
      && r.tasks == s.tasks[a := Task(1, Ready, 1, junk, [])] && r.shed == s.shed + [a]
      && r.ready == [s.ready[0], s.ready[1] + [a], s.ready[2]]
      && r.sleep == s.sleep && r.current == s.current
  {
  }

  /** The caller of a sleep is on the sleep list, until the wake time, exactly when its own
      reading, the last one, is before it; otherwise it is woken up on the spot. */
  lemma SleepEffect(s: State, wake: Time, readings: seq<Time>)
    requires Steady(s) && Enabled(s, SleepEvent(wake, readings)) && Times(s, readings) && IsTime(wake)
    ensures var c, r := s.current.value, Sleep(s, wake, readings);
      && c in r.tasks && r.tasks[c].sleeptime == wake && r.tasks[c].counter == Of(s, c).counter
      && r.tasks[c].waiters == Of(s, c).waiters
      && (c in r.sleep <==> Value(readings[|s.sleep|]) < Value(wake))
      && (c in r.sleep ==> Asleep(r, c, wake) && r.tasks[c].level == Of(s, c).level && r.current != Some(c))
      && (c !in r.sleep ==> Roused(r, c))
  {
    hide Partition;
    hide Dispatch;
    hide DueFrom;
    var c, w := s.current.value, Lists(s.tasks);
    IsCurrent(s, w, c);
    Elsewhere(s, w, c);
    FallAsleepKeeps(s, w, c, wake);
    var q := FallAsleep(s, c, wake);
    SameLists(s.tasks, q.tasks);
    SleepersLive(q);
    assert q.sleep[|s.sleep|] == c;
    var l := DispatchEffect(q, readings);
    DueInList(q.tasks, q.sleep, 0, readings, c);
    var r := Dispatch(q, readings);
    Elsewhere(r, Lists(r.tasks), c);
  }

  /** From the call on: while no clock reading reaches its wake time and it is not killed,
      the caller of a sleep stays asleep. */
  lemma SleepsUntilWoken(s: State, wake: Time, readings: seq<Time>, es: seq<Event>)
    requires Steady(s) && Enabled(s, SleepEvent(wake, readings)) && Times(s, readings) && IsTime(wake)
    requires Legal(Sleep(s, wake, readings), es) && AllBefore(readings, wake)
    requires forall i :: 0 <= i < |es| ==>
      AllBefore(Readings(es[i]), wake) && !(es[i].KillEvent? && es[i].target == s.current.value)
    ensures Asleep(Run(Sleep(s, wake, readings), es), s.current.value, wake)
  {
    hide Partition;
    hide Sleep;
    hide Asleep;
    SleepEffect(s, wake, readings);
    StepKeeps(s, SleepEvent(wake, readings));
    NoEarlyWake(Sleep(s, wake, readings), es, s.current.value, wake);
  }

  // -------------------------------------------------------------------- waiting

  /** The caller of a wait goes to the tail of the wait list of the task it names, itself
      included; no other wait list changes, and another task runs. */
  lemma WaitEffect(s: State, u: Tid, readings: seq<Time>)
    requires Steady(s) && Enabled(s, WaitEvent(u, readings)) && Times(s, readings) && u in s.tasks
    ensures var c, r := s.current.value, Wait(s, u, readings);
      && r.tasks.Keys == s.tasks.Keys && c in r.tasks && r.tasks[c].state == Waiting && r.current != Some(c)
      && r.tasks[c].level == Of(s, c).level && r.tasks[c].counter == Of(s, c).counter
      && r.tasks[u].waiters == s.tasks[u].waiters + [c]
      && (forall x :: x in s.tasks && x != u ==> r.tasks[x].waiters == s.tasks[x].waiters)
  {
    hide Partition;
    hide Dispatch;
    hide Due;
    hide Started;
    hide JoinWaiters;
    var c, w := s.current.value, Lists(s.tasks);
    IsCurrent(s, w, c);
    JoinWaitersKeeps(s, w, c, u);
    JoinEffect(s, c, u);
    var q := JoinWaiters(s, c, u);
    DispatchOther(q, readings, c);
    var l := DispatchEffect(q, readings);
    var r := Dispatch(q, readings);
    StartedKeeps(q, Due(q, readings), l, r, c);
    forall x | x in s.tasks ensures x in r.tasks && r.tasks[x].waiters == q.tasks[x].waiters {
      StartedKeeps(q, Due(q, readings), l, r, x);
    }
  }

  lemma JoinEffect(s: State, c: Tid, u: Tid)
    requires c in s.tasks && u in s.tasks
    ensures var q := JoinWaiters(s, c, u);
      && q.tasks.Keys == s.tasks.Keys && q.current.None? && q.sleep == s.sleep && q.tasks[c].state == Waiting
      && q.tasks[u].waiters == s.tasks[u].waiters + [c]
      && (forall x :: x in s.tasks && x != u ==> q.tasks[x].waiters == s.tasks[x].waiters)
      && (forall x :: x in s.tasks ==> q.tasks[x].(state := Ready, waiters := []) == s.tasks[x].(state := Ready, waiters := []))
      && (forall x :: x in s.tasks && x != c ==> q.tasks[x].state == s.tasks[x].state)
  {
  }

  /** x is as it was, but for its wait list, or it was ready and runs now. */
  ghost predicate Untouched(s: State, r: State, x: Tid)
    requires x in s.tasks
  {
    && x in r.tasks && r.tasks[x].level == s.tasks[x].level && r.tasks[x].counter == s.tasks[x].counter
    && r.tasks[x].sleeptime == s.tasks[x].sleeptime
    && (r.tasks[x].state == s.tasks[x].state || (s.tasks[x].state == Ready && r.current == Some(x) && s.current != Some(x)))
  }

  lemma TickSpares(s: State, readings: seq<Time>, x: Tid)
    requires Steady(s) && |s.sleep| <= |readings| && Times(s, readings)
    requires x in s.tasks && s.tasks[x].state != Sleeping && s.current != Some(x)
    ensures Untouched(s, Tick(s, readings), x)
  {
    hide Partition;
    hide Dispatch;
    hide Due;
    var c, w := s.current.value, Lists(s.tasks);
    IsCurrent(s, w, c);
    CounterRange(s, w, c);
    var k := s.tasks[c].counter - 1;
    var s1 := s.(tasks := s.tasks[c := s.tasks[c].(counter := k)]);
    if k <= 0 {
      var q := Requeue(s1, c);
      RequeueKeeps(s, w, c, k);
      SameLists(s.tasks, q.tasks);
      RequeuedHasNext(s1, c, readings);
      DispatchOther(q, readings, x);
    }
  }

  lemma SleepSpares(s: State, wake: Time, readings: seq<Time>, x: Tid)
    requires Steady(s) && Enabled(s, SleepEvent(wake, readings)) && Times(s, readings) && IsTime(wake)
    requires x in s.tasks && s.tasks[x].state != Sleeping && s.current != Some(x)
    ensures Untouched(s, Sleep(s, wake, readings), x)
  {
    hide Partition;
    hide Dispatch;
    hide Due;
    var c, w := s.current.value, Lists(s.tasks);
    IsCurrent(s, w, c);
    FallAsleepKeeps(s, w, c, wake);
    SameLists(s.tasks, FallAsleep(s, c, wake).tasks);
    DispatchOther(FallAsleep(s, c, wake), readings, x);
  }

  lemma WaitSpares(s: State, u: Tid, readings: seq<Time>, x: Tid)
    requires Steady(s) && Enabled(s, WaitEvent(u, readings)) && Times(s, readings)
    requires x in s.tasks && s.tasks[x].state != Sleeping && s.current != Some(x)
    ensures Untouched(s, Wait(s, u, readings), x)
  {
    hide Partition;
    hide Dispatch;
    hide Due;
    hide JoinWaiters;
    var c, w := s.current.value, Lists(s.tasks);
    IsCurrent(s, w, c);
    if u in s.tasks {
      JoinWaitersKeeps(s, w, c, u);
      JoinEffect(s, c, u);
      DispatchOther(JoinWaiters(s, c, u), readings, x);
    }
  }

  /** A tick, a creation, a sleep and a wait leave every task alone that is neither the
      current one nor asleep, except that one that was ready may run now. */
  lemma StepSpares(s: State, e: Event, x: Tid)
    requires Steady(s) && Enabled(s, e) && Times(s, Readings(e)) && !e.KillEvent? && (e.SleepEvent? ==> IsTime(e.wake))
    requires x in s.tasks && s.tasks[x].state != Sleeping && s.current != Some(x)
    ensures Untouched(s, Step(s, e), x)
  {
    hide Partition;
    hide Tick;
    hide Sleep;
    hide Wait;
    hide LowestFree;
    match e
    case TickEvent(r) => TickSpares(s, r, x);
    case CreateEvent(junk) =>
    case SleepEvent(wake, r) => SleepSpares(s, wake, r, x);
    case WaitEvent(u, r) => WaitSpares(s, u, r, x);
    case KillEvent(_, _) =>
  }

  ghost predicate WaitsFor(s: State, c: Tid, u: Tid) {
    u in s.tasks && c in s.tasks[u].waiters
  }

  lemma DispatchWaiters(s: State, readings: seq<Time>)
    requires Inv(s) && s.current.None? && |s.sleep| <= |readings|
    ensures SameWaiters(s.tasks, Dispatch(s, readings).tasks)
  {
    hide Partition;
    hide FlushFrom;
    hide RunNext;
    SleepersLive(s);
    FlushKeeps(s, Lists(s.tasks), s.sleep, 0, readings);
    RunNextKeeps(Flush(s, readings), Lists(s.tasks));
  }

  lemma TickWaits(s: State, readings: seq<Time>, c: Tid, u: Tid)
    requires Steady(s) && |s.sleep| <= |readings| && WaitsFor(s, c, u)
    ensures WaitsFor(Tick(s, readings), c, u)
  {
    hide Partition;
    hide Dispatch;
    var d, w := s.current.value, Lists(s.tasks);
    IsCurrent(s, w, d);
    CounterRange(s, w, d);
    var k := s.tasks[d].counter - 1;
    var s1 := s.(tasks := s.tasks[d := s.tasks[d].(counter := k)]);
    if k <= 0 {
      RequeueKeeps(s, w, d, k);
      var q := Requeue(s1, d);
      SameLists(s.tasks, q.tasks);
      DispatchWaiters(q, readings);
    }
  }

  lemma SleepWaits(s: State, wake: Time, readings: seq<Time>, c: Tid, u: Tid)
    requires Steady(s) && |s.sleep| < |readings| && WaitsFor(s, c, u)
    ensures WaitsFor(Sleep(s, wake, readings), c, u)
  {
    hide Partition;
    hide Dispatch;
    var d, w := s.current.value, Lists(s.tasks);
    IsCurrent(s, w, d);
    FallAsleepKeeps(s, w, d, wake);
    SameLists(s.tasks, FallAsleep(s, d, wake).tasks);
    DispatchWaiters(FallAsleep(s, d, wake), readings);
  }

  lemma WaitWaits(s: State, v: Tid, readings: seq<Time>, c: Tid, u: Tid)
    requires Steady(s) && |s.sleep| <= |readings| && WaitsFor(s, c, u)
    ensures WaitsFor(Wait(s, v, readings), c, u)
  {
    hide Partition;
    hide Dispatch;
    var d, w := s.current.value, Lists(s.tasks);
    IsCurrent(s, w, d);
    if v in s.tasks {
      JoinWaitersKeeps(s, w, d, v);
      AppendMember(s.tasks[u].waiters, d, c);
      DispatchWaiters(JoinWaiters(s, d, v), readings);
    }
  }

  // -------------------------------------------------------------------- killing

  function Backwards(q: seq<Tid>): seq<Tid> {
    if q == [] then [] else Backwards(q[1..]) + [q[0]]
  }

  lemma {:induction false} BackwardsHas(q: seq<Tid>, x: Tid)
    ensures x in Backwards(q) <==> x in q
  {
    if q != [] {
      BackwardsHas(q[1..], x);
      assert q == [q[0]] + q[1..];
    }
  }

  /** The waiters of a task that is killed go to the head of list 2, the last one first,
      with their counters kept. */
  lemma {:induction false} ReleaseEffect(s: State, list: seq<Tid>, i: nat)
    requires i <= |list| && forall j :: 0 <= j < |list| ==> list[j] in s.tasks
    ensures var r, due := ReleaseFrom(s, list, i), Backwards(list[i..]);
      && r.ready == s.ready[2 := due + s.ready[2]] && r.tasks == Woken(s.tasks, due)
      && r.current == s.current && r.shed == s.shed && r.sleep == s.sleep
    decreases |list| - i
  {
    hide Woken;
    if i == |list| {
      NoneWoken(s.tasks);
      assert [] + s.ready[2] == s.ready[2];
    } else {
      var t, rest := list[i], Backwards(list[i + 1..]);
      assert list[i..][1..] == list[i + 1..];
      ReleaseEffect(Awake(s, t), list, i + 1);
      WokenStep(s.tasks, t, rest);
      assert rest + [t] + s.ready[2] == rest + ([t] + s.ready[2]);
    }
  }

  /** Taking a task out of a list that holds it once leaves the others in order. */
  lemma RemoveAt(a: seq<Tid>, t: Tid, b: seq<Tid>)
    requires t !in a
    ensures Remove(a + [t] + b, t) == a + b
  {
    var q := a + [t] + b;
    assert forall j :: 0 <= j < |a| ==> q[j] == a[j];
    PositionIs(q, t, |a|);
    assert q[..|a|] == a && q[|a| + 1..] == b;
  }

  /** What one killed task leaves behind: its waiters woken up, itself nowhere. */
  ghost predicate Freed(s: State, u: Tid, r: State)
    requires u in s.tasks
  {
    var ws := s.tasks[u].waiters;
    && r.tasks.Keys == s.tasks.Keys - {u}
    && (forall x :: x in r.tasks ==>
          r.tasks[x].(waiters := []) == (if x in ws then s.tasks[x].(level := 2, state := Ready, waiters := []) else s.tasks[x].(waiters := [])))
    && r.current == (if s.current == Some(u) then None else s.current)
    && r.ready[0] == Remove(s.ready[0], u) && r.ready[1] == Remove(s.ready[1], u)
    && r.ready[2] == Remove(Backwards(ws) + s.ready[2], u)
    && r.sleep == Remove(s.sleep, u)
  }

  lemma DeleteEffect(s: State, w: map<Tid, seq<Tid>>, u: Tid)
    requires Partition(s, w) && u in s.tasks
    ensures var r := Delete(s, u);
      && r.tasks.Keys == s.tasks.Keys - {u} && r.sleep == Remove(s.sleep, u)
      && (forall x :: x in r.tasks ==> r.tasks[x].(waiters := []) == s.tasks[x].(waiters := []))
      && (forall l :: 0 <= l < 3 ==> r.ready[l] == Remove(s.ready[l], u))
  {
    hide Partition;
    hide Remove;
    Elsewhere(s, w, u);
    RemoveFacts(s.ready[0], u);
    RemoveFacts(s.ready[1], u);
    RemoveFacts(s.ready[2], u);
    RemoveFacts(s.sleep, u);
  }

  lemma KillFrees(s: State, u: Tid)
    requires Inv(s) && u in s.tasks
    ensures Inv(KillTask(s, u)) && Freed(s, u, KillTask(s, u))
  {
    hide Partition;
    hide Remove;
    hide ReleaseFrom;
    hide Backwards;
    hide Delete;
    var w, q := Lists(s.tasks), s.tasks[u].waiters;
    KillKeeps(s, u);
    forall j | 0 <= j < |q| ensures q[j] in s.tasks { InWait(s, w, u, q[j]); }
    ReleaseEffect(s, q, 0);
    assert q[0..] == q;
    ReleaseKeeps(s, w, u, q, 0);
    DeleteEffect(ReleaseFrom(s, q, 0), w[u := []], u);
    forall x ensures x in Backwards(q) <==> x in q { BackwardsHas(q, x); }
  }

  /** A killed task is in no list, and no wait list but its own loses another task. */
  ghost predicate Nowhere(s: State, u: Tid, r: State) {
    && u !in r.tasks && u !in r.ready[0] && u !in r.ready[1] && u !in r.ready[2] && u !in r.sleep && u !in r.shed
    && r.current != Some(u)
    && forall x, y :: x in r.tasks ==> x in s.tasks && (y in r.tasks[x].waiters <==> y in s.tasks[x].waiters && y != u)
  }

  lemma KillNowhere(s: State, u: Tid)
    requires Inv(s) && u in s.tasks
    ensures Nowhere(s, u, KillTask(s, u))
  {
    hide Partition;
    hide Remove;
    hide ReleaseFrom;
    hide Delete;
    var w, q := Lists(s.tasks), s.tasks[u].waiters;
    KillKeeps(s, u);
    ReleaseKeeps(s, w, u, q, 0);
    DeletedLists(s.tasks, ReleaseFrom(s, q, 0), u);
    var r, p := KillTask(s, u), ReleaseFrom(s, q, 0);
    DeadNowhere(r, u);
    Elsewhere(p, w[u := []], u);
    forall x, y | x in r.tasks ensures x in s.tasks && (y in r.tasks[x].waiters <==> y in s.tasks[x].waiters && y != u) {
      assert x in Lists(r.tasks) && Lists(r.tasks)[x] == r.tasks[x].waiters;
      RemoveFacts(w[x], u);
    }
  }

  lemma DeadNowhere(s: State, u: Tid)
    requires Inv(s) && u !in s.tasks
    ensures u !in s.ready[0] && u !in s.ready[1] && u !in s.ready[2] && u !in s.sleep && u !in s.shed && s.current != Some(u)
  {
  }

  /** After a kill the target is gone and nowhere, whoever was running. */
  lemma KillEffect(s: State, u: Tid, readings: seq<Time>)
    requires Steady(s) && Enabled(s, KillEvent(u, readings)) && u in s.tasks
    ensures var r := Kill(s, u, readings);
      && Steady(r) && r.tasks.Keys == s.tasks.Keys - {u} && Nowhere(s, u, r)
  {
    hide Partition;
    hide KillTask;
    hide Dispatch;
    KillFrees(s, u);
    KillNowhere(s, u);
    StepKeeps(s, KillEvent(u, readings));
    if s.current == Some(u) {
      var q, r := KillTask(s, u), Kill(s, u, readings);
      DispatchWaiters(q, readings);
      DispatchKeeps(q, readings);
      DeadNowhere(r, u);
    }
  }

  /** x is ready on level 2, or is the task that runs now. */
  ghost predicate Roused(r: State, x: Tid) {
    && x in r.tasks && r.tasks[x].level == 2
    && ((r.tasks[x].state == Ready && x in r.ready[2]) || (r.tasks[x].state == Running && r.current == Some(x)))
  }

  /** Each of its waiters is ready on level 2 with its counter kept, or runs, when the
      target was the running task. */
  lemma KillReleases(s: State, u: Tid, readings: seq<Time>, x: Tid)
    requires Steady(s) && Enabled(s, KillEvent(u, readings)) && Times(s, readings)
    requires u in s.tasks && x in s.tasks[u].waiters && x != u
    ensures var r := Kill(s, u, readings);
      && Roused(r, x) && r.tasks[x].counter == Of(s, x).counter && (r.current == Some(x) ==> s.current == Some(u))
  {
    hide Partition;
    hide KillTask;
    hide Dispatch;
    hide Due;
    KillEffect(s, u, readings);
    KillFrees(s, u);
    var w := Lists(s.tasks);
    InWait(s, w, u, x);
    var q, r := KillTask(s, u), Kill(s, u, readings);
    assert x in q.tasks && q.tasks[x].(waiters := []) == s.tasks[x].(level := 2, state := Ready, waiters := []);
    if s.current == Some(u) { DispatchOther(q, readings, x); }
    Elsewhere(r, Lists(r.tasks), x);
  }

  /** Killing a task that is not running leaves the running one alone, and every task that
      did not wait for the target keeps its place, its level and its counter. */
  lemma KillSpares(s: State, u: Tid, readings: seq<Time>, x: Tid)
    requires Steady(s) && Enabled(s, KillEvent(u, readings)) && u in s.tasks && s.current != Some(u)
    requires x in s.tasks && x != u && x !in s.tasks[u].waiters
    ensures var r := Kill(s, u, readings);
      && r.current == s.current && x in r.tasks && r.tasks[x].(waiters := []) == s.tasks[x].(waiters := [])
      && Freed(s, u, r)
  {
    hide Partition;
    hide KillTask;
    KillFrees(s, u);
  }

  /** Killing the running task, if x neither waited for it nor sleeps. */
  lemma KillDispatches(s: State, u: Tid, readings: seq<Time>, x: Tid)
    requires Steady(s) && Enabled(s, KillEvent(u, readings)) && Times(s, readings) && s.current == Some(u)
    requires x in s.tasks && x != u && x !in Of(s, u).waiters && s.tasks[x].state != Sleeping
    ensures var r := Kill(s, u, readings);
      && x in r.tasks && r.tasks[x].level == s.tasks[x].level && r.tasks[x].counter == s.tasks[x].counter
      && (r.tasks[x].state == s.tasks[x].state || (s.tasks[x].state == Ready && r.current == Some(x)))
  {
    hide Partition;
    hide KillTask;
    hide Dispatch;
    hide Due;
    IsCurrent(s, Lists(s.tasks), u);
    KillFrees(s, u);
    var q := KillTask(s, u);
    assert x in q.tasks && q.tasks[x].(waiters := []) == s.tasks[x].(waiters := []);
    DispatchOther(q, readings, x);
  }

  // ------------------------------------------------------------ waiting, in runs

  /** A waiter stays on the wait list it entered through every step that kills neither it
      nor the task it waits for. */
  lemma StepWaits(s: State, e: Event, c: Tid, u: Tid)
    requires Steady(s) && Enabled(s, e) && WaitsFor(s, c, u) && !(e.KillEvent? && (e.target == c || e.target == u))
    ensures WaitsFor(Step(s, e), c, u)
  {
    hide Partition;
    hide Tick;
    hide Sleep;
    hide Wait;
    hide Kill;
    hide LowestFree;
    match e
    case TickEvent(r) => TickWaits(s, r, c, u);
    case CreateEvent(junk) =>
    case SleepEvent(wake, r) => SleepWaits(s, wake, r, c, u);
    case WaitEvent(v, r) => WaitWaits(s, v, r, c, u);
    case KillEvent(v, r) => if v in s.tasks { KillEffect(s, v, r); } else { KillNobody(s, v, r); }
  }

  lemma KillNobody(s: State, v: Tid, readings: seq<Time>)
    requires v !in s.tasks && |s.sleep| <= |readings|
    ensures Kill(s, v, readings) == s
  {
  }

  lemma {:induction false} RunWaits(s: State, es: seq<Event>, c: Tid, u: Tid)
    requires Steady(s) && Legal(s, es) && WaitsFor(s, c, u)
    requires forall i :: 0 <= i < |es| ==> !(es[i].KillEvent? && (es[i].target == c || es[i].target == u))
    ensures Steady(Run(s, es)) && WaitsFor(Run(s, es), c, u) && Of(Run(s, es), c).state == Waiting
    decreases |es|
  {
    hide Step;
    hide Partition;
    hide Enabled;
    if es == [] {
      assert c in Lists(s.tasks)[u];
      InWait(s, Lists(s.tasks), u, c);
    } else {
      StepWaits(s, es[0], c, u);
      StepKeeps(s, es[0]);
      RunWaits(Step(s, es[0]), es[1..], c, u);
    }
  }

  /** The call puts its caller on that list. */
  lemma CallerWaits(s: State, u: Tid, readings: seq<Time>)
    requires Steady(s) && Enabled(s, WaitEvent(u, readings)) && Times(s, readings) && u in s.tasks
    ensures Steady(Wait(s, u, readings)) && WaitsFor(Wait(s, u, readings), s.current.value, u)
  {
    hide Partition;
    hide Wait;
    StepKeeps(s, WaitEvent(u, readings));
    WaitEffect(s, u, readings);
    AppendFacts(s.tasks[u].waiters, s.current.value) by { CurrentWaitsNowhere(s, u); }
  }

  lemma CurrentWaitsNowhere(s: State, u: Tid)
    requires Steady(s) && u in s.tasks
    ensures Distinct(s.tasks[u].waiters) && s.current.value !in s.tasks[u].waiters
  {
    hide Partition;
    var c, w := s.current.value, Lists(s.tasks);
    IsCurrent(s, w, c);
    Elsewhere(s, w, c);
    assert w[u] == s.tasks[u].waiters;
  }

  /** So over every run that kills neither the two of them it stays there, and the kill that
      ends the run makes it ready on level 2 or runs it. */
  lemma WaitsUntilKilled(s: State, c: Tid, u: Tid, es: seq<Event>, last: seq<Time>)
    requires Steady(s) && WaitsFor(s, c, u) && c != u && Legal(s, es)
    requires forall i :: 0 <= i < |es| ==> !(es[i].KillEvent? && (es[i].target == c || es[i].target == u))
    requires Enabled(Run(s, es), KillEvent(u, last)) && Times(Run(s, es), last)
    ensures Of(Run(s, es), c).state == Waiting && Roused(Kill(Run(s, es), u, last), c)
  {
    hide Partition;
    hide Kill;
    hide Run;
    hide Legal;
    hide Roused;
    hide Times;
    RunWaits(s, es, c, u);
    KillReleases(Run(s, es), u, last, c);
  }
}
