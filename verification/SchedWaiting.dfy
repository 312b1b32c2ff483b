/** Bounded waiting: while only the timer ticks and no sleeper wakes up, every ready
    task gets the processor within a bounded number of ticks. */
module SchedWaiting {
  import opened Options
  import opened Sched
  import opened SchedInvariant
  import opened SchedRuns

  /** The levels of the current and the ready tasks, added up. */
  function LevelSum(s: State): nat {
    |s.ready[1]| + 2 * |s.ready[2]| + if s.current.Some? then Of(s, s.current.value).level else 0
  }

  /** How many ready tasks are dispatched before t if nothing is requeued. */
  function Ahead(s: State, t: Tid): nat {
    var k := Of(s, t).level;
    if k == 2 then PositionFrom(s.ready[2], t, 0)
    else if k == 1 then |s.ready[2]| + PositionFrom(s.ready[1], t, 0)
    else |s.ready[2]| + |s.ready[1]| + PositionFrom(s.ready[0], t, 0)
  }

  /** What is left of the current quantum. */
  function Left(s: State): int {
    if s.current.Some? then Of(s, s.current.value).counter else 0
  }

  /** A bound on the ticks until t runs. */
  function Budget(s: State, t: Tid): int {
    8 * (LevelSum(s) + Ahead(s, t)) + Left(s)
  }

  /** No sleeper is due at these readings. */
  ghost predicate NoneDue(s: State, readings: seq<Time>) {
    |s.sleep| <= |readings| &&
    forall k :: 0 <= k < |s.sleep| ==> TimeCmp(readings[k], Of(s, s.sleep[k]).sleeptime) < 0
  }

  lemma {:induction false} FlushNothing(s: State, i: nat, readings: seq<Time>)
    requires NoneDue(s, readings) && i <= |s.sleep|
    ensures FlushFrom(s, s.sleep, i, readings) == s
    decreases |s.sleep| - i
  {
    if i < |s.sleep| { FlushNothing(s, i + 1, readings); }
  }

  lemma PositionIs(q: seq<Tid>, t: Tid, k: nat)
    requires k < |q| && q[k] == t && forall j :: 0 <= j < k ==> q[j] != t
    ensures PositionFrom(q, t, 0) == k
  {
  }

  /** A task appended behind t does not delay it; a head removed before t helps it. */
  lemma PositionMoves(q: seq<Tid>, t: Tid, c: Tid)
    requires t in q
    ensures PositionFrom(q, t, 0) < |q|
    ensures PositionFrom(q + [c], t, 0) == PositionFrom(q, t, 0)
    ensures q[0] != t ==> PositionFrom(q, t, 0) > 0 && t in q[1..] && PositionFrom(q[1..], t, 0) == PositionFrom(q, t, 0) - 1
  {
    var k := PositionFrom(q, t, 0);
    var i :| 0 <= i < |q| && q[i] == t;
    PositionIs(q + [c], t, k);
    if q[0] != t {
      assert q[1..][k - 1] == t;
      PositionIs(q[1..], t, k - 1);
    }
  }

  /** Requeueing the current task costs a level or one place behind t. */
  lemma RequeueBudget(s: State, t: Tid, c: Tid, k: int)
    requires Inv(s) && s.current == Some(c) && t in s.tasks && s.tasks[t].state == Ready && c in s.tasks
    ensures var q := Requeue(s.(tasks := s.tasks[c := s.tasks[c].(counter := k)]), c);
      && t in q.tasks && q.tasks[t] == s.tasks[t] && q.current.None? && q.sleep == s.sleep
      && LevelSum(q) == LevelSum(s) - (if s.tasks[c].level > 0 then 1 else 0)
      && Ahead(q, t) <= Ahead(s, t) + (if s.tasks[c].level > 0 then 1 else 0)
  {
    hide Partition;
    hide PositionFrom;
    Elsewhere(s, Lists(s.tasks), t);
    IsCurrent(s, Lists(s.tasks), c);
    CounterRange(s, Lists(s.tasks), c);
    PositionMoves(s.ready[s.tasks[t].level], t, c);
  }

  /** Dispatching either picks t or removes one task ahead of it. */
  lemma RunNextBudget(s: State, t: Tid)
    requires Inv(s) && s.current.None? && t in s.tasks && s.tasks[t].state == Ready
    ensures var r := RunNext(s);
      && r.current.Some? && r.sleep == s.sleep && LevelSum(r) == LevelSum(s)
      && (r.current != Some(t) ==> t in r.tasks && r.tasks[t] == s.tasks[t] && Ahead(r, t) == Ahead(s, t) - 1)
  {
    hide Partition;
    hide PositionFrom;
    var w := Lists(s.tasks);
    Elsewhere(s, w, t);
    var k, l := s.tasks[t].level, TopLevel(s).value;
    InReady(s, w, l, s.ready[l][0]);
    PositionMoves(s.ready[k], t, t);
  }

  /** The sleepers and their wake times are the same. */
  ghost predicate SameSleepers(s: State, r: State) {
    r.sleep == s.sleep && forall x :: x in s.sleep ==> Of(r, x).sleeptime == Of(s, x).sleeptime
  }

  lemma StillNoneDue(s: State, r: State, readings: seq<Time>)
    requires SameSleepers(s, r) && NoneDue(s, readings)
    ensures NoneDue(r, readings)
  {
  }

  /** One tick: t runs, or its budget shrinks. */
  lemma TickProgress(s: State, t: Tid, readings: seq<Time>)
    requires Steady(s) && t in s.tasks && s.tasks[t].state == Ready && NoneDue(s, readings)
    ensures var r := Tick(s, readings);
      && Steady(r) && SameSleepers(s, r)
      && (r.current == Some(t) || (t in r.tasks && r.tasks[t].state == Ready && Budget(r, t) < Budget(s, t)))
  {
    hide Partition;
    hide FlushFrom;
    hide RunNext;
    hide Ahead;
    TickKeeps(s, readings);
    var c, w := s.current.value, Lists(s.tasks);
    IsCurrent(s, w, c);
    CounterRange(s, w, c);
    var k := s.tasks[c].counter - 1;
    var s1 := s.(tasks := s.tasks[c := s.tasks[c].(counter := k)]);
    SleepersStay(s, w, c, k);
    if k > 0 {
      SameAhead(s, s1, t);
    } else {
      var q := Requeue(s1, c);
      RequeueBudget(s, t, c, k);
      RequeueKeeps(s, w, c, k);
      SameLists(s.tasks, q.tasks);
      StillNoneDue(s, q, readings);
      FlushNothing(q, 0, readings);
      RunNextBudget(q, t);
      RunNextSleepers(q);
      var r := RunNext(q);
      CounterRange(r, Lists(r.tasks), r.current.value) by { IsCurrent(r, Lists(r.tasks), r.current.value); }
    }
  }

  lemma SameAhead(s: State, r: State, t: Tid)
    requires s.ready == r.ready && Of(s, t).level == Of(r, t).level
    ensures Ahead(s, t) == Ahead(r, t)
  {
  }

  lemma SleepersStay(s: State, w: map<Tid, seq<Tid>>, c: Tid, k: int)
    requires Partition(s, w) && s.current == Some(c) && c in s.tasks
    ensures var q := Requeue(s.(tasks := s.tasks[c := s.tasks[c].(counter := k)]), c);
      && SameSleepers(s, q)
      && SameSleepers(s, s.(tasks := s.tasks[c := s.tasks[c].(counter := k)]))
  {
    forall x | x in s.sleep ensures x != c { InSleep(s, w, x); IsCurrent(s, w, c); }
  }

  lemma RunNextSleepers(s: State)
    requires Inv(s) && s.current.None?
    ensures SameSleepers(s, RunNext(s))
  {
    hide Partition;
    if TopLevel(s).Some? {
      var l := TopLevel(s).value;
      InReady(s, Lists(s.tasks), l, s.ready[l][0]);
    }
  }

  /** The state after a run of ticks, as long as every sleeper gets its reading. */
  function AfterTicks(s: State, ticks: seq<seq<Time>>): State
    decreases |ticks|
  {
    if ticks == [] || |ticks[0]| < |s.sleep| then s else AfterTicks(Tick(s, ticks[0]), ticks[1..])
  }

  /** Over timer ticks alone, with no sleeper falling due and no system call in between,
      a ready task runs after at most Budget of them. */
  lemma {:induction false} BoundedWaiting(s: State, t: Tid, ticks: seq<seq<Time>>) returns (n: nat)
    requires Steady(s) && t in s.tasks && s.tasks[t].state == Ready
    requires forall i :: 0 <= i < |ticks| ==> NoneDue(s, ticks[i])
    requires |ticks| >= Budget(s, t)
    ensures 1 <= n <= Budget(s, t) && n <= |ticks| && AfterTicks(s, ticks[..n]).current == Some(t)
    decreases |ticks|
  {
    hide Partition;
    hide Tick;
    hide Budget;
    BudgetRange(s, t);
    var r := Tick(s, ticks[0]);
    TickProgress(s, t, ticks[0]);
    if r.current == Some(t) {
      n := 1;
      assert ticks[..1][1..] == [];
    } else {
      var rest := ticks[1..];
      forall i | 0 <= i < |rest| ensures NoneDue(r, rest[i]) { StillNoneDue(s, r, rest[i]); }
      var m := BoundedWaiting(r, t, rest);
      n := m + 1;
      assert ticks[..n][0] == ticks[0] && ticks[..n][1..] == rest[..m];
    }
  }

  /** The budget is linear in the levels and in the place in line, and positive. */
  lemma BudgetRange(s: State, t: Tid)
    requires Steady(s)
    ensures 1 <= Budget(s, t) <= 8 * (LevelSum(s) + Ahead(s, t) + 1)
  {
    hide Partition;
    IsCurrent(s, Lists(s.tasks), s.current.value);
    CounterRange(s, Lists(s.tasks), s.current.value);
  }
}
