/** The scheduler's lists and task structs, changed step by step as kernel/pc/shed.c
    and kernel/pc/pc.c do, and tied to the state machine. */
module Scheduler {
  import opened Options
  import opened Sched
  import opened SchedInvariant
  import opened SchedRuns
  import opened SchedEffects
  import Asid

  /** Processor cycles per millisecond. */
  const CPUSPEED: nat := 100000

  const TIMES: nat := 0x1_0000_0000_0000_0000

  /** x cycles that do not fit in 32 bits shift the wake time by a different amount. */
  lemma WrapCase(v: nat, x: nat, src: nat)
    requires v < TIMES && 0x1_0000_0000 < x < 0x1_0000_0000 * 100000 && src == x % 0x1_0000_0000
    ensures (v + src) % TIMES != (v + x) % TIMES
    ensures src == 0 ==> (v + 0x1_0000_0000) % TIMES != (v + x) % TIMES
  {
    WrapOnce(v + src, TIMES);
    WrapOnce(v + x, TIMES);
    WrapOnce(v + 0x1_0000_0000, TIMES);
  }

  lemma ZeroAddend(now: Time)
    requires IsTime(now)
    ensures Value(now) < TIMES
    ensures Value(TimeAdd(now, 0)) == (Value(now) + 0x1_0000_0000) % TIMES != Value(now) % TIMES
  {
    TimeAddIs(now, 0);
    ValueFits(now);
    hide TimeAdd;
    WrapOnce(Value(now) + 0x1_0000_0000, TIMES);
    WrapOnce(Value(now), TIMES);
  }

  lemma Cycles(ms: nat)
    requires Fits32(ms)
    ensures ms * CPUSPEED < 0x1_0000_0000 * 100000 && ms * CPUSPEED != 0x1_0000_0000
  {
  }

  /** The value of a wake time x cycles ahead, x taken modulo 2^32. */
  lemma WakeValue(now: Time, x: nat)
    requires IsTime(now) && x < 0x1_0000_0000 * 100000 && x != 0x1_0000_0000
    ensures Value(TimeAdd(now, x % 0x1_0000_0000)) == (Value(now) + x) % TIMES <==> 0 < x < 0x1_0000_0000
  {
    hide TimeAdd;
    hide Value;
    var src := x % 0x1_0000_0000;
    ZeroAddend(now);
    TimeAddExactIff(now, src);
    if x > 0x1_0000_0000 {
      WrapCase(Value(now), x, src);
    }
  }

  /** A sleeper's wake time is `ms` milliseconds of 100000 cycles ahead exactly when the
      length in cycles is positive and fits in 32 bits. */
  lemma WakeTimeExactIff(now: Time, ms: nat)
    requires IsTime(now) && Fits32(ms)
    ensures Value(TimeAdd(now, ms * CPUSPEED % 0x1_0000_0000)) == (Value(now) + 100000 * ms) % 0x1_0000_0000_0000_0000
      <==> 0 < 100000 * ms < 0x1_0000_0000
  {
    hide TimeAdd;
    hide Value;
    Cycles(ms);
    WakeValue(now, ms * CPUSPEED);
  }

  class Scheduler {
    var current: Option<Tid>
    var ready: Queues
    var sleepList: seq<Tid>
    var shedList: seq<Tid>
    var tasks: map<Tid, Task>
    const asidmap: array<nat>

    ghost function Abs(): State
      reads this
    {
      State(current, ready, sleepList, shedList, tasks)
    }

    /** The bitmap marks the ASIDs of the live tasks. */
    ghost predicate AsidsOk()
      reads `tasks, asidmap
    {
      && Asid.MapOk(asidmap[..])
      && forall a: nat :: a < 256 ==> (Asid.Used(asidmap[..], a) <==> a in tasks)
    }

    ghost predicate Valid()
      reads this, asidmap
    {
      Steady(Abs()) && AsidsOk()
    }

    /** init_pc: empty lists, a clear bitmap, and the init task running. */
    constructor (junk: Time)
      ensures Valid() && Abs() == Initial(junk) && fresh(asidmap)
    {
      current, ready, sleepList, shedList := Some(0), [[], [], []], [], [0];
      tasks := map[0 := Task(0, Running, 1, junk, [])];
      asidmap := new nat[8](_ => 0);
      new;
      InitialSteady(junk);
      ghost var m := asidmap[..];
      forall a: nat | a < 256 ensures !Asid.Used(m, a) { Asid.PartsAsid(a); Asid.ZeroBit(Asid.BitOf(a)); }
      forall a: nat | a < 256 ensures Asid.MapOk(Asid.WithSet(m, 0)) && (Asid.Used(Asid.WithSet(m, 0), a) <==> a == 0) {
        Asid.SetUsed(m, 0, a);
      }
      Asid.SetUsed(m, 0, 0);
      Asid.SetAsidMap(asidmap, 0);
    }

    /** level = PROC_LEVELS - 1, list_add to its ready list, state = READY. */
    method MakeReady(t: Tid)
      requires t in tasks
      modifies `tasks, `ready
      ensures Abs() == Awake(old(Abs()), t)
    {
      tasks := tasks[t := tasks[t].(level := PROC_LEVELS - 1)];
      ready := ready[2 := [t] + ready[2]];
      tasks := tasks[t := tasks[t].(state := Ready)];
    }

    /** flushsleeplist; readings[i] is what pc_time_get returns for the i-th sleeper. */
    method FlushSleepList(readings: seq<Time>)
      requires Partition(Abs(), Lists(tasks)) && |sleepList| <= |readings|
      modifies `tasks, `ready, `sleepList
      ensures Abs() == Flush(old(Abs()), readings)
    {
      hide Partition;
      hide Remove;
      ghost var s := Abs();
      FlushStays(s, readings);
      var list := sleepList;
      var i := 0;
      while i < |list|
        invariant i <= |list| <= |readings|
        invariant forall j :: 0 <= j < |list| ==> list[j] in tasks
        invariant FlushFrom(Abs(), list, i, readings) == Flush(s, readings)
      {
        var task := list[i];
        var now := readings[i];
        if TimeCmp(now, tasks[task].sleeptime) >= 0 {
          sleepList := Remove(sleepList, task);
          MakeReady(task);
        }
        i := i + 1;
      }
    }

    lemma FlushStays(s: State, readings: seq<Time>)
      requires Partition(s, Lists(s.tasks)) && |s.sleep| <= |readings|
      ensures forall j :: 0 <= j < |s.sleep| ==> s.sleep[j] in s.tasks
    {
      forall j | 0 <= j < |s.sleep| ensures s.sleep[j] in s.tasks {
        InSleep(s, Lists(s.tasks), s.sleep[j]);
      }
    }

    /** __getnexttask: the head of the highest non-empty ready list. */
    method GetNextTask(readings: seq<Time>) returns (next: Option<Tid>)
      requires Partition(Abs(), Lists(tasks)) && |sleepList| <= |readings|
      modifies `tasks, `ready, `sleepList
      ensures Abs() == Flush(old(Abs()), readings)
      ensures next == if TopLevel(Abs()).Some? then Some(ready[TopLevel(Abs()).value][0]) else None
    {
      hide Partition;
      hide FlushFrom;
      FlushSleepList(readings);
      next := None;
      var i := PROC_LEVELS - 1;
      while i >= 0
        invariant -1 <= i < 3 && next == None
        invariant forall j :: i < j < 3 ==> ready[j] == []
      {
        if ready[i] != [] {
          next := Some(ready[i][0]);
          break;
        }
        i := i - 1;
      }
    }

    /** __pc_schedule. */
    method Schedule(readings: seq<Time>)
      requires Inv(Abs().(current := None)) && HasNext(Abs().(current := None), readings)
      modifies `current, `tasks, `ready, `sleepList
      ensures Abs() == Dispatch(old(Abs()).(current := None), readings)
    {
      hide Partition;
      ghost var s := Abs().(current := None);
      DispatchKeeps(s, readings);
      NextIsLive(s, readings);
      current := None;
      var next := GetNextTask(readings);
      current := next;
      var task := next.value;
      ready := ready[tasks[task].level := Remove(ready[tasks[task].level], task)];
      tasks := tasks[task := tasks[task].(state := Running)];
    }

    /** The task chosen is live, ready, and the first of the list of its own level. */
    lemma NextIsLive(s: State, readings: seq<Time>)
      requires Inv(s) && HasNext(s, readings)
      ensures var f := Flush(s, readings); TopLevel(f).Some? && var l := TopLevel(f).value;
        && f.ready[l][0] in f.tasks && f.tasks[f.ready[l][0]].level == l
        && Remove(f.ready[l], f.ready[l][0]) == f.ready[l][1..]
    {
      hide Partition;
      hide FlushFrom;
      hide Remove;
      var w := Lists(s.tasks);
      SleepDistinct(s, w);
      assert forall j :: 0 <= j < |s.sleep| ==> s.sleep[j] in s.sleep;
      FlushKeeps(s, w, s.sleep, 0, readings);
      var f := Flush(s, readings);
      var l := TopLevel(f).value;
      InReady(f, w, l, f.ready[l][0]);
      RemoveHead(f.ready[l]);
    }

    lemma RemoveHead(q: seq<Tid>)
      requires q != []
      ensures Remove(q, q[0]) == q[1..]
    {
      assert PositionFrom(q, q[0], 0) == 0;
      assert q[..0] + q[1..] == q[1..];
    }

    /** The ASIDs in use stay the same when the live tasks do. */
    twostate lemma SameAsids()
      requires old(AsidsOk()) && asidmap[..] == old(asidmap[..]) && tasks.Keys == old(tasks.Keys)
      ensures AsidsOk()
    {
    }

    /** The quantum is used up: one level down, new time slots, the tail of the list. */
    method EndQuantum(c: Tid)
      requires c in tasks && tasks[c].level < 3
      modifies `tasks, `ready
      ensures Abs().(current := None) == Requeue(old(Abs()), c)
    {
      if tasks[c].level > 0 {
        tasks := tasks[c := tasks[c].(level := tasks[c].level - 1)];
      }
      tasks := tasks[c := tasks[c].(counter := TimeSlots(tasks[c].level))];
      tasks := tasks[c := tasks[c].(state := Ready)];
      ready := ready[tasks[c].level := ready[tasks[c].level] + [c]];
    }

    /** pc_schedule, the timer interrupt. */
    method PcSchedule(readings: seq<Time>)
      requires Valid() && |sleepList| <= |readings|
      modifies `current, `tasks, `ready, `sleepList
      ensures Valid() && Abs() == Tick(old(Abs()), readings)
    {
      hide Partition;
      hide Inv;
      hide Dispatch;
      hide Requeue;
      hide AsidsOk;
      hide HasNext;
      hide TimeSlots;
      TickKeeps(Abs(), readings);
      LiveCurrent(Abs(), readings);
      var c := current.value;
      tasks := tasks[c := tasks[c].(counter := tasks[c].counter - 1)];
      if tasks[c].counter <= 0 {
        EndQuantum(c);
        DispatchTasks(Abs().(current := None), readings);
        Schedule(readings);
      }
      SameAsids();
    }

    /** The current task is live, and its quantum's end leaves the queues in order. */
    lemma LiveCurrent(s: State, readings: seq<Time>)
      requires Steady(s) && |s.sleep| <= |readings|
      ensures var c := s.current.value;
        && c in s.tasks && s.tasks[c].level < 3 && s.tasks[c].state == Running
        && var q := Requeue(s.(tasks := s.tasks[c := s.tasks[c].(counter := s.tasks[c].counter - 1)]), c);
           Inv(q) && HasNext(q, readings) && q.current.None? && q.tasks.Keys == s.tasks.Keys && |q.sleep| <= |readings|
    {
      hide Partition;
      hide Flush;
      var c, w := s.current.value, Lists(s.tasks);
      IsCurrent(s, w, c);
      CounterRange(s, w, c);
      var k := s.tasks[c].counter - 1;
      var s1 := s.(tasks := s.tasks[c := s.tasks[c].(counter := k)]);
      RequeueKeeps(s, w, c, k);
      SameLists(s.tasks, Requeue(s1, c).tasks);
      RequeuedHasNext(s1, c, readings);
    }

    /** pc_find: the search of the list of all tasks. */
    method PcFind(asid: Tid) returns (r: Option<Tid>)
      requires ShedOk(Abs())
      ensures r == if asid in tasks then Some(asid) else None
    {
      var i := 0;
      while i < |shedList|
        invariant i <= |shedList| && forall j :: 0 <= j < i ==> shedList[j] != asid
      {
        if shedList[i] == asid {
          return Some(shedList[i]);
        }
        i := i + 1;
      }
      return None;
    }

    lemma Shed()
      requires Valid()
      ensures ShedOk(Abs())
    {
    }

    /** syscall_sleep for `ms` milliseconds, asked at time `now`. */
    method SyscallSleep(ms: nat, now: Time, readings: seq<Time>)
      requires Valid() && |sleepList| < |readings|
      requires HasNext(FallAsleep(Abs(), current.value, TimeAdd(now, ms * CPUSPEED % 0x1_0000_0000)), readings)
      modifies `current, `tasks, `ready, `sleepList
      ensures Valid() && Abs() == Sleep(old(Abs()), TimeAdd(now, ms * CPUSPEED % 0x1_0000_0000), readings)
    {
      hide Partition;
      hide Dispatch;
      hide AsidsOk;
      hide HasNext;
      hide TimeAdd;
      ghost var s := Abs();
      var wake := TimeAdd(now, ms * CPUSPEED % 0x1_0000_0000);
      StepKeeps(s, SleepEvent(wake, readings));
      var c := current.value;
      IsCurrent(s, Lists(tasks), c);
      FallAsleepKeeps(s, Lists(tasks), c, wake);
      SameLists(tasks, FallAsleep(s, c, wake).tasks);
      DispatchTasks(FallAsleep(s, c, wake), readings);
      tasks := tasks[c := tasks[c].(sleeptime := wake)];
      sleepList := sleepList + [c];
      tasks := tasks[c := tasks[c].(state := Sleeping)];
      assert Abs().(current := None) == FallAsleep(s, c, wake);
      Schedule(readings);
      SameAsids();
    }

    /** syscall_wait. */
    method SyscallWait(asid: Tid, readings: seq<Time>)
      requires Valid() && |sleepList| <= |readings|
      requires asid in tasks ==> HasNext(JoinWaiters(Abs(), current.value, asid), readings)
      modifies `current, `tasks, `ready, `sleepList
      ensures Valid() && Abs() == Wait(old(Abs()), asid, readings)
    {
      hide Partition;
      hide Dispatch;
      hide AsidsOk;
      hide HasNext;
      ghost var s := Abs();
      StepKeeps(s, WaitEvent(asid, readings));
      Shed();
      var task := PcFind(asid);
      if task.Some? {
        var c := current.value;
        IsCurrent(s, Lists(tasks), c);
        JoinWaitersKeeps(s, Lists(tasks), c, asid);
        DispatchTasks(JoinWaiters(s, c, asid), readings);
        tasks := tasks[asid := tasks[asid].(waiters := tasks[asid].waiters + [c])];
        tasks := tasks[c := tasks[c].(state := Waiting)];
        assert Abs().(current := None) == JoinWaiters(s, c, asid);
        Schedule(readings);
      }
      SameAsids();
    }

    /** getemptyasid, on a bitmap that marks the live tasks. */
    method GrabAsid() returns (asid: nat)
      requires AsidsOk() && exists a: nat :: a < 256 && a !in tasks
      modifies asidmap
      ensures asid < 256 && LowestFree(tasks, 0) == Some(asid) && asid !in tasks
      ensures Asid.MapOk(asidmap[..])
      ensures forall a: nat :: a < 256 ==> (Asid.Used(asidmap[..], a) <==> a == asid || a in tasks)
    {
      hide Asid.Used;
      hide Asid.WithSet;
      ghost var m := asidmap[..];
      ghost var free: nat :| free < 256 && free !in tasks;
      assert !Asid.Used(m, free);
      var r := Asid.GetEmptyAsid(asidmap);
      assert r != -1;
      asid := r;
      LowestIs(tasks, 0, asid);
      forall a: nat | a < 256
        ensures Asid.MapOk(Asid.WithSet(m, asid)) && (Asid.Used(Asid.WithSet(m, asid), a) <==> a == asid || a in tasks)
      {
        Asid.SetUsed(m, asid, a);
      }
      Asid.SetUsed(m, asid, 0);
    }

    /** pc_create: create_kthread at level PROC_LEVELS / 2, ready at the tail of its
        list.  `junk` is what the fresh struct holds in sleeptime. */
    method PcCreate(junk: Time) returns (asid: nat)
      requires Valid() && exists a: nat :: a < 256 && a !in tasks
      modifies this, asidmap
      ensures Valid() && Abs() == Create(old(Abs()), junk)
      ensures asid < 256 && LowestFree(old(tasks), 0) == Some(asid) && current == old(current)
    {
      hide Partition;
      hide Asid.Used;
      hide Asid.MapOk;
      hide LowestFree;
      CreateKeeps(Abs(), junk);
      asid := GrabAsid();
      tasks := tasks[asid := Task(PROC_LEVELS / 2, Creating, 1, junk, [])];
      shedList := shedList + [asid];
      ready := ready[1 := ready[1] + [asid]];
      tasks := tasks[asid := tasks[asid].(state := Ready)];
      assert tasks == old(tasks)[asid := Task(1, Ready, 1, junk, [])];
    }

    lemma LowestIs(t: map<Tid, Task>, a: nat, r: nat)
      requires a <= r < 256 && r !in t && forall b :: a <= b < r ==> b in t
      ensures LowestFree(t, a) == Some(r)
    {
    }

    /** pc_releasewaiting. */
    method ReleaseWaiting(task: Tid)
      requires Partition(Abs(), Lists(tasks)) && task in tasks
      modifies `tasks, `ready
      ensures Abs() == ReleaseFrom(old(Abs()), old(tasks[task].waiters), 0)
    {
      hide Partition;
      ghost var s := Abs();
      var list := tasks[task].waiters;
      forall j | 0 <= j < |list| ensures list[j] in tasks { InWait(s, Lists(tasks), task, list[j]); }
      var i := 0;
      while i < |list|
        invariant i <= |list| && forall j :: 0 <= j < |list| ==> list[j] in tasks
        invariant ReleaseFrom(Abs(), list, i) == ReleaseFrom(s, list, 0)
      {
        MakeReady(list[i]);
        i := i + 1;
      }
    }

    /** pc_deletelist and pc_deletetask. */
    method DeleteTask(task: Tid)
      requires task in tasks && tasks[task].level < 3 && task < 256 && AsidsOk()
      modifies this, asidmap
      ensures Abs().(current := None) == Delete(old(Abs()), task).(current := None) && AsidsOk()
      ensures current == old(current)
    {
      hide Remove;
      ghost var s, m := Abs(), asidmap[..];
      shedList := Remove(shedList, task);
      match tasks[task].state {
        case Running =>
        case Ready => ready := ready[tasks[task].level := Remove(ready[tasks[task].level], task)];
        case Waiting => tasks := Unwaited(tasks, task);
        case Sleeping => sleepList := Remove(sleepList, task);
        case Creating =>
      }
      FreeAsid(task);
      tasks := tasks - {task};
    }

    method FreeAsid(task: Tid)
      requires task < 256 && Asid.MapOk(asidmap[..])
      modifies asidmap
      ensures Asid.MapOk(asidmap[..])
      ensures forall a: nat :: a < 256 ==> (Asid.Used(asidmap[..], a) <==> a != task && Asid.Used(old(asidmap[..]), a))
    {
      ghost var m := asidmap[..];
      hide Asid.Used;
      forall a: nat | a < 256
        ensures Asid.MapOk(Asid.WithClear(m, task)) && (Asid.Used(Asid.WithClear(m, task), a) <==> a != task && Asid.Used(m, a))
      {
        Asid.ClearUsed(m, task, a);
      }
      Asid.ClearUsed(m, task, 0);
      Asid.ClearAsid(asidmap, task);
    }

    /** __kill, without the children. */
    method KillTree(task: Tid)
      requires Valid() && task in tasks
      modifies this, asidmap
      ensures Abs().(current := None) == KillTask(old(Abs()), task).(current := None) && AsidsOk()
      ensures current == old(current)
    {
      hide Partition;
      hide AsidsOk;
      hide ReleaseFrom;
      hide Delete;
      ghost var s := Abs();
      CounterRange(s, Lists(tasks), task);
      SmallAsid(s, task);
      ReleaseKeeps(s, Lists(tasks), task, tasks[task].waiters, 0);
      ghost var q := tasks[task].waiters;
      ReleaseWaiting(task);
      ReleasedLevel(s, task);
      SameAsids();
      DeleteTask(task);
    }

    lemma SmallAsid(s: State, t: Tid)
      requires Inv(s) && t in s.tasks
      ensures t < 256
    {
      assert TaskOk(s, Lists(s.tasks), t);
    }

    lemma ReleasedLevel(s: State, t: Tid)
      requires Inv(s) && t in s.tasks
      ensures var r := ReleaseFrom(s, s.tasks[t].waiters, 0);
        t in r.tasks && r.tasks[t].level < 3 && r.tasks.Keys == s.tasks.Keys && r.current == s.current
    {
      hide Partition;
      var w := Lists(s.tasks);
      ReleaseKeeps(s, w, t, s.tasks[t].waiters, 0);
      var r := ReleaseFrom(s, s.tasks[t].waiters, 0);
      CounterRange(r, w[t := []], t);
    }

    /** pc_kill_syscall: afterwards the task is gone, from every list, and its ASID is free. */
    method PcKill(asid: Tid, readings: seq<Time>)
      requires Valid() && |sleepList| <= |readings|
      requires asid in tasks && current == Some(asid) ==> HasNext(KillTask(Abs(), asid), readings)
      modifies this, asidmap
      ensures Valid() && Abs() == Kill(old(Abs()), asid, readings)
      ensures tasks.Keys == old(tasks.Keys) - {asid} && asid !in tasks
      ensures asid < 256 ==> !Asid.Used(asidmap[..], asid)
      ensures old(asid in tasks) ==> Nowhere(old(Abs()), asid, Abs())
    {
      hide Partition;
      hide Dispatch;
      hide AsidsOk;
      hide HasNext;
      hide KillTask;
      hide Nowhere;
      ghost var s := Abs();
      StepKeeps(s, KillEvent(asid, readings));
      if asid in tasks { KillEffect(s, asid, readings); }
      Shed();
      var task := PcFind(asid);
      if task.Some? {
        KillKeeps(s, asid);
        KillTree(asid);
        if task == current {
          DispatchTasks(KillTask(s, asid), readings);
          label Killed:
          Schedule(readings);
          SameAsids@Killed();
        }
      }
      AsidFree(asid);
    }

    lemma AsidFree(asid: Tid)
      requires AsidsOk() && asid !in tasks
      ensures asid < 256 ==> !Asid.Used(asidmap[..], asid)
    {
    }
  }
}
