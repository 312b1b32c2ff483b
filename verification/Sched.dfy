/** The multilevel-feedback scheduler of kernel/pc/shed.c and kernel/pc/pc.c as a
    state machine: ready queues, sleep list and wait lists. */
module Sched {
  import opened Options

  /** A task is named by its ASID. */
  type Tid = nat

  const PROC_LEVELS: nat := 3
  const MAX_ASID: nat := 256

  // -------------------------------------------------------------------- time

  /** time_u64: two 32-bit halves. */
  datatype Time = Time(lo: nat, hi: nat)

  predicate Fits32(n: nat) {
    n < 0x1_0000_0000
  }

  predicate IsTime(t: Time) {
    Fits32(t.lo) && Fits32(t.hi)
  }

  function Value(t: Time): nat {
    t.hi * 0x1_0000_0000 + t.lo
  }

  /** pc_time_cmp. */
  function TimeCmp(large: Time, small: Time): int {
    if large.hi > small.hi then 1
    else if large.hi == small.hi then (if large.lo > small.lo then 1 else if large.lo == small.lo then 0 else -1)
    else -1
  }

  lemma TimeCmpIsOrder(a: Time, b: Time)
    requires IsTime(a) && IsTime(b)
    ensures TimeCmp(a, b) == if Value(a) > Value(b) then 1 else if Value(a) == Value(b) then 0 else -1
  {
  }

  /** pc_time_add: the carry test compares the wrapped sum with the old low half. */
  function TimeAdd(dst: Time, src: nat): Time {
    var sum := (src + dst.lo) % 0x1_0000_0000;
    Time(sum, if sum <= dst.lo then (dst.hi + 1) % 0x1_0000_0000 else dst.hi)
  }

  /** The 64-bit sum is right exactly when the addend is not 0; a zero addend carries. */
  lemma TimeAddExactIff(dst: Time, src: nat)
    requires IsTime(dst) && Fits32(src)
    ensures IsTime(TimeAdd(dst, src))
    ensures Value(TimeAdd(dst, src)) == (Value(dst) + src) % 0x1_0000_0000_0000_0000 <==> src != 0
  {
    TimeAddIs(dst, src);
    ValueFits(dst);
    var v, next := Value(dst) + src, if dst.hi + 1 == 0x1_0000_0000 then 0 else dst.hi + 1;
    WrapOnce(v, 0x1_0000_0000_0000_0000);
    if src == 0 {
      assert Value(TimeAdd(dst, src)) == next * 0x1_0000_0000 + dst.lo;
    } else if src + dst.lo < 0x1_0000_0000 {
      assert Value(TimeAdd(dst, src)) == v;
    } else {
      assert Value(TimeAdd(dst, src)) == next * 0x1_0000_0000 + (src + dst.lo - 0x1_0000_0000);
    }
  }

  /** The wrapped sum carries when it wraps, and for a zero addend. */
  lemma TimeAddIs(dst: Time, src: nat)
    requires IsTime(dst) && Fits32(src)
    ensures IsTime(TimeAdd(dst, src))
    ensures var next := if dst.hi + 1 == 0x1_0000_0000 then 0 else dst.hi + 1;
      TimeAdd(dst, src) ==
        if src == 0 then Time(dst.lo, next)
        else if src + dst.lo < 0x1_0000_0000 then Time(src + dst.lo, dst.hi)
        else Time(src + dst.lo - 0x1_0000_0000, next)
  {
    WrapOnce(src + dst.lo, 0x1_0000_0000);
    WrapOnce(dst.hi + 1, 0x1_0000_0000);
  }

  lemma WrapOnce(x: nat, m: nat)
    requires 0 < m && x < 2 * m
    ensures x % m == if x < m then x else x - m
  {
    if x >= m { assert x == m + (x - m) && x / m == 1; }
  }

  lemma ValueFits(t: Time)
    requires IsTime(t)
    ensures Value(t) <= 0xFFFF_FFFF_FFFF_FFFF
  {
  }

  // ------------------------------------------------------------------- state

  datatype TaskState = Ready | Running | Waiting | Creating | Sleeping

  datatype Task = Task(level: nat, state: TaskState, counter: int, sleeptime: Time, waiters: seq<Tid>)

  type Queues = q: seq<seq<Tid>> | |q| == 3 witness [[], [], []]

  /** current, ready_list, sleep_list, shed_list and the task structs. */
  datatype State = State(current: Option<Tid>, ready: Queues, sleep: seq<Tid>, shed: seq<Tid>, tasks: map<Tid, Task>)

  const NO_TASK := Task(0, Creating, 0, Time(0, 0), [])

  function Of(s: State, t: Tid): Task {
    if t in s.tasks then s.tasks[t] else NO_TASK
  }

  /** __pc_gettimeslots. */
  function TimeSlots(level: nat): nat {
    if level >= 3 then 1 else if level == 2 then 2 else if level == 1 then 4 else 8
  }

  /** Where t is in q, or |q|. */
  function PositionFrom(q: seq<Tid>, t: Tid, i: nat): (k: nat)
    requires i <= |q|
    ensures i <= k <= |q| && (k < |q| ==> q[k] == t)
    ensures forall j :: i <= j < k ==> q[j] != t
    decreases |q| - i
  {
    if i == |q| || q[i] == t then i else PositionFrom(q, t, i + 1)
  }

  /** list_del_init of a task's node. */
  function Remove(q: seq<Tid>, t: Tid): (r: seq<Tid>)
    ensures |r| <= |q|
  {
    var k := PositionFrom(q, t, 0);
    if k == |q| then q else q[..k] + q[k + 1..]
  }

  // ------------------------------------------------------------------- steps

  /** A sleeper or waiter becomes ready: top level, at the head of its queue. */
  function Awake(s: State, t: Tid): State {
    s.(tasks := s.tasks[t := Of(s, t).(level := 2, state := Ready)], ready := s.ready[2 := [t] + s.ready[2]])
  }

  /** One turn of the loop of flushsleeplist. */
  function FlushOne(s: State, t: Tid, now: Time): State {
    if TimeCmp(now, Of(s, t).sleeptime) >= 0 then Awake(s.(sleep := Remove(s.sleep, t)), t) else s
  }

  /** flushsleeplist from the i-th sleeper on; readings[i] is the clock it sees. */
  function FlushFrom(s: State, list: seq<Tid>, i: nat, readings: seq<Time>): State
    requires i <= |list| <= |readings|
    decreases |list| - i
  {
    if i == |list| then s else FlushFrom(FlushOne(s, list[i], readings[i]), list, i + 1, readings)
  }

  function Flush(s: State, readings: seq<Time>): State
    requires |s.sleep| <= |readings|
  {
    FlushFrom(s, s.sleep, 0, readings)
  }

  /** The highest level with a ready task, or None. */
  function TopLevel(s: State): (r: Option<nat>)
    ensures r.Some? ==> r.value < 3 && s.ready[r.value] != []
  {
    if s.ready[2] != [] then Some(2) else if s.ready[1] != [] then Some(1) else if s.ready[0] != [] then Some(0) else None
  }

  /** __pc_schedule after the flush: the head of the highest non-empty queue runs. */
  function RunNext(s: State): State {
    match TopLevel(s)
    case None => s
    case Some(l) =>
      var t := s.ready[l][0];
      s.(current := Some(t), ready := s.ready[l := s.ready[l][1..]], tasks := s.tasks[t := Of(s, t).(state := Running)])
  }

  function Dispatch(s: State, readings: seq<Time>): State
    requires |s.sleep| <= |readings|
  {
    RunNext(Flush(s, readings))
  }

  /** The end of a quantum: one level down, a fresh quantum, the tail of the queue. */
  function Requeue(s: State, c: Tid): State {
    var l := if Of(s, c).level > 0 then Of(s, c).level - 1 else 0;
    if l >= 3 then s
    else s.(current := None,
            tasks := s.tasks[c := Of(s, c).(level := l, counter := TimeSlots(l), state := Ready)],
            ready := s.ready[l := s.ready[l] + [c]])
  }

  /** pc_schedule: a timer tick. */
  function Tick(s: State, readings: seq<Time>): State
    requires |s.sleep| <= |readings|
  {
    match s.current
    case None => s
    case Some(c) =>
      var k := Of(s, c).counter - 1;
      var s1 := s.(tasks := s.tasks[c := Of(s, c).(counter := k)]);
      if k > 0 then s1 else Dispatch(Requeue(s1, c), readings)
  }

  /** getemptyasid: the lowest unused ASID, if any. */
  function LowestFree(tasks: map<Tid, Task>, a: nat): (r: Option<Tid>)
    requires a <= MAX_ASID
    ensures r.None? ==> forall b :: a <= b < MAX_ASID ==> b in tasks
    ensures r.Some? ==> a <= r.value < MAX_ASID && r.value !in tasks && forall b :: a <= b < r.value ==> b in tasks
    decreases MAX_ASID - a
  {
    if a == MAX_ASID then None else if a !in tasks then Some(a) else LowestFree(tasks, a + 1)
  }

  /** create_kthread and pc_create; `junk` is what the fresh struct holds in sleeptime. */
  function Create(s: State, junk: Time): State {
    match LowestFree(s.tasks, 0)
    case None => s
    case Some(a) =>
      s.(tasks := s.tasks[a := Task(1, Ready, 1, junk, [])], shed := s.shed + [a], ready := s.ready[1 := s.ready[1] + [a]])
  }

  /** syscall_sleep before the dispatch. */
  function FallAsleep(s: State, c: Tid, wake: Time): State {
    s.(current := None, sleep := s.sleep + [c], tasks := s.tasks[c := Of(s, c).(state := Sleeping, sleeptime := wake)])
  }

  function Sleep(s: State, wake: Time, readings: seq<Time>): State
    requires |s.sleep| + 1 <= |readings|
  {
    match s.current
    case None => s
    case Some(c) => Dispatch(FallAsleep(s, c, wake), readings)
  }

  /** syscall_wait before the dispatch. */
  function JoinWaiters(s: State, c: Tid, target: Tid): State {
    var s1 := s.(tasks := s.tasks[target := Of(s, target).(waiters := Of(s, target).waiters + [c])]);
    s1.(current := None, tasks := s1.tasks[c := Of(s1, c).(state := Waiting)])
  }

  function Wait(s: State, target: Tid, readings: seq<Time>): State
    requires |s.sleep| <= |readings|
  {
    match s.current
    case None => s
    case Some(c) => if target in s.tasks then Dispatch(JoinWaiters(s, c, target), readings) else s
  }

  /** pc_releasewaiting from the i-th waiter on. */
  function ReleaseFrom(s: State, list: seq<Tid>, i: nat): (r: State)
    requires i <= |list|
    ensures r.sleep == s.sleep
    decreases |list| - i
  {
    if i == |list| then s else ReleaseFrom(Awake(s, list[i]), list, i + 1)
  }

  /** The wait lists without a task that was waiting. */
  function Unwaited(tasks: map<Tid, Task>, t: Tid): map<Tid, Task> {
    map u | u in tasks :: tasks[u].(waiters := Remove(tasks[u].waiters, t))
  }

  /** pc_deletelist and pc_deletetask: out of the list its state names, then gone. */
  function Delete(s: State, t: Tid): (r: State)
    ensures |r.sleep| <= |s.sleep|
  {
    var k := Of(s, t);
    var s1 := s.(shed := Remove(s.shed, t));
    var s2 :=
      match k.state
      case Ready => if k.level < 3 then s1.(ready := s1.ready[k.level := Remove(s1.ready[k.level], t)]) else s1
      case Waiting => s1.(tasks := Unwaited(s1.tasks, t))
      case Sleeping => s1.(sleep := Remove(s1.sleep, t))
      case Running => s1.(current := None)
      case Creating => s1;
    s2.(tasks := s2.tasks - {t})
  }

  /** __kill without the children. */
  function KillTask(s: State, t: Tid): (r: State)
    ensures |r.sleep| <= |s.sleep|
  {
    Delete(ReleaseFrom(s, Of(s, t).waiters, 0), t)
  }

  /** pc_kill_syscall. */
  function Kill(s: State, target: Tid, readings: seq<Time>): State
    requires |s.sleep| <= |readings|
  {
    if target !in s.tasks then s
    else if s.current == Some(target) then Dispatch(KillTask(s, target), readings)
    else KillTask(s, target)
  }
}
