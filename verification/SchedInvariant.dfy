/** Every live task is in exactly one place, and every step keeps it so. */
module SchedInvariant {
  import opened Sequences
  import opened Options
  import opened Sched

  /** q without its k-th element. */
  lemma CutFacts(q: seq<Tid>, k: nat)
    requires Distinct(q) && k < |q|
    ensures var r := q[..k] + q[k + 1..]; Distinct(r) && forall x :: x in r <==> x in q && x != q[k]
  {
    var r := q[..k] + q[k + 1..];
    assert forall i :: 0 <= i < |r| ==> r[i] == q[if i < k then i else i + 1];
    forall x | x in q && x != q[k] ensures x in r {
      var i :| 0 <= i < |q| && q[i] == x;
      assert r[if i < k then i else i - 1] == x;
    }
  }

  lemma RemoveFacts(q: seq<Tid>, t: Tid)
    requires Distinct(q)
    ensures Distinct(Remove(q, t))
    ensures forall x :: x in Remove(q, t) <==> x in q && x != t
    ensures t !in q ==> Remove(q, t) == q
    ensures t in q ==> |Remove(q, t)| == |q| - 1
  {
    var k := PositionFrom(q, t, 0);
    if k < |q| {
      CutFacts(q, k);
    } else {
      assert forall i :: 0 <= i < |q| ==> q[i] != t;
    }
  }

  lemma AppendFacts(q: seq<Tid>, t: Tid)
    requires Distinct(q) && t !in q
    ensures Distinct(q + [t]) && Distinct([t] + q)
    ensures forall x :: x in q + [t] <==> x in q || x == t
    ensures forall x :: x in [t] + q <==> x in q || x == t
  {
    assert forall i :: 0 <= i < |q| ==> q[i] in q;
    assert (q + [t])[|q|] == t && ([t] + q)[0] == t;
    forall x | x in q ensures x in [t] + q {
      var i :| 0 <= i < |q| && q[i] == x;
      assert ([t] + q)[i + 1] == x;
    }
  }

  lemma TailFacts(q: seq<Tid>)
    requires Distinct(q) && q != []
    ensures Distinct(q[1..]) && forall x :: x in q[1..] <==> x in q && x != q[0]
  {
    assert q == [q[0]] + q[1..];
  }

  /** A list holds live tasks in this state only, each once. */
  ghost predicate ListOk(tasks: map<Tid, Task>, q: seq<Tid>, state: TaskState) {
    Distinct(q) && forall t :: t in q ==> t in tasks && tasks[t].state == state
  }

  ghost predicate ReadyOk(s: State, l: nat) {
    l < 3 && ListOk(s.tasks, s.ready[l], Ready) && forall t :: t in s.ready[l] ==> t in s.tasks && s.tasks[t].level == l
  }

  /** The wait lists w, by the task waited for. */
  ghost predicate WaitsOk(tasks: map<Tid, Task>, w: map<Tid, seq<Tid>>) {
    && w.Keys == tasks.Keys
    && (forall u :: u in w ==> ListOk(tasks, w[u], Waiting))
    && (forall u, v, t :: u in w && v in w && t in w[u] && t in w[v] ==> u == v)
  }

  ghost predicate Waited(w: map<Tid, seq<Tid>>, t: Tid) {
    exists u :: u in w && t in w[u]
  }

  /** The task is where its state says. */
  ghost predicate Placed(s: State, w: map<Tid, seq<Tid>>, t: Tid)
    requires t in s.tasks
  {
    match s.tasks[t].state
    case Ready => s.tasks[t].level < 3 && t in s.ready[s.tasks[t].level]
    case Running => s.current == Some(t)
    case Sleeping => t in s.sleep
    case Waiting => Waited(w, t)
    case Creating => false
  }

  ghost predicate TaskOk(s: State, w: map<Tid, seq<Tid>>, t: Tid)
    requires t in s.tasks
  {
    t < MAX_ASID && s.tasks[t].level < 3 && 1 <= s.tasks[t].counter <= 8 && Placed(s, w, t)
  }

  ghost predicate ShedOk(s: State) {
    Distinct(s.shed) && forall t :: t in s.shed <==> t in s.tasks
  }

  /** Each live task is in exactly one of: current, the ready queue of its level, the
      sleep list, the wait list of one live task; lists hold nothing else. */
  ghost predicate Partition(s: State, w: map<Tid, seq<Tid>>) {
    && ReadyOk(s, 0) && ReadyOk(s, 1) && ReadyOk(s, 2)
    && ListOk(s.tasks, s.sleep, Sleeping)
    && (s.current.Some? ==> s.current.value in s.tasks && s.tasks[s.current.value].state == Running)
    && WaitsOk(s.tasks, w)
    && ShedOk(s)
    && forall t :: t in s.tasks ==> TaskOk(s, w, t)
  }

  ghost function Lists(tasks: map<Tid, Task>): (w: map<Tid, seq<Tid>>)
    ensures w.Keys == tasks.Keys
  {
    map u | u in tasks :: tasks[u].waiters
  }

  ghost predicate Inv(s: State) {
    Partition(s, Lists(s.tasks))
  }

  // ------------------------------------------------------- moving one task

  ghost predicate SameTask(a: Task, b: Task) {
    a.level == b.level && a.state == b.state && a.counter == b.counter
  }

  /** Only t may have changed its place or its task fields. */
  ghost predicate OnlyMoved(s: State, w: map<Tid, seq<Tid>>, r: State, w': map<Tid, seq<Tid>>, t: Tid) {
    && r.shed == s.shed && r.tasks.Keys == s.tasks.Keys && w'.Keys == w.Keys
    && (forall x :: x in s.tasks && x != t ==> SameTask(s.tasks[x], r.tasks[x]))
    && (forall x :: x != t ==> (x in r.ready[0] <==> x in s.ready[0]))
    && (forall x :: x != t ==> (x in r.ready[1] <==> x in s.ready[1]))
    && (forall x :: x != t ==> (x in r.ready[2] <==> x in s.ready[2]))
    && (forall x :: x != t ==> (x in r.sleep <==> x in s.sleep))
    && (forall x :: x != t ==> (r.current == Some(x) <==> s.current == Some(x)))
    && (forall u, x :: u in w && x != t ==> (x in w'[u] <==> x in w[u]))
  }

  ghost predicate AllDistinct(s: State, w: map<Tid, seq<Tid>>) {
    && Distinct(s.ready[0]) && Distinct(s.ready[1]) && Distinct(s.ready[2]) && Distinct(s.sleep)
    && forall u :: u in w ==> Distinct(w[u])
  }

  /** t is nowhere but where its state says. */
  ghost predicate OnlyThere(s: State, w: map<Tid, seq<Tid>>, t: Tid)
    requires t in s.tasks
  {
    var k := s.tasks[t];
    && (t in s.ready[0] ==> k.state == Ready && k.level == 0)
    && (t in s.ready[1] ==> k.state == Ready && k.level == 1)
    && (t in s.ready[2] ==> k.state == Ready && k.level == 2)
    && (t in s.sleep ==> k.state == Sleeping)
    && (s.current == Some(t) ==> k.state == Running)
    && (forall u :: u in w && t in w[u] ==> k.state == Waiting)
    && (forall u, v :: u in w && v in w && t in w[u] && t in w[v] ==> u == v)
  }

  lemma MoveReady(s: State, w: map<Tid, seq<Tid>>, r: State, w': map<Tid, seq<Tid>>, t: Tid, l: nat)
    requires l < 3 && ReadyOk(s, l) && t in s.tasks && OnlyMoved(s, w, r, w', t) && AllDistinct(r, w') && OnlyThere(r, w', t)
    ensures ReadyOk(r, l)
  {
    forall x | x in r.ready[l] ensures x in r.tasks && r.tasks[x].state == Ready && r.tasks[x].level == l {
      if x != t { assert x in s.ready[l] && SameTask(s.tasks[x], r.tasks[x]); }
    }
  }

  lemma MoveLists(s: State, w: map<Tid, seq<Tid>>, r: State, w': map<Tid, seq<Tid>>, t: Tid)
    requires Partition(s, w) && t in s.tasks && OnlyMoved(s, w, r, w', t) && AllDistinct(r, w') && OnlyThere(r, w', t)
    ensures ListOk(r.tasks, r.sleep, Sleeping) && WaitsOk(r.tasks, w')
  {
    forall x | x in r.sleep ensures x in r.tasks && r.tasks[x].state == Sleeping {
      if x != t { assert SameTask(s.tasks[x], r.tasks[x]); }
    }
    forall u | u in w' ensures ListOk(r.tasks, w'[u], Waiting) {
      forall x | x in w'[u] ensures x in r.tasks && r.tasks[x].state == Waiting {
        if x != t { assert x in w[u] && SameTask(s.tasks[x], r.tasks[x]); }
      }
    }
    forall u, v, x | u in w' && v in w' && x in w'[u] && x in w'[v] ensures u == v {
      if x != t { assert x in w[u] && x in w[v]; }
    }
  }

  lemma MoveTask(s: State, w: map<Tid, seq<Tid>>, r: State, w': map<Tid, seq<Tid>>, t: Tid, x: Tid)
    requires x in s.tasks && x != t && TaskOk(s, w, x) && OnlyMoved(s, w, r, w', t)
    ensures TaskOk(r, w', x)
  {
    assert SameTask(s.tasks[x], r.tasks[x]);
    if s.tasks[x].state == Waiting {
      var u :| u in w && x in w[u];
      assert x in w'[u];
    }
  }

  /** Moving one task consistently keeps the partition. */
  lemma Move(s: State, w: map<Tid, seq<Tid>>, r: State, w': map<Tid, seq<Tid>>, t: Tid)
    requires Partition(s, w) && t in s.tasks && OnlyMoved(s, w, r, w', t) && AllDistinct(r, w')
    requires OnlyThere(r, w', t) && TaskOk(r, w', t)
    ensures Partition(r, w')
  {
    MoveReady(s, w, r, w', t, 0);
    MoveReady(s, w, r, w', t, 1);
    MoveReady(s, w, r, w', t, 2);
    MoveLists(s, w, r, w', t);
    if r.current.Some? && r.current.value != t {
      var c := r.current.value;
      assert s.current == Some(c) && SameTask(s.tasks[c], r.tasks[c]);
    }
    forall x | x in r.tasks && x != t ensures TaskOk(r, w', x) { MoveTask(s, w, r, w', t, x); }
  }

  /** A task is in no list that its state does not name. */
  lemma Elsewhere(s: State, w: map<Tid, seq<Tid>>, t: Tid)
    requires Partition(s, w) && t in s.tasks
    ensures AllDistinct(s, w) && OnlyThere(s, w, t) && TaskOk(s, w, t) && w.Keys == s.tasks.Keys
  {
  }

  lemma InSleep(s: State, w: map<Tid, seq<Tid>>, t: Tid)
    requires Partition(s, w) && t in s.sleep
    ensures t in s.tasks && s.tasks[t].state == Sleeping && Distinct(s.sleep)
  {
  }

  lemma SleepDistinct(s: State, w: map<Tid, seq<Tid>>)
    requires Partition(s, w)
    ensures Distinct(s.sleep)
  {
  }

  lemma InWait(s: State, w: map<Tid, seq<Tid>>, d: Tid, t: Tid)
    requires Partition(s, w) && d in w && t in w[d]
    ensures t in s.tasks && s.tasks[t].state == Waiting && forall u :: u in w && t in w[u] ==> u == d
  {
  }

  lemma InReady(s: State, w: map<Tid, seq<Tid>>, l: nat, t: Tid)
    requires Partition(s, w) && l < 3 && t in s.ready[l]
    ensures t in s.tasks && s.tasks[t].state == Ready && s.tasks[t].level == l
  {
  }

  lemma IsCurrent(s: State, w: map<Tid, seq<Tid>>, c: Tid)
    requires Partition(s, w) && s.current == Some(c)
    ensures c in s.tasks && s.tasks[c].state == Running
  {
  }

  // ----------------------------------------------------------- waking tasks up

  lemma AwakeSleeper(s: State, w: map<Tid, seq<Tid>>, t: Tid)
    requires Partition(s, w) && t in s.sleep
    ensures Partition(Awake(s.(sleep := Remove(s.sleep, t)), t), w)
  {
    hide Remove;
    hide Partition;
    InSleep(s, w, t);
    Elsewhere(s, w, t);
    RemoveFacts(s.sleep, t);
    AppendFacts(s.ready[2], t);
    Move(s, w, Awake(s.(sleep := Remove(s.sleep, t)), t), w, t);
  }

  lemma AwakeWaiter(s: State, w: map<Tid, seq<Tid>>, d: Tid, t: Tid)
    requires Partition(s, w) && d in w && w[d] != [] && w[d][0] == t
    ensures Partition(Awake(s, t), w[d := w[d][1..]])
  {
    hide Partition;
    assert t in w[d];
    InWait(s, w, d, t);
    Elsewhere(s, w, t);
    TailFacts(w[d]);
    AppendFacts(s.ready[2], t);
    Move(s, w, Awake(s, t), w[d := w[d][1..]], t);
  }

  lemma RunNextKeeps(s: State, w: map<Tid, seq<Tid>>)
    requires Partition(s, w) && s.current.None?
    ensures Partition(RunNext(s), w)
    ensures RunNext(s).current.Some? <==> TopLevel(s).Some?
    ensures SameWaiters(s.tasks, RunNext(s).tasks)
  {
    hide Partition;
    if TopLevel(s).Some? {
      var l := TopLevel(s).value;
      var t := s.ready[l][0];
      assert t in s.ready[l];
      InReady(s, w, l, t);
      Elsewhere(s, w, t);
      TailFacts(s.ready[l]);
      Move(s, w, RunNext(s), w, t);
    }
  }

  lemma RequeueKeeps(s: State, w: map<Tid, seq<Tid>>, c: Tid, k: int)
    requires Partition(s, w) && s.current == Some(c) && c in s.tasks
    ensures var s1 := s.(tasks := s.tasks[c := s.tasks[c].(counter := k)]);
      Partition(Requeue(s1, c), w) && Requeue(s1, c).current.None?
  {
    hide Partition;
    IsCurrent(s, w, c);
    var s1 := s.(tasks := s.tasks[c := s.tasks[c].(counter := k)]);
    var l := if s.tasks[c].level > 0 then s.tasks[c].level - 1 else 0;
    Elsewhere(s, w, c);
    AppendFacts(s.ready[l], c);
    Move(s, w, Requeue(s1, c), w, c);
  }

  lemma CountKeeps(s: State, w: map<Tid, seq<Tid>>, c: Tid, k: int)
    requires Partition(s, w) && s.current == Some(c) && c in s.tasks && 1 <= k <= 8
    ensures Partition(s.(tasks := s.tasks[c := s.tasks[c].(counter := k)]), w)
  {
    hide Partition;
    IsCurrent(s, w, c);
    Elsewhere(s, w, c);
    Move(s, w, s.(tasks := s.tasks[c := s.tasks[c].(counter := k)]), w, c);
  }

  lemma FallAsleepKeeps(s: State, w: map<Tid, seq<Tid>>, c: Tid, wake: Time)
    requires Partition(s, w) && s.current == Some(c)
    ensures Partition(FallAsleep(s, c, wake), w)
  {
    hide Partition;
    IsCurrent(s, w, c);
    Elsewhere(s, w, c);
    AppendFacts(s.sleep, c);
    Move(s, w, FallAsleep(s, c, wake), w, c);
  }

  lemma JoinWaitersKeeps(s: State, w: map<Tid, seq<Tid>>, c: Tid, target: Tid)
    requires Partition(s, w) && s.current == Some(c) && target in s.tasks && w == Lists(s.tasks)
    ensures Partition(JoinWaiters(s, c, target), Lists(JoinWaiters(s, c, target).tasks))
  {
    hide Partition;
    hide Distinct;
    IsCurrent(s, w, c);
    Elsewhere(s, w, c);
    AppendFacts(w[target], c);
    var r := JoinWaiters(s, c, target);
    var w' := w[target := w[target] + [c]];
    assert Lists(r.tasks) == w';
    assert c in w'[target];
    Move(s, w, r, w', c);
  }

  // ---------------------------------------------------------------- whole lists

  lemma SameLists(a: map<Tid, Task>, b: map<Tid, Task>)
    requires a.Keys == b.Keys && forall u :: u in a ==> a[u].waiters == b[u].waiters
    ensures Lists(a) == Lists(b)
  {
  }

  ghost predicate SameWaiters(a: map<Tid, Task>, b: map<Tid, Task>) {
    a.Keys == b.Keys && forall u :: u in a ==> a[u].waiters == b[u].waiters
  }

  /** The sleepers from the i-th on are still asleep. */
  lemma {:induction false} FlushKeeps(s: State, w: map<Tid, seq<Tid>>, list: seq<Tid>, i: nat, readings: seq<Time>)
    requires Partition(s, w) && i <= |list| <= |readings| && Distinct(list)
    requires forall j :: i <= j < |list| ==> list[j] in s.sleep
    ensures var r := FlushFrom(s, list, i, readings);
      Partition(r, w) && r.current == s.current && SameWaiters(s.tasks, r.tasks)
    decreases |list| - i
  {
    hide Partition;
    hide Remove;
    if i < |list| {
      var t := list[i];
      InSleep(s, w, t);
      var r := FlushOne(s, t, readings[i]);
      AwakeSleeper(s, w, t);
      RemoveFacts(s.sleep, t);
      FlushKeeps(r, w, list, i + 1, readings);
    }
  }

  lemma DispatchKeeps(s: State, readings: seq<Time>)
    requires Inv(s) && s.current.None? && |s.sleep| <= |readings|
    ensures Inv(Dispatch(s, readings))
    ensures Dispatch(s, readings).current.Some? <==> TopLevel(Flush(s, readings)).Some?
  {
    hide Partition;
    hide FlushFrom;
    hide RunNext;
    var w := Lists(s.tasks);
    SleepDistinct(s, w);
    assert forall j :: 0 <= j < |s.sleep| ==> s.sleep[j] in s.sleep;
    FlushKeeps(s, w, s.sleep, 0, readings);
    var f := Flush(s, readings);
    RunNextKeeps(f, w);
    SameLists(s.tasks, f.tasks);
    SameLists(f.tasks, RunNext(f).tasks);
  }

  lemma {:induction false} ReleaseKeeps(s: State, w: map<Tid, seq<Tid>>, d: Tid, list: seq<Tid>, i: nat)
    requires Partition(s, w) && i <= |list| && d in w && w[d] == list[i..]
    ensures var r := ReleaseFrom(s, list, i);
      Partition(r, w[d := []]) && r.current == s.current && SameWaiters(s.tasks, r.tasks)
    decreases |list| - i
  {
    hide Partition;
    if i < |list| {
      assert w[d][0] == list[i] && list[i] in w[d];
      InWait(s, w, d, list[i]);
      AwakeWaiter(s, w, d, list[i]);
      assert w[d][1..] == list[i + 1..];
      ReleaseKeeps(Awake(s, list[i]), w[d := w[d][1..]], d, list, i + 1);
      assert w[d := w[d][1..]][d := []] == w[d := []];
    } else {
      assert w[d := []] == w;
    }
  }

  // ------------------------------------------------------ creation and deletion

  /** A task struct and its nodes, added to the lists of a fresh ready task. */
  function WithNew(s: State, a: Tid, k: Task): State {
    s.(tasks := s.tasks[a := k], shed := s.shed + [a], ready := s.ready[1 := s.ready[1] + [a]])
  }

  lemma NewReady(s: State, a: Tid, k: Task, l: nat)
    requires l < 3 && ReadyOk(s, l) && a !in s.tasks && k.level == 1 && k.state == Ready
    ensures ReadyOk(WithNew(s, a, k), l)
  {
    AppendFacts(s.ready[l], a);
  }

  lemma NewList(tasks: map<Tid, Task>, q: seq<Tid>, state: TaskState, a: Tid, k: Task)
    requires ListOk(tasks, q, state) && a !in tasks
    ensures ListOk(tasks[a := k], q, state) && a !in q
  {
  }

  lemma NewWaits(tasks: map<Tid, Task>, w: map<Tid, seq<Tid>>, a: Tid, k: Task)
    requires WaitsOk(tasks, w) && a !in tasks
    ensures WaitsOk(tasks[a := k], w[a := []])
  {
    hide ListOk;
    var w' := w[a := []];
    forall u: Tid | u in w' ensures ListOk(tasks[a := k], w'[u], Waiting) {
      if u == a { EmptyList(tasks[a := k]); } else { NewList(tasks, w[u], Waiting, a, k); }
    }
    forall u, v, t | u in w' && v in w' && t in w'[u] && t in w'[v] ensures u == v {
      assert u != a && v != a;
    }
  }

  lemma EmptyList(tasks: map<Tid, Task>)
    ensures ListOk(tasks, [], Waiting)
  {
  }

  lemma NewShed(s: State, a: Tid, k: Task)
    requires ShedOk(s) && a !in s.tasks
    ensures ShedOk(WithNew(s, a, k))
  {
    AppendFacts(s.shed, a);
  }

  lemma NewTask(s: State, w: map<Tid, seq<Tid>>, a: Tid, k: Task, x: Tid)
    requires x in s.tasks && TaskOk(s, w, x) && a !in s.tasks && a !in w
    ensures TaskOk(WithNew(s, a, k), w[a := []], x)
  {
    if s.tasks[x].state == Waiting {
      var u :| u in w && x in w[u];
      assert x in w[a := []][u];
    }
  }

  lemma NewTaskKeeps(s: State, w: map<Tid, seq<Tid>>, a: Tid, k: Task)
    requires Partition(s, w) && a !in s.tasks && a < MAX_ASID
    requires k.level == 1 && k.state == Ready && k.counter == 1
    ensures Partition(WithNew(s, a, k), w[a := []])
  {
    var r := WithNew(s, a, k);
    NewReady(s, a, k, 0);
    NewReady(s, a, k, 1);
    NewReady(s, a, k, 2);
    NewList(s.tasks, s.sleep, Sleeping, a, k);
    NewWaits(s.tasks, w, a, k);
    NewShed(s, a, k);
    forall x | x in r.tasks ensures TaskOk(r, w[a := []], x) {
      if x == a { assert (s.ready[1] + [a])[|s.ready[1]|] == a; } else { NewTask(s, w, a, k, x); }
    }
  }

  lemma CreateKeeps(s: State, junk: Time)
    requires Inv(s)
    ensures Inv(Create(s, junk)) && Create(s, junk).current == s.current
  {
    hide Partition;
    hide LowestFree;
    match LowestFree(s.tasks, 0)
    case None =>
    case Some(a) =>
      var k := Task(1, Ready, 1, junk, []);
      NewTaskKeeps(s, Lists(s.tasks), a, k);
      assert Create(s, junk) == WithNew(s, a, k);
      assert Lists(s.tasks[a := k]) == Lists(s.tasks)[a := []];
  }

  /** Everything but t is as before, and t is gone. */
  ghost predicate OnlyGone(s: State, w: map<Tid, seq<Tid>>, r: State, w': map<Tid, seq<Tid>>, t: Tid) {
    && r.tasks.Keys == s.tasks.Keys - {t} && w'.Keys == w.Keys - {t}
    && (forall x :: x in r.tasks ==> SameTask(s.tasks[x], r.tasks[x]))
    && (forall x :: x in r.ready[0] <==> x in s.ready[0] && x != t)
    && (forall x :: x in r.ready[1] <==> x in s.ready[1] && x != t)
    && (forall x :: x in r.ready[2] <==> x in s.ready[2] && x != t)
    && (forall x :: x in r.sleep <==> x in s.sleep && x != t)
    && (forall x :: x in r.shed <==> x in s.shed && x != t)
    && r.current == (if s.current == Some(t) then None else s.current)
    && (forall u, x :: u in w' ==> (x in w'[u] <==> x in w[u] && x != t))
    && Distinct(r.shed)
  }

  lemma GoneReady(s: State, w: map<Tid, seq<Tid>>, r: State, w': map<Tid, seq<Tid>>, t: Tid, l: nat)
    requires l < 3 && ReadyOk(s, l) && OnlyGone(s, w, r, w', t) && AllDistinct(r, w')
    ensures ReadyOk(r, l)
  {
    forall x | x in r.ready[l] ensures x in r.tasks && r.tasks[x].state == Ready && r.tasks[x].level == l {
      assert x in s.ready[l] && SameTask(s.tasks[x], r.tasks[x]);
    }
  }

  lemma GoneList(s: State, w: map<Tid, seq<Tid>>, r: State, w': map<Tid, seq<Tid>>, t: Tid, q: seq<Tid>, q': seq<Tid>, state: TaskState)
    requires OnlyGone(s, w, r, w', t) && ListOk(s.tasks, q, state) && Distinct(q')
    requires forall x :: x in q' ==> x in q && x != t
    ensures ListOk(r.tasks, q', state)
  {
    forall x | x in q' ensures x in r.tasks && r.tasks[x].state == state {
      assert x in s.tasks && SameTask(s.tasks[x], r.tasks[x]);
    }
  }

  lemma GoneWaits(s: State, w: map<Tid, seq<Tid>>, r: State, w': map<Tid, seq<Tid>>, t: Tid)
    requires WaitsOk(s.tasks, w) && OnlyGone(s, w, r, w', t) && AllDistinct(r, w')
    ensures WaitsOk(r.tasks, w')
  {
    forall u | u in w' ensures ListOk(r.tasks, w'[u], Waiting) {
      assert forall x :: x in w'[u] ==> x in w[u] && x != t;
      GoneList(s, w, r, w', t, w[u], w'[u], Waiting);
    }
    forall u, v, x | u in w' && v in w' && x in w'[u] && x in w'[v] ensures u == v {
      assert x in w[u] && x in w[v];
    }
  }

  lemma GoneLists(s: State, w: map<Tid, seq<Tid>>, r: State, w': map<Tid, seq<Tid>>, t: Tid)
    requires Partition(s, w) && OnlyGone(s, w, r, w', t) && AllDistinct(r, w')
    ensures ListOk(r.tasks, r.sleep, Sleeping) && WaitsOk(r.tasks, w') && ShedOk(r)
  {
    hide ListOk;
    hide WaitsOk;
    GoneList(s, w, r, w', t, s.sleep, r.sleep, Sleeping);
    GoneWaits(s, w, r, w', t);
  }

  lemma GoneTask(s: State, w: map<Tid, seq<Tid>>, r: State, w': map<Tid, seq<Tid>>, t: Tid, x: Tid)
    requires x in s.tasks && x != t && TaskOk(s, w, x) && OnlyGone(s, w, r, w', t) && t in w && w[t] == []
    ensures x in r.tasks && TaskOk(r, w', x)
  {
    assert x in r.tasks;
    assert SameTask(s.tasks[x], r.tasks[x]);
    if s.tasks[x].state == Waiting {
      var u :| u in w && x in w[u];
      assert u != t;
      assert x in w'[u];
    }
  }

  lemma Gone(s: State, w: map<Tid, seq<Tid>>, r: State, w': map<Tid, seq<Tid>>, t: Tid)
    requires Partition(s, w) && t in s.tasks && w[t] == [] && OnlyGone(s, w, r, w', t) && AllDistinct(r, w')
    ensures Partition(r, w')
  {
    GoneReady(s, w, r, w', t, 0);
    GoneReady(s, w, r, w', t, 1);
    GoneReady(s, w, r, w', t, 2);
    GoneLists(s, w, r, w', t);
    if r.current.Some? {
      assert SameTask(s.tasks[r.current.value], r.tasks[r.current.value]);
    }
    forall x | x in r.tasks ensures TaskOk(r, w', x) { GoneTask(s, w, r, w', t, x); }
  }

  /** The wait lists after t has left them. */
  ghost function WithoutTask(w: map<Tid, seq<Tid>>, t: Tid, state: TaskState): map<Tid, seq<Tid>> {
    map u | u in w && u != t :: if state == Waiting then Remove(w[u], t) else w[u]
  }

  lemma DeleteKeeps(s: State, w: map<Tid, seq<Tid>>, t: Tid)
    requires Partition(s, w) && t in s.tasks && w[t] == []
    ensures Partition(Delete(s, t), WithoutTask(w, t, s.tasks[t].state))
  {
    hide Partition;
    hide Distinct;
    hide Remove;
    var k, r, w' := s.tasks[t], Delete(s, t), WithoutTask(w, t, s.tasks[t].state);
    Elsewhere(s, w, t);
    ShedDistinct(s, w);
    RemoveFacts(s.shed, t);
    RemoveFacts(s.sleep, t);
    RemoveFacts(s.ready[k.level], t);
    forall u | u in w ensures Distinct(Remove(w[u], t)) && forall x :: x in Remove(w[u], t) <==> x in w[u] && x != t {
      RemoveFacts(w[u], t);
    }
    Gone(s, w, r, w', t);
  }

  lemma ShedDistinct(s: State, w: map<Tid, seq<Tid>>)
    requires Partition(s, w)
    ensures Distinct(s.shed)
  {
  }

  /** After the kill the wait lists are what the task structs say. */
  lemma DeletedLists(s0: map<Tid, Task>, s: State, t: Tid)
    requires SameWaiters(s0, s.tasks) && t in s.tasks
    ensures Lists(Delete(s, t).tasks) == WithoutTask(Lists(s0)[t := []], t, s.tasks[t].state)
  {
  }

  lemma KillKeeps(s: State, t: Tid)
    requires Inv(s) && t in s.tasks
    ensures Inv(KillTask(s, t))
    ensures KillTask(s, t).current == if s.current == Some(t) then None else s.current
  {
    hide Partition;
    hide ReleaseFrom;
    var w, q := Lists(s.tasks), s.tasks[t].waiters;
    ReleaseKeeps(s, w, t, q, 0);
    var r := ReleaseFrom(s, q, 0);
    DeleteKeeps(r, w[t := []], t);
    DeletedLists(s.tasks, r, t);
    CurrentState(r, w[t := []], t);
  }

  lemma CurrentState(s: State, w: map<Tid, seq<Tid>>, t: Tid)
    requires Partition(s, w) && t in s.tasks
    ensures s.current == Some(t) <==> s.tasks[t].state == Running
  {
    assert TaskOk(s, w, t);
  }
}
