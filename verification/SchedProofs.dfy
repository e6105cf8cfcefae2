/** Safety and progress of the scheduler over every run. */
module SchedProofs {
  import opened SchedSpec

  // ---------------------------------------------------------------- the ring

  lemma IndexUnique(ring: seq<Task>, i: nat)
    requires i < |ring| && forall a, b :: 0 <= a < b < |ring| ==> ring[a].id != ring[b].id
    ensures IndexOf(ring, ring[i].id) == i
  {
    var k := IndexOf(ring, ring[i].id);
  }

  /** Cyclic distance from `i` forward to `j`, between 0 and n - 1. */
  function Ahead(n: nat, i: nat, j: nat): nat
    requires i < n && j < n
  {
    if i <= j then j - i else j + n - i
  }

  /** A runnable task `r` stops the skip loop, at `r` or before it in ring order. */
  lemma {:induction false} SkipReaches(ring: seq<Task>, i: nat, left: nat, r: nat)
    requires i < |ring| && r < |ring| && !ring[r].blocked
    requires Ahead(|ring|, i, r) <= left
    ensures var j := Skip(ring, i, left);
      !ring[j].blocked && Ahead(|ring|, i, j) + Ahead(|ring|, j, r) == Ahead(|ring|, i, r)
    decreases left
  {
    if left > 0 && ring[i].blocked {
      SkipReaches(ring, Succ(|ring|, i), left - 1, r);
    }
  }

  lemma SwitchPicksRunnable(s: Sys)
    requires Inv(s)
    ensures var t := SwitchSpec(s); Inv(t) && !t.ring[t.cur].blocked
  {
    SkipReaches(s.ring, Succ(|s.ring|, s.cur), |s.ring|, 0);
  }

  /** Every event keeps the ring well formed, whatever the state. */
  lemma StepKeepsInv(s: Sys, e: Event)
    requires Inv(s)
    ensures Inv(Step(s, e))
  {
    match e
    case Create(m) => CreateKeepsInv(s, m);
    case Kill(id) => if Enabled(s, e) { KillKeepsInv(s, id); }
    case Wake(id) =>
    case Block =>
    case Sleep(ms) =>
      if Enabled(s, e) {
        var task := s.ring[s.cur].(sleepTicks := SleepTicks(ms), blocked := true);
        SwitchPicksRunnable(s.(ring := s.ring[s.cur := task]));
      }
    case Timer =>
      TickKeepsInv(s);
      SwitchPicksRunnable(TickSpec(s));
    case Yield => SwitchPicksRunnable(s);
  }

  lemma CreateKeepsInv(s: Sys, m: Memory)
    requires Inv(s)
    ensures Inv(CreateSpec(s, m))
  {
    var t := CreateSpec(s, m);
    forall k | 0 <= k < |t.ring| ensures t.ring[k] == (if k == 0 then s.ring[0]
      else if k == 1 then Task(s.nextPid, false, 0, m) else s.ring[k - 1]) {}
  }

  lemma TickKeepsInv(s: Sys)
    requires Inv(s)
    ensures Inv(TickSpec(s))
  {
  }

  lemma KillKeepsInv(s: Sys, id: nat)
    requires Inv(s) && s.cur == 0 && id >= 2
    ensures Inv(KillSpec(s, id))
    ensures forall k :: 0 <= k < |KillSpec(s, id).ring| ==> KillSpec(s, id).ring[k].id != id
  {
    var i := IndexOf(s.ring, id);
    var t := KillSpec(s, id);
  }

  /** Over any mix of events the list stays one ring with unique ids that holds the
      current task, and every switch ends on a runnable task. */
  lemma {:induction false} RunKeepsInv(s: Sys, es: seq<Event>)
    requires Inv(s)
    ensures Inv(Run(s, es))
    decreases |es|
  {
    if es != [] {
      StepKeepsInv(s, es[0]);
      RunKeepsInv(Step(s, es[0]), es[1..]);
    }
  }

  lemma AnyRunFromBoot(kernel: Memory, background: Memory, es: seq<Event>)
    ensures Inv(Run(Boot(kernel, background), es))
  {
    RunKeepsInv(Boot(kernel, background), es);
  }

  // ---------------------------------------------------------------- fairness

  predicate Switches(s: Sys, e: Event)
    requires s.cur < |s.ring|
  {
    Enabled(s, e) && (e.Timer? || e.Yield? || e.Sleep?)
  }

  predicate KeepsRing(e: Event) { !e.Create? && !e.Kill? }

  ghost predicate Runnable(s: Sys, id: nat) {
    exists i :: 0 <= i < |s.ring| && s.ring[i].id == id && !s.ring[i].blocked
  }

  /** The task is runnable now and after each event of the run. */
  ghost predicate StaysRunnable(s: Sys, es: seq<Event>, id: nat)
    requires s.cur < |s.ring|
    decreases |es|
  {
    Runnable(s, id) && (es == [] || StaysRunnable(Step(s, es[0]), es[1..], id))
  }

  function CountSwitches(s: Sys, es: seq<Event>): nat
    requires s.cur < |s.ring|
    decreases |es|
  {
    if es == [] then 0
    else (if Switches(s, es[0]) then 1 else 0) + CountSwitches(Step(s, es[0]), es[1..])
  }

  /** Some switch of the run lands on the task. */
  ghost predicate Dispatched(s: Sys, es: seq<Event>, id: nat)
    requires s.cur < |s.ring|
    decreases |es|
  {
    es != [] &&
    var t := Step(s, es[0]);
    (Switches(s, es[0]) && t.ring[t.cur].id == id) || Dispatched(t, es[1..], id)
  }

  /** Switches until the task at `r` must have been reached. */
  function Turns(n: nat, cur: nat, r: nat): nat
    requires cur < n && r < n
  {
    if cur == r then n else Ahead(n, cur, r)
  }

  lemma SwitchProgress(s: Sys, r: nat)
    requires Inv(s) && r < |s.ring| && !s.ring[r].blocked
    ensures var t := SwitchSpec(s); t.cur == r || Turns(|s.ring|, t.cur, r) < Turns(|s.ring|, s.cur, r)
  {
    SkipReaches(s.ring, Succ(|s.ring|, s.cur), |s.ring|, r);
  }

  /** An event that leaves the ring alone keeps every task in its place. */
  lemma PlacesKept(s: Sys, e: Event)
    requires Inv(s) && KeepsRing(e)
    ensures var t := Step(s, e);
      && |t.ring| == |s.ring|
      && (forall i :: 0 <= i < |s.ring| ==> t.ring[i].id == s.ring[i].id)
      && (!Switches(s, e) ==> t.cur == s.cur)
  {
  }

  lemma {:induction false} DispatchedWithin(s: Sys, es: seq<Event>, r: nat)
    requires Inv(s) && r < |s.ring|
    requires forall e :: e in es ==> KeepsRing(e)
    requires StaysRunnable(s, es, s.ring[r].id)
    requires CountSwitches(s, es) >= Turns(|s.ring|, s.cur, r)
    ensures Dispatched(s, es, s.ring[r].id)
    decreases |es|
  {
    var id := s.ring[r].id;
    var e, t := es[0], Step(s, es[0]);
    assert KeepsRing(e);
    PlacesKept(s, e);
    StepKeepsInv(s, e);
    assert !t.ring[r].blocked by { RunnableAt(t, r); }
    if Switches(s, e) {
      var u := match e
        case Timer => TickSpec(s)
        case Yield => s
        case Sleep(ms) => s.(ring := s.ring[s.cur := s.ring[s.cur].(sleepTicks := SleepTicks(ms), blocked := true)])
        case _ => s;
      assert t == SwitchSpec(u) && u.cur == s.cur;
      assert Inv(u);
      SwitchProgress(u, r);
      if t.cur != r { DispatchedWithin(t, es[1..], r); }
    } else {
      DispatchedWithin(t, es[1..], r);
    }
  }

  lemma RunnableAt(s: Sys, r: nat)
    requires Inv(s) && r < |s.ring| && Runnable(s, s.ring[r].id)
    ensures !s.ring[r].blocked
  {
    var i :| 0 <= i < |s.ring| && s.ring[i].id == s.ring[r].id && !s.ring[i].blocked;
    IndexUnique(s.ring, i);
    IndexUnique(s.ring, r);
  }

  /** On an unchanged ring of k tasks, a task that stays runnable is dispatched
      by the k-th switch at the latest, whatever else happens in between. */
  lemma Fairness(s: Sys, es: seq<Event>, id: nat)
    requires Inv(s)
    requires forall e :: e in es ==> KeepsRing(e)
    requires StaysRunnable(s, es, id)
    requires CountSwitches(s, es) >= |s.ring|
    ensures Dispatched(s, es, id)
  {
    var r :| 0 <= r < |s.ring| && s.ring[r].id == id && !s.ring[r].blocked;
    DispatchedWithin(s, es, r);
  }

  // ---------------------------------------------------------------- sleeping

  /** The task is blocked with `d` ticks left on its counter, and is not running. */
  ghost predicate Parked(s: Sys, id: nat, d: nat) {
    exists i :: 0 <= i < |s.ring| && i != s.cur && s.ring[i] == Task(id, true, d, s.ring[i].memory)
  }

  predicate LeavesAlone(e: Event, id: nat) { e != Wake(id) && e != Kill(id) }

  /** Switching away from a blocked task does not pick it. */
  lemma SwitchAvoids(s: Sys, i: nat)
    requires Inv(s) && i < |s.ring| && s.ring[i].blocked
    ensures SwitchSpec(s).cur != i
  {
    SwitchPicksRunnable(s);
  }

  lemma ParkedAt(s: Sys, i: nat, id: nat, d: nat)
    requires i < |s.ring| && i != s.cur
    requires s.ring[i].id == id && s.ring[i].blocked && s.ring[i].sleepTicks == d
    ensures Parked(s, id, d)
  {
    assert s.ring[i] == Task(id, true, d, s.ring[i].memory);
  }

  /** Creating and killing other tasks moves a parked task, nothing more. */
  lemma ParkedRingChange(s: Sys, e: Event, i: nat)
    requires Inv(s) && i < |s.ring| && i != s.cur && s.ring[i].blocked
    requires (e.Create? || e.Kill?) && e != Kill(s.ring[i].id)
    ensures Parked(Step(s, e), s.ring[i].id, s.ring[i].sleepTicks)
  {
    var t := Step(s, e);
    if e.Create? {
      ParkedAt(t, i + 1, s.ring[i].id, s.ring[i].sleepTicks);
    } else if Enabled(s, e) {
      var x := IndexOf(s.ring, e.id);
      ParkedAt(t, if i < x then i else i - 1, s.ring[i].id, s.ring[i].sleepTicks);
    } else {
      ParkedAt(t, i, s.ring[i].id, s.ring[i].sleepTicks);
    }
  }

  /** Nothing but a wake call or a tick changes a parked task in place. */
  lemma ParkedInPlace(s: Sys, e: Event, i: nat)
    requires Inv(s) && i < |s.ring| && i != s.cur && s.ring[i].blocked
    requires !e.Create? && !e.Kill? && e != Wake(s.ring[i].id)
    ensures var t := Step(s, e);
      && i < |t.ring|
      && t.ring[i] == (if e == Timer then TickTask(s.ring[i]) else s.ring[i])
      && (t.ring[i].blocked ==> t.cur != i)
  {
    match e
    case Sleep(ms) =>
      if Enabled(s, e) {
        var u := s.(ring := s.ring[s.cur := s.ring[s.cur].(sleepTicks := SleepTicks(ms), blocked := true)]);
        assert Inv(u);
        SwitchAvoids(u, i);
      }
    case Timer =>
      var u := TickSpec(s);
      assert Inv(u);
      if u.ring[i].blocked { SwitchAvoids(u, i); }
    case Yield =>
      SwitchAvoids(s, i);
    case _ =>
  }

  lemma ParkedStep(s: Sys, e: Event, id: nat, d: nat)
    requires Inv(s) && Parked(s, id, d) && LeavesAlone(e, id)
    ensures var t := Step(s, e);
      if e != Timer || d == 0 then Parked(t, id, d)
      else if d > 1 then Parked(t, id, d - 1)
      else Runnable(t, id)
  {
    var i :| 0 <= i < |s.ring| && i != s.cur && s.ring[i] == Task(id, true, d, s.ring[i].memory);
    if e.Create? || e.Kill? {
      ParkedRingChange(s, e, i);
    } else {
      ParkedInPlace(s, e, i);
      var t := Step(s, e);
      if t.ring[i].blocked { ParkedAt(t, i, id, t.ring[i].sleepTicks); }
    }
  }

  function CountTicks(es: seq<Event>): nat {
    if es == [] then 0 else (if es[0] == Timer then 1 else 0) + CountTicks(es[1..])
  }

  /** While a task is parked the tick count plus its counter is constant. */
  lemma {:induction false} ParkedRun(s: Sys, es: seq<Event>, id: nat, d: nat)
    requires Inv(s) && Parked(s, id, d)
    requires forall e :: e in es ==> LeavesAlone(e, id)
    requires CountTicks(es) < d
    ensures Parked(Run(s, es), id, d - CountTicks(es))
    ensures Run(s, es).ticks + (d - CountTicks(es)) == s.ticks + d
    decreases |es|
  {
    if es != [] {
      ParkedStep(s, es[0], id, d);
      StepKeepsInv(s, es[0]);
      TicksStep(s, es[0]);
      ParkedRun(Step(s, es[0]), es[1..], id, if es[0] == Timer then d - 1 else d);
    }
  }

  lemma TicksStep(s: Sys, e: Event)
    requires Inv(s)
    ensures Step(s, e).ticks == s.ticks + (if e == Timer then 1 else 0)
  {
  }

  /** Sleep deadline: after `sleep_task(ms)` and any events other than an explicit
      wake or kill of the sleeper, it is blocked and off the CPU as long as fewer than
      max(1, ms/10) ticks have passed, and the tick that completes them wakes it. */
  lemma SleepDeadline(s: Sys, ms: nat, es: seq<Event>)
    requires Inv(s) && s.ring[s.cur].id >= 2
    requires forall e :: e in es ==> LeavesAlone(e, s.ring[s.cur].id)
    ensures var id, d, t := s.ring[s.cur].id, SleepTicks(ms), SleepSpec(s, ms);
      && d == (if ms < 10 then 1 else ms / 10)
      && (CountTicks(es) < d ==>
            && Parked(Run(t, es), id, d - CountTicks(es))
            && Run(t, es).ticks + (d - CountTicks(es)) == s.ticks + d)
      && (CountTicks(es) + 1 == d ==> Runnable(Step(Run(t, es), Timer), id))
  {
    var id, d, i := s.ring[s.cur].id, SleepTicks(ms), s.cur;
    var u := s.(ring := s.ring[i := s.ring[i].(sleepTicks := d, blocked := true)]);
    assert Inv(u);
    SwitchAvoids(u, i);
    var t := SleepSpec(s, ms);
    StepKeepsInv(s, Sleep(ms));
    assert t.ring[i] == Task(id, true, d, t.ring[i].memory);
    assert Parked(t, id, d);
    if CountTicks(es) < d {
      ParkedRun(t, es, id, d);
      RunKeepsInv(t, es);
      ParkedStep(Run(t, es), Timer, id, d - CountTicks(es));
    }
  }

  // ---------------------------------------------------------------- waiting for a key

  lemma {:induction false} ParkedForever(s: Sys, es: seq<Event>, id: nat)
    requires Inv(s) && Parked(s, id, 0)
    requires forall e :: e in es ==> LeavesAlone(e, id)
    ensures Parked(Run(s, es), id, 0)
    decreases |es|
  {
    if es != [] {
      ParkedStep(s, es[0], id, 0);
      StepKeepsInv(s, es[0]);
      ParkedForever(Step(s, es[0]), es[1..], id);
    }
  }

  function Timers(n: nat): (es: seq<Event>)
    ensures |es| == n && forall e :: e in es ==> e == Timer
  {
    if n == 0 then [] else [Timer] + Timers(n - 1)
  }

  lemma {:induction false} TimersWake(s: Sys, id: nat, d: nat)
    requires Inv(s) && Parked(s, id, d) && d > 0
    ensures Runnable(Run(s, Timers(d)), id)
    decreases d
  {
    ParkedStep(s, Timer, id, d);
    StepKeepsInv(s, Timer);
    assert Timers(d)[1..] == Timers(d - 1);
    assert Run(s, Timers(d)) == Run(Step(s, Timer), Timers(d - 1));
    if d > 1 { TimersWake(Step(s, Timer), id, d - 1); }
  }

  lemma ParkedNotRunnable(s: Sys, id: nat, d: nat)
    requires Inv(s) && Parked(s, id, d)
    ensures !Runnable(s, id)
  {
    var i :| 0 <= i < |s.ring| && i != s.cur && s.ring[i] == Task(id, true, d, s.ring[i].memory);
    if Runnable(s, id) { RunnableAt(s, i); }
  }

  /** A run that neither wakes nor kills the task and yet leaves it runnable. */
  ghost predicate RunsUnaided(s: Sys, es: seq<Event>, id: nat)
    requires s.cur < |s.ring|
  {
    (forall e :: e in es ==> LeavesAlone(e, id)) && Runnable(Run(s, es), id)
  }

  /** A blocked task can run again without being woken or killed exactly when its
      sleep counter is not zero. For a task waiting for a key that counter is what
      an earlier, interrupted sleep left behind. */
  lemma WakesByItselfIff(s: Sys, id: nat, d: nat)
    requires Inv(s) && Parked(s, id, d)
    ensures d > 0 <==> exists es :: RunsUnaided(s, es, id)
  {
    if d > 0 {
      TimersWake(s, id, d);
      assert RunsUnaided(s, Timers(d), id);
    } else {
      forall es | RunsUnaided(s, es, id) ensures false {
        ParkedForever(s, es, id);
        RunKeepsInv(s, es);
        ParkedNotRunnable(Run(s, es), id, 0);
      }
    }
  }

  /** Such a leftover is real: sleep 100 ms, be woken at once, wait for a key, get
      switched out; the task now waits with 10 ticks on its counter. */
  lemma StaleCounterExample(kernel: Memory, background: Memory, app: Memory)
    ensures var running := Step(Step(Boot(kernel, background), Create(app)), Yield);
      var woken := Step(Step(running, Sleep(100)), Wake(2));
      Parked(Step(Step(Step(Step(woken, Yield), Yield), Block), Yield), 2, 10)
  {
    var running := Step(Step(Boot(kernel, background), Create(app)), Yield);
    var k, b := Task(0, false, 0, kernel), Task(1, false, 0, background);
    assert running == Sys([k, Task(2, false, 0, app), b], 1, 3, 0);
    var woken := Step(Step(running, Sleep(100)), Wake(2));
    assert woken == Sys([k, Task(2, false, 10, app), b], 2, 3, 0) by {
      assert Step(running, Sleep(100)) == Sys([k, Task(2, true, 10, app), b], 2, 3, 0);
      assert IndexOf(Step(running, Sleep(100)).ring, 2) == 1;
    }
    var again := Step(Step(woken, Yield), Yield);
    assert again == Sys([k, Task(2, false, 10, app), b], 1, 3, 0) by {
      assert Step(woken, Yield) == woken.(cur := 0);
    }
    var waiting := Step(Step(again, Block), Yield);
    assert waiting == Sys([k, Task(2, true, 10, app), b], 2, 3, 0);
    ParkedAt(waiting, 1, 2, 10);
  }

  // ---------------------------------------------------------------- waking and blocking

  /** A wake call makes that task runnable and touches nothing else, its counter
      included; for an id that is not in the ring it does nothing. */
  lemma WokenRuns(s: Sys, id: nat)
    requires Inv(s)
    ensures var t := Step(s, Wake(id));
      && t.cur == s.cur && t.nextPid == s.nextPid && t.ticks == s.ticks && |t.ring| == |s.ring|
      && (forall i :: 0 <= i < |s.ring| ==>
            t.ring[i] == if s.ring[i].id == id then Task(id, false, s.ring[i].sleepTicks, s.ring[i].memory)
                         else s.ring[i])
      && ((exists i :: 0 <= i < |s.ring| && s.ring[i].id == id) ==> Runnable(t, id))
  {
    var t := Step(s, Wake(id));
    if i :| 0 <= i < |s.ring| && s.ring[i].id == id {
      IndexUnique(s.ring, i);
      assert t.ring[i].id == id && !t.ring[i].blocked;
    }
  }

  /** A task that waits for a key is blocked, with the counter it had; nothing else
      changes. */
  lemma WaiterIsBlocked(s: Sys)
    requires Inv(s) && s.ring[s.cur].id >= 2
    ensures var t, was := Step(s, Block), s.ring[s.cur];
      && t.cur == s.cur && t.nextPid == s.nextPid && t.ticks == s.ticks && |t.ring| == |s.ring|
      && (forall i :: 0 <= i < |s.ring| ==>
            t.ring[i] == if i == s.cur then Task(was.id, true, was.sleepTicks, was.memory) else s.ring[i])
      && !Runnable(t, was.id)
  {
    var t := Step(s, Block);
    StepKeepsInv(s, Block);
    if Runnable(t, s.ring[s.cur].id) { RunnableAt(t, s.cur); }
  }

  /** The events that do not stop task `id` or end it. */
  predicate Spares(s: Sys, e: Event, id: nat)
    requires s.cur < |s.ring|
  {
    e != Kill(id) && (e.Sleep? || e.Block? ==> s.ring[s.cur].id != id)
  }

  /** A runnable task stays as it is, leftover counter included, whatever happens but its
      own sleep, its own wait and its end: a tick only counts for blocked tasks. */
  lemma RunnableKept(s: Sys, e: Event, task: Task)
    requires Inv(s) && task in s.ring && !task.blocked && Spares(s, e, task.id)
    ensures task in Step(s, e).ring
  {
    var i :| 0 <= i < |s.ring| && s.ring[i] == task;
    var t := Step(s, e);
    if e.Create? {
      assert t.ring[if i == 0 then 0 else i + 1] == task;
    } else if e.Kill? && Enabled(s, e) && IndexOf(s.ring, e.id) < |s.ring| {
      var x := IndexOf(s.ring, e.id);
      assert t.ring[if i < x then i else i - 1] == task;
    } else {
      assert t.ring[i] == task;
    }
  }

  /** No event of the run stops the task. */
  ghost predicate AllSpare(s: Sys, es: seq<Event>, id: nat)
    requires s.cur < |s.ring|
    decreases |es|
  {
    es == [] || (Spares(s, es[0], id) && AllSpare(Step(s, es[0]), es[1..], id))
  }

  lemma {:induction false} SparedStaysRunnable(s: Sys, es: seq<Event>, id: nat)
    requires Inv(s) && Runnable(s, id) && AllSpare(s, es, id)
    ensures StaysRunnable(s, es, id)
    decreases |es|
  {
    if es != [] {
      var i :| 0 <= i < |s.ring| && s.ring[i].id == id && !s.ring[i].blocked;
      RunnableKept(s, es[0], s.ring[i]);
      StepKeepsInv(s, es[0]);
      SparedStaysRunnable(Step(s, es[0]), es[1..], id);
    }
  }

  /** So a task that is woken, and does not stop again, is dispatched by the k-th switch
      on a ring of k tasks, however long it had been blocked. */
  lemma WokenIsDispatched(s: Sys, id: nat, es: seq<Event>)
    requires Inv(s) && exists i :: 0 <= i < |s.ring| && s.ring[i].id == id
    requires forall e :: e in es ==> KeepsRing(e)
    requires AllSpare(Step(s, Wake(id)), es, id) && CountSwitches(Step(s, Wake(id)), es) >= |s.ring|
    ensures Dispatched(Step(s, Wake(id)), es, id)
  {
    WokenRuns(s, id);
    StepKeepsInv(s, Wake(id));
    SparedStaysRunnable(Step(s, Wake(id)), es, id);
    Fairness(Step(s, Wake(id)), es, id);
  }

  /** A new task is runnable, with no ticks to wait and the next id, right behind the
      head; the others keep their order and the running one runs on. */
  lemma NewTaskRuns(s: Sys, memory: Memory)
    requires Inv(s)
    ensures var t := Step(s, Create(memory));
      && |t.ring| == |s.ring| + 1 && t.ring[1] == Task(s.nextPid, false, 0, memory) && Runnable(t, s.nextPid)
      && t.nextPid == s.nextPid + 1 && t.ring[t.cur] == s.ring[s.cur] && t.ring[0] == s.ring[0]
      && forall i :: 1 <= i < |s.ring| ==> t.ring[i + 1] == s.ring[i]
  {
  }

  /** A killed task is gone; the others keep their order and the kernel task runs on. */
  lemma KilledIsGone(s: Sys, i: nat)
    requires Inv(s) && s.cur == 0 && i < |s.ring| && s.ring[i].id >= 2
    ensures var t := Step(s, Kill(s.ring[i].id));
      && |t.ring| == |s.ring| - 1 && t.cur == 0 && !Runnable(t, s.ring[i].id)
      && (forall k :: 0 <= k < i ==> t.ring[k] == s.ring[k])
      && forall k :: i < k < |s.ring| ==> t.ring[k - 1] == s.ring[k]
  {
    IndexUnique(s.ring, i);
    KillKeepsInv(s, s.ring[i].id);
  }
}
