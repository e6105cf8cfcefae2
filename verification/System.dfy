/** Programs and the scheduler together: launches and kills in between any scheduling. */
module SystemProofs {
  import opened HeapSpec
  import opened HeapProofs
  import opened SchedSpec
  import SchedProofs
  import opened LaunchSpec
  import opened LaunchProofs

  /** The user tasks of the ring are exactly the running programs. */
  ghost predicate Runs(procs: map<nat, Proc>, ring: seq<Task>) {
    && (forall t :: t in ring && t.id >= 2 ==> t.id in procs && procs[t.id].memory == t.memory)
    && (forall id :: id in procs ==> id >= 2 && IndexOf(ring, id) < |ring|)
  }

  /** The ghost account `k` matches the heap, the stashed words and the task list. */
  ghost predicate Agrees(k: KState, h: HeapSpec.State, stash: map<nat, nat>, s: Sys) {
    && WF(k) && k.heap == h && k.stash == stash
    && k.nextPid == s.nextPid >= 2
    && Runs(k.procs, s.ring)
  }

  lemma BootAgrees(h: HeapSpec.State, kernel: Memory, background: Memory)
    requires HeapSpec.Inv(h)
    ensures Agrees(KState(h, map[], map[], 2), h, map[], SchedSpec.Boot(kernel, background))
  {
  }

  lemma ExecAgrees(k: KState, s: Sys, h: HeapSpec.State, raw: nat, task: nat, stack: nat)
    requires Agrees(k, k.heap, k.stash, s) && SchedSpec.Inv(s)
    requires CanLaunch(k.heap) && (h, raw, task, stack) == Grab(k.heap)
    ensures var m, t := Memory(task, stack, AlignImage(raw)), Launched(k);
      && Agrees(t, h, k.stash[AlignImage(raw) - 4 := raw], CreateSpec(s, m))
      && k.nextPid in t.procs && t.procs[k.nextPid].memory == m
  {
    hide MallocSpec, HeapSpec.Inv, WF, Runs, Cells, Rest, Allocated;
    WFFacts(k);
    LaunchKeepsWF(k);
    RunsCreated(k.procs, s, Launched(k).procs[k.nextPid]);
  }

  lemma KillAgrees(k: KState, s: Sys, id: nat)
    requires Agrees(k, k.heap, k.stash, s) && SchedSpec.Inv(s) && s.cur == 0 && id >= 2
    ensures id in k.procs <==> IndexOf(s.ring, id) < |s.ring|
    ensures id !in k.procs ==> KillSpec(s, id) == s
    ensures id in k.procs ==>
      var m := k.procs[id].memory;
      && m == s.ring[IndexOf(s.ring, id)].memory
      && m.appBase - 4 in k.stash
      && Live(k.heap.blocks, m.stackBase)
      && Live(FreeSpec(k.heap, m.stackBase).blocks, k.stash[m.appBase - 4])
      && Live(FreeSpec(FreeSpec(k.heap, m.stackBase), k.stash[m.appBase - 4]).blocks, m.taskPtr)
      && Agrees(Killed(k, id), Killed(k, id).heap, k.stash, KillSpec(s, id))
  {
    hide FreeSpec, HeapSpec.Inv, Live;
    VictimIsProc(k.procs, s, id);
    if id in k.procs {
      KillKeepsWF(k, id);
      FreeThrice(k.heap, k.procs[id]);
    }
  }

  lemma IndexMember(ring: seq<Task>, t: Task)
    requires t in ring
    ensures IndexOf(ring, t.id) < |ring|
  {
    var i :| 0 <= i < |ring| && ring[i] == t;
  }

  lemma RunsCreated(procs: map<nat, Proc>, s: Sys, p: Proc)
    requires SchedSpec.Inv(s) && Runs(procs, s.ring)
    requires s.nextPid >= 2 && s.nextPid !in procs
    ensures Runs(procs[s.nextPid := p], CreateSpec(s, p.memory).ring)
  {
    var task := Task(s.nextPid, false, 0, p.memory);
    var ring := CreateSpec(s, p.memory).ring;
    assert ring == [s.ring[0], task] + s.ring[1..];
    assert forall t :: t in s.ring ==> t.id != s.nextPid;
    RunsWith(procs, s.ring, task, p);
  }

  lemma RunsWith(procs: map<nat, Proc>, ring: seq<Task>, task: Task, p: Proc)
    requires Runs(procs, ring) && ring != [] && task.id >= 2 && task.memory == p.memory
    requires forall t :: t in ring ==> t.id != task.id
    ensures Runs(procs[task.id := p], [ring[0], task] + ring[1..])
  {
    var longer := [ring[0], task] + ring[1..];
    assert longer[1] == task;
    IndexMember(longer, task);
    forall id | id in procs ensures IndexOf(longer, id) < |longer| {
      var x := IndexOf(ring, id);
      assert longer[if x == 0 then 0 else x + 1] == ring[x];
      IndexMember(longer, ring[x]);
    }
    forall t | t in longer ensures t == task || t in ring {}
  }

  lemma VictimIsProc(procs: map<nat, Proc>, s: Sys, id: nat)
    requires SchedSpec.Inv(s) && Runs(procs, s.ring) && s.cur == 0 && id >= 2
    ensures var i := IndexOf(s.ring, id);
      && (id in procs <==> i < |s.ring|)
      && (id in procs ==> procs[id].memory == s.ring[i].memory)
    ensures id in procs ==> Runs(procs - {id}, KillSpec(s, id).ring)
    ensures id !in procs ==> KillSpec(s, id) == s
  {
    var i := IndexOf(s.ring, id);
    if i < |s.ring| {
      assert s.ring[i].id == id && s.ring[i] in s.ring;
      SchedProofs.KillKeepsInv(s, id);
      RunsWithout(procs, s.ring, i);
    }
  }

  lemma RunsWithout(procs: map<nat, Proc>, ring: seq<Task>, i: nat)
    requires Runs(procs, ring) && i < |ring| && ring[i].id >= 2
    requires forall t :: t in Without(ring, i) ==> t.id != ring[i].id
    ensures Runs(procs - {ring[i].id}, Without(ring, i))
  {
    var rest := Without(ring, i);
    forall j | j in procs && j != ring[i].id ensures IndexOf(rest, j) < |rest| {
      var x := IndexOf(ring, j);
      assert rest[if x < i then x else x - 1] == ring[x];
      IndexMember(rest, ring[x]);
    }
  }

  // ---------------------------------------------------------------- every run

  /** The account of the running programs and the task ring. */
  datatype System = System(k: KState, s: Sys)

  ghost predicate Ok(x: System) {
    Agrees(x.k, x.k.heap, x.k.stash, x.s) && SchedSpec.Inv(x.s)
  }

  /** `On` is any event of the scheduler; tasks come and go by the other two. */
  datatype Call = ExecApp | KillTask(id: nat) | On(event: SchedSpec.Event)

  predicate ChangesRing(e: SchedSpec.Event) { e.Create? || e.Kill? }

  lemma OkFacts(x: System)
    requires Ok(x)
    ensures HeapSpec.Inv(x.k.heap) && WF(x.k) && SchedSpec.Inv(x.s)
    ensures 0 < |x.s.ring| && x.s.cur < |x.s.ring| && x.s.ring[0].id == 0
  {
  }

  ghost function AfterExec(x: System): System
    requires Ok(x) && HeapSpec.Inv(x.k.heap) && CanLaunch(x.k.heap)
  {
    hide Ok, HeapSpec.Inv, CreateSpec, Grab;
    OkFacts(x);
    System(Launched(x.k), CreateSpec(x.s, Launched(x.k).procs[x.k.nextPid].memory))
  }

  ghost function AfterKill(x: System, id: nat): System
    requires Ok(x) && x.s.cur == 0 && id >= 2
  {
    hide Ok, KillSpec, WF;
    OkFacts(x);
    if id !in x.k.procs then System(x.k, KillSpec(x.s, id)) else
    Stashed(x.k, id);
    System(Killed(x.k, id), KillSpec(x.s, id))
  }

  lemma Stashed(k: KState, id: nat)
    requires WF(k) && id in k.procs
    ensures k.procs[id].memory.appBase - 4 in k.stash
  {
    assert Holds(k, k.procs[id]);
  }

  /** A launch without memory for it and a kill outside the kernel task are no calls of
      this model and change nothing. */
  ghost function Do(x: System, c: Call): System
    requires Ok(x)
  {
    hide Ok, HeapSpec.Inv, CanLaunch;
    OkFacts(x);
    match c
    case ExecApp => if CanLaunch(x.k.heap) then AfterExec(x) else x
    case KillTask(id) => if x.s.cur == 0 && id >= 2 then AfterKill(x, id) else x
    case On(e) => if ChangesRing(e) then x else System(x.k, SchedSpec.Step(x.s, e))
  }

  /** A ring with the same ids and memory runs the same programs. */
  ghost predicate SameTasks(a: seq<Task>, b: seq<Task>) {
    |a| == |b| && forall i :: 0 <= i < |a| ==> a[i].id == b[i].id && a[i].memory == b[i].memory
  }

  lemma RunsSame(procs: map<nat, Proc>, a: seq<Task>, b: seq<Task>)
    requires Runs(procs, a) && SameTasks(a, b)
    ensures Runs(procs, b)
  {
    forall t | t in b && t.id >= 2 ensures t.id in procs && procs[t.id].memory == t.memory {
      var i :| 0 <= i < |b| && b[i] == t;
      assert a[i] in a;
    }
    forall id | id in procs ensures id >= 2 && IndexOf(b, id) < |b| {
      var i := IndexOf(a, id);
      assert b[i].id == id;
      IndexMember(b, b[i]);
    }
  }

  /** Ticks, switches, sleeping, waking and blocking change no task's id or memory. */
  lemma ScheduleSame(s: Sys, e: SchedSpec.Event)
    requires SchedSpec.Inv(s) && !ChangesRing(e)
    ensures SameTasks(s.ring, SchedSpec.Step(s, e).ring) && SchedSpec.Step(s, e).nextPid == s.nextPid
  {
  }

  /** So the running programs and what they hold stay as they are. */
  lemma ScheduleKeepsPrograms(x: System, e: SchedSpec.Event)
    requires Ok(x) && !ChangesRing(e)
    ensures x.s.cur < |x.s.ring| && Ok(System(x.k, SchedSpec.Step(x.s, e)))
  {
    hide WF, SchedSpec.Inv, SchedSpec.Step, Runs, SameTasks;
    OkFacts(x);
    ScheduleSame(x.s, e);
    SchedProofs.StepKeepsInv(x.s, e);
    RunsSame(x.k.procs, x.s.ring, SchedSpec.Step(x.s, e).ring);
  }

  lemma ScheduleAgrees(k: KState, h: HeapSpec.State, stash: map<nat, nat>, s: Sys, e: SchedSpec.Event)
    requires Agrees(k, h, stash, s) && SchedSpec.Inv(s) && !ChangesRing(e)
    ensures s.cur < |s.ring| && Agrees(k, h, stash, SchedSpec.Step(s, e))
  {
    hide WF, SchedSpec.Inv, SchedSpec.Step, Runs;
    ScheduleKeepsPrograms(System(k, s), e);
  }

  lemma DoKeepsOk(x: System, c: Call)
    requires Ok(x)
    ensures Ok(Do(x, c)) && Rest(Do(x, c).k) == Rest(x.k)
  {
    hide Ok, AfterExec, AfterKill, SchedSpec.Step, HeapSpec.Inv, CanLaunch, Rest;
    OkFacts(x);
    match c
    case ExecApp =>
      if CanLaunch(x.k.heap) { ExecKeepsOk(x); }
    case KillTask(id) =>
      if x.s.cur == 0 && id >= 2 { KillKeepsOk(x, id); }
    case On(e) =>
      if !ChangesRing(e) { ScheduleKeepsPrograms(x, e); }
  }

  lemma ExecKeepsOk(x: System)
    requires Ok(x) && HeapSpec.Inv(x.k.heap) && CanLaunch(x.k.heap)
    ensures Ok(AfterExec(x)) && Rest(AfterExec(x).k) == Rest(x.k)
  {
    hide SchedSpec.Inv, Runs, HeapSpec.Inv, CreateSpec, Holds, Cells, Rest, MallocSpec, WF;
    OkFacts(x);
    WFFacts(x.k);
    LaunchKeepsWF(x.k);
    var (h, raw, task, stack) := Grab(x.k.heap);
    ExecAgrees(x.k, x.s, h, raw, task, stack);
    SchedProofs.StepKeepsInv(x.s, Create(Launched(x.k).procs[x.k.nextPid].memory));
  }

  lemma KillKeepsOk(x: System, id: nat)
    requires Ok(x) && x.s.cur == 0 && id >= 2
    ensures Ok(AfterKill(x, id)) && Rest(AfterKill(x, id).k) == Rest(x.k)
  {
    hide SchedSpec.Inv, Runs, HeapSpec.Inv, KillSpec, Rest, FreeSpec, WF;
    OkFacts(x);
    KillAgrees(x.k, x.s, id);
    SchedProofs.KillKeepsInv(x.s, id);
    if id in x.k.procs { KillKeepsWF(x.k, id); } else { assert KillSpec(x.s, id) == x.s; }
  }

  ghost function RunCalls(x: System, cs: seq<Call>): System
    requires Ok(x)
    decreases |cs|
  {
    if cs == [] then x else
    DoKeepsOk(x, cs[0]);
    RunCalls(Do(x, cs[0]), cs[1..])
  }

  /** Over any mix of launches, kills, ticks, switches, sleeping, waking and blocking the
      user tasks of the ring are the running programs, with memory of their own. */
  lemma {:induction false} RunCallsKeepsOk(x: System, cs: seq<Call>)
    requires Ok(x)
    ensures Ok(RunCalls(x, cs)) && Rest(RunCalls(x, cs).k) == Rest(x.k)
    decreases |cs|
  {
    hide Ok, Do, Rest;
    if cs != [] {
      DoKeepsOk(x, cs[0]);
      RunCallsKeepsOk(Do(x, cs[0]), cs[1..]);
    }
  }

  /** Conservation over such a run: it ends with the block list it started with whenever it
      ends with the programs it started with. */
  lemma RunCallsConserves(x: System, cs: seq<Call>)
    requires Ok(x) && RunCalls(x, cs).k.procs == x.k.procs
    ensures RunCalls(x, cs).k.heap.blocks == x.k.heap.blocks && RunCalls(x, cs).k.heap.used == x.k.heap.used
  {
    hide RunCalls, Runs, SchedSpec.Inv;
    RunCallsKeepsOk(x, cs);
    var t := RunCalls(x, cs);
    SameProgramsSameHeap(x.k, t.k);
  }
}
