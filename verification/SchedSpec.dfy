/** The scheduler as a transition system on values: the circular task list of
    src/task.c, the timer sweep of src/timer.c and the switch of src/boot.asm. */
module SchedSpec {

  /** Heap addresses a task owns: its task_t, its kernel stack and its image. */
  datatype Memory = Memory(taskPtr: nat, stackBase: nat, appBase: nat)

  /** `blocked` is `state == 1`. */
  datatype Task = Task(id: nat, blocked: bool, sleepTicks: nat, memory: Memory)

  /** `ring[0]` is the task `ready_queue` points at; `cur` indexes `current_task`. */
  datatype Sys = Sys(ring: seq<Task>, cur: nat, nextPid: nat, ticks: nat)

  datatype Event =
    | Create(memory: Memory)
    | Kill(id: nat)
    | Wake(id: nat)
    | Sleep(ms: nat)
    | Block             // the state change of api_get_key and kernel_read_keyboard
    | Timer             // IRQ0: the sweep, then a switch
    | Yield             // int 129: a switch

  ghost predicate Inv(s: Sys) {
    && 0 < |s.ring| && s.cur < |s.ring|
    && s.ring[0].id == 0
    && (forall i, j :: 0 <= i < j < |s.ring| ==> s.ring[i].id != s.ring[j].id)
    && (forall i :: 0 <= i < |s.ring| ==> s.ring[i].id < s.nextPid)
    && (forall i :: 0 <= i < |s.ring| && s.ring[i].blocked ==> s.ring[i].id >= 2)
  }

  /** Index of the task with this id, or the ring length. */
  function IndexOf(ring: seq<Task>, id: nat): (i: nat)
    ensures i <= |ring|
    ensures i < |ring| ==> ring[i].id == id
    ensures forall k :: 0 <= k < i ==> ring[k].id != id
  {
    if ring == [] || ring[0].id == id then 0 else 1 + IndexOf(ring[1..], id)
  }

  function Succ(n: nat, i: nat): (j: nat)
    requires i < n
    ensures j < n
  {
    if i + 1 == n then 0 else i + 1
  }

  /** The first runnable task at or after `i` in ring order, looking at `left` more at most. */
  function Skip(ring: seq<Task>, i: nat, left: nat): (j: nat)
    requires i < |ring|
    ensures j < |ring|
    decreases left
  {
    if left == 0 || !ring[i].blocked then i else Skip(ring, Succ(|ring|, i), left - 1)
  }

  function SwitchSpec(s: Sys): (t: Sys)
    requires s.cur < |s.ring|
    ensures t.cur < |t.ring|
  {
    s.(cur := Skip(s.ring, Succ(|s.ring|, s.cur), |s.ring|))
  }

  function CreateSpec(s: Sys, memory: Memory): (t: Sys)
    requires s.cur < |s.ring|
    ensures t.cur < |t.ring|
  {
    var task := Task(s.nextPid, false, 0, memory);
    Sys([s.ring[0], task] + s.ring[1..], if s.cur == 0 then 0 else s.cur + 1, s.nextPid + 1, s.ticks)
  }

  function Without<T>(s: seq<T>, i: nat): (r: seq<T>)
    requires i < |s|
    ensures |r| == |s| - 1
    ensures forall k :: 0 <= k < |r| ==> r[k] == s[if k < i then k else k + 1]
  {
    s[..i] + s[i + 1..]
  }

  /** Run by the kernel task; never unlinks the head. */
  function KillSpec(s: Sys, id: nat): (t: Sys)
    requires s.cur == 0 && 0 < |s.ring| && s.ring[0].id != id
    ensures t.cur < |t.ring|
  {
    var i := IndexOf(s.ring, id);
    if i == |s.ring| then s else s.(ring := Without(s.ring, i))
  }

  function WakeSpec(s: Sys, id: nat): Sys {
    var i := IndexOf(s.ring, id);
    if i == |s.ring| then s else s.(ring := s.ring[i := s.ring[i].(blocked := false)])
  }

  function BlockSpec(s: Sys): Sys
    requires s.cur < |s.ring|
  {
    s.(ring := s.ring[s.cur := s.ring[s.cur].(blocked := true)])
  }

  function SleepTicks(ms: nat): nat { if ms / 10 == 0 then 1 else ms / 10 }

  function SleepSpec(s: Sys, ms: nat): (t: Sys)
    requires s.cur < |s.ring|
    ensures t.cur < |t.ring|
  {
    var task := s.ring[s.cur].(sleepTicks := SleepTicks(ms), blocked := true);
    SwitchSpec(s.(ring := s.ring[s.cur := task]))
  }

  function TickTask(t: Task): Task {
    if t.blocked && t.sleepTicks > 0
    then t.(sleepTicks := t.sleepTicks - 1, blocked := t.sleepTicks != 1)
    else t
  }

  function TickSpec(s: Sys): (t: Sys)
    ensures |t.ring| == |s.ring|
  {
    s.(ring := seq(|s.ring|, i requires 0 <= i < |s.ring| => TickTask(s.ring[i])), ticks := s.ticks + 1)
  }

  /** Only user tasks block; only the kernel task kills, and only user tasks. */
  predicate Enabled(s: Sys, e: Event)
    requires s.cur < |s.ring|
  {
    match e
    case Kill(id) => s.cur == 0 && id >= 2 && s.ring[0].id == 0
    case Sleep(_) => s.ring[s.cur].id >= 2
    case Block => s.ring[s.cur].id >= 2
    case _ => true
  }

  function Step(s: Sys, e: Event): (t: Sys)
    requires s.cur < |s.ring|
    ensures t.cur < |t.ring|
  {
    if !Enabled(s, e) then s else
    match e
    case Create(m) => CreateSpec(s, m)
    case Kill(id) => KillSpec(s, id)
    case Wake(id) => WakeSpec(s, id)
    case Sleep(ms) => SleepSpec(s, ms)
    case Block => BlockSpec(s)
    case Timer => SwitchSpec(TickSpec(s))
    case Yield => SwitchSpec(s)
  }

  function Run(s: Sys, es: seq<Event>): (t: Sys)
    requires s.cur < |s.ring|
    ensures t.cur < |t.ring|
    decreases |es|
  {
    if es == [] then s else Run(Step(s, es[0]), es[1..])
  }

  /** What `init_tasking` and the first `create_task` leave behind. */
  function Boot(kernel: Memory, background: Memory): Sys {
    CreateSpec(Sys([Task(0, false, 0, kernel)], 0, 1, 0), background)
  }
}
