/** The task ring of src/task.c, src/timer.c and src/boot.asm on linked nodes. */
module Scheduler {
  import opened SchedSpec
  import opened SchedProofs

  /** The fields of `task_t` the scheduler reads; `state` 1 is blocked. */
  class TaskNode {
    const id: nat
    const memory: Memory
    var next: TaskNode
    var state: nat
    var sleepTicks: nat

    constructor (id: nat, memory: Memory)
      ensures this.id == id && this.memory == memory && state == 0 && sleepTicks == 0
    {
      this.id := id;
      this.memory := memory;
      next := this;
      state := 0;
      sleepTicks := 0;
    }

    /** The body of the sweep: count down, wake at zero. */
    method Tick()
      modifies this`state, this`sleepTicks
      ensures Info() == TickTask(old(Info()))
    {
      if state == 1 && sleepTicks > 0 {
        sleepTicks := sleepTicks - 1;
        if sleepTicks == 0 { state := 0; }
      }
    }

    function Info(): Task
      reads this
    {
      Task(id, state == 1, sleepTicks, memory)
    }
  }

  class Ring {
    var readyQueue: TaskNode
    var currentTask: TaskNode
    var nextPid: nat
    var timerTicks: nat
    ghost var nodes: seq<TaskNode>   // the ring in `next` order from `readyQueue`
    ghost var cur: nat

    /** The list is one simple cycle through `readyQueue` that holds `currentTask`. */
    ghost predicate Cyclic()
      reads this, nodes
    {
      && cur < |nodes|
      && readyQueue == nodes[0] && currentTask == nodes[cur]
      && (forall i, j :: 0 <= i < j < |nodes| ==> nodes[i] != nodes[j])
      && (forall i :: 0 <= i < |nodes| ==> nodes[i].next == nodes[Succ(|nodes|, i)])
    }

    ghost function View(): Sys
      reads this, nodes
    {
      Sys(seq(|nodes|, i requires 0 <= i < |nodes| reads this, nodes => nodes[i].Info()), cur, nextPid, timerTicks)
    }

    ghost predicate Valid()
      reads this, nodes
    {
      Cyclic() && Inv(View())
    }

    /** `init_tasking` */
    constructor (memory: Memory)
      ensures Valid() && fresh(nodes)
      ensures View() == Sys([Task(0, false, 0, memory)], 0, 1, 0)
    {
      var kernel := new TaskNode(0, memory);
      readyQueue := kernel;
      currentTask := kernel;
      nextPid := 1;
      timerTicks := 0;
      nodes := [kernel];
      cur := 0;
      new;
      kernel.next := kernel;
    }

    /** The list insertion at the end of `create_task`. */
    method CreateTask(memory: Memory) returns (pid: nat)
      requires Valid()
      modifies this, nodes
      ensures Valid() && |nodes| > 1 && fresh(nodes[1])
      ensures nodes == [old(nodes)[0], nodes[1]] + old(nodes)[1..]
      ensures View() == CreateSpec(old(View()), memory) && pid == old(nextPid)
    {
      hide Inv;
      StepKeepsInv(View(), Create(memory));
      ghost var was := nodes;
      var task := new TaskNode(nextPid, memory);
      nextPid := nextPid + 1;
      task.next := readyQueue.next;
      readyQueue.next := task;
      nodes := [nodes[0], task] + nodes[1..];
      cur := if cur == 0 then 0 else cur + 1;
      pid := task.id;
      assert View().ring == CreateSpec(old(View()), memory).ring;
    }

    /** The unlinking part of `kill_task_by_id`: the removed task, or null. */
    method KillTask(id: nat) returns (victim: TaskNode?)
      requires Valid() && cur == 0 && id >= 2
      modifies this, nodes
      ensures Valid() && forall n :: n in nodes ==> n in old(nodes)
      ensures View() == KillSpec(old(View()), id)
      ensures var i := IndexOf(old(View()).ring, id);
        && (victim == null <==> i == |old(nodes)|)
        && (victim != null ==> (
              && victim == old(nodes)[i] && victim !in nodes
              && victim.id == id && victim.memory == old(View()).ring[i].memory))
    {
      ghost var ring := View().ring;
      victim := null;
      var curr := readyQueue;
      ghost var i := 0;
      while true
        invariant i < |nodes| && curr == nodes[i]
        invariant forall k :: 0 <= k <= i ==> nodes[k].id != id
        decreases |nodes| - i
      {
        if curr.next.id == id {
          IndexUnique(ring, i + 1);
          victim := Unlink(curr, i);
          return;
        }
        curr := curr.next;
        i := i + 1;
        if curr == readyQueue { break; }
      }
      assert IndexOf(ring, id) == |nodes|;
    }

    method Unlink(curr: TaskNode, ghost i: nat) returns (victim: TaskNode)
      requires Valid() && cur == 0 && i + 1 < |nodes| && curr == nodes[i]
      requires nodes[i + 1].id >= 2
      modifies this`nodes, curr`next
      ensures Valid() && victim == old(nodes)[i + 1] && victim !in nodes
      ensures nodes == Without(old(nodes), i + 1)
      ensures View() == old(View()).(ring := Without(old(View()).ring, i + 1))
    {
      hide Inv;
      ghost var s, was := View(), nodes;
      victim := curr.next;
      Unlinkable(i);
      // The source would move `ready_queue` on here; the head is task 0, never the victim.
      assert readyQueue != victim;
      curr.next := victim.next;
      nodes := Without(nodes, i + 1);
      forall k | 0 <= k < |nodes| ensures nodes[k].next == nodes[Succ(|nodes|, k)] {
        if k < i { assert was[k].next == was[k + 1]; }
        if k > i { assert was[k + 1].next == was[Succ(|was|, k + 1)]; }
      }
      assert View().ring == Without(s.ring, i + 1);
    }

    /** A user task may be taken out of the ring. */
    lemma Unlinkable(i: nat)
      requires Valid() && cur == 0 && i + 1 < |nodes| && nodes[i + 1].id >= 2
      ensures Inv(View().(ring := Without(View().ring, i + 1)))
    {
      var s := View();
      IndexUnique(s.ring, i + 1);
      KillKeepsInv(s, s.ring[i + 1].id);
    }

    /** `wake_task_by_id`; leaves `sleepTicks` as it is. */
    method Wake(id: nat)
      requires Valid()
      modifies nodes`state, nodes`sleepTicks
      ensures Valid()
      ensures View() == WakeSpec(old(View()), id)
    {
      hide Inv;
      StepKeepsInv(View(), SchedSpec.Event.Wake(id));
      DistinctIds(View());
      ghost var ring := View().ring;
      var curr := readyQueue;
      ghost var i := 0;
      while true
        invariant i < |nodes| && curr == nodes[i]
        invariant forall k :: 0 <= k < i ==> nodes[k].id != id
        decreases |nodes| - i
      {
        if curr.id == id {
          IndexUnique(ring, i);
          curr.state := 0;
          assert View().ring == ring[i := ring[i].(blocked := false)];
          return;
        }
        curr := curr.next;
        i := i + 1;
        if curr == readyQueue { break; }
      }
      assert IndexOf(ring, id) == |nodes|;
    }

    /** The state change of `api_get_key` and `kernel_read_keyboard`. */
    method Block()
      requires Valid() && currentTask.id >= 2
      modifies currentTask`state
      ensures Valid()
      ensures View() == BlockSpec(old(View()))
    {
      hide Inv;
      StepKeepsInv(View(), SchedSpec.Event.Block);
      currentTask.state := 1;
      assert View().ring == BlockSpec(old(View())).ring;
    }

    /** `sleep_task`, up to and including the `yield` at its end. */
    method Sleep(ms: nat)
      requires Valid() && currentTask.id >= 2
      modifies this, nodes
      ensures Valid() && nodes == old(nodes)
      ensures View() == SleepSpec(old(View()), ms)
    {
      var ticks := ms / 10;
      if ticks == 0 { ticks := 1; }
      currentTask.sleepTicks := ticks;
      currentTask.state := 1;
      ghost var s := old(View());
      assert View().ring == s.ring[cur := s.ring[cur].(sleepTicks := SleepTicks(ms), blocked := true)];
      Switch();
    }

    /** `timer_handler_main` */
    method TimerSweep()
      requires Valid()
      modifies this`timerTicks, nodes`state, nodes`sleepTicks
      ensures Valid()
      ensures View() == TickSpec(old(View()))
    {
      hide Inv;
      ghost var s := View();
      timerTicks := timerTicks + 1;
      Sweep();
      assert View().ring == TickSpec(s).ring;
      TickKeepsInv(s);
    }

    /** One round of the ring, ticking every task once. */
    method Sweep()
      requires Cyclic()
      modifies nodes`state, nodes`sleepTicks
      ensures Cyclic()
      ensures forall k :: 0 <= k < |nodes| ==> nodes[k].Info() == TickTask(old(nodes[k].Info()))
    {
      var curr := readyQueue;
      ghost var i := 0;
      while true
        invariant i < |nodes| && curr == nodes[i]
        invariant forall k :: 0 <= k < i ==> nodes[k].Info() == TickTask(old(nodes[k].Info()))
        invariant forall k :: i <= k < |nodes| ==> nodes[k].Info() == old(nodes[k].Info())
        decreases |nodes| - i
      {
        curr.Tick();
        curr := curr.next;
        i := i + 1;
        if curr == readyQueue { break; }
      }
      assert i == |nodes|;
    }

    /** The next-task loop of `yield_handler` and `timer_handler`. It stops because
        the kernel task is in the ring and never blocked. */
    method Switch()
      requires Valid()
      modifies this`currentTask, this`cur
      ensures Valid()
      ensures View() == SwitchSpec(old(View()))
      ensures currentTask.state != 1
    {
      hide Inv;
      ghost var s := View();
      SwitchPicksRunnable(s);
      ghost var left: nat := |nodes|;
      var eax := currentTask;
      ghost var at: nat := cur;
      while true
        invariant at < |nodes| && eax == nodes[at]
        invariant Skip(s.ring, Succ(|nodes|, at), left) == SwitchSpec(s).cur
        decreases left
      {
        var ebx := eax.next;
        at := Succ(|nodes|, at);
        currentTask := ebx;
        cur := at;
        if ebx.state != 1 { break; }
        assert s.ring[at].blocked;
        eax := ebx;
        left := left - 1;
      }
      assert View().ring == s.ring;
    }

    /** IRQ0: the sweep, then the switch. */
    method TimerInterrupt()
      requires Valid()
      modifies this, nodes
      ensures Valid() && nodes == old(nodes)
      ensures View() == Step(old(View()), Timer)
    {
      TimerSweep();
      Switch();
    }
  }

  lemma DistinctIds(s: Sys)
    requires Inv(s)
    ensures forall a, b :: 0 <= a < b < |s.ring| ==> s.ring[a].id != s.ring[b].id
  {
  }
}
