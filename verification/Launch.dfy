/** Program launch (src/kernel.c, src/task.c) on the kernel heap and the task ring. */
module Launch {
  import opened HeapSpec
  import opened HeapProofs
  import opened SchedSpec
  import SchedProofs
  import opened LaunchSpec
  import opened LaunchProofs
  import LaunchRoom
  import opened SystemProofs
  import opened KernelHeap
  import opened Scheduler

  class Kernel {
    const heap: Heap
    const ring: Ring
    var stash: map<nat, nat>       // words written in front of program images
    ghost var k: KState

    ghost predicate Valid()
      reads this, heap, ring, ring.nodes
    {
      heap.Valid() && ring.Valid() && Agrees(k, heap.state, stash, ring.View())
    }

    /** `init_heap`, `init_tasking` and the first `create_task`, in that order. */
    constructor Boot()
      ensures fresh(heap) && fresh(ring) && fresh(ring.nodes)
      ensures Valid() && k.procs == map[] && ring.cur == 0 && heap.state == LaunchRoom.BootHeap()
    {
      hide MallocSpec, HeapSpec.Inv, SchedSpec.Inv, Linked, WF, Runs, Ring.Cyclic;
      var h := new Heap();
      var task0 := h.Malloc(TASK_SIZE);
      var r := new Ring(Memory(task0, 0, 0));
      var task1 := h.Malloc(TASK_SIZE);
      var stack1 := h.Malloc(STACK_SIZE);
      var pid := r.CreateTask(Memory(task1, stack1, 0));
      assert r.View() == SchedSpec.Boot(Memory(task0, 0, 0), Memory(task1, stack1, 0));
      heap := h;
      ring := r;
      stash := map[];
      k := KState(h.state, map[], map[], 2);
      new;
      BootAgrees(heap.state, Memory(task0, 0, 0), Memory(task1, stack1, 0));
    }

    /** `api_exec_app` from the allocation on, with the allocations and the list
        insertion of `create_task`. What follows a failed allocation is not modelled. */
    method Exec() returns (pid: nat)
      requires Valid()
      modifies this, heap, ring, ring.nodes
      ensures CanLaunch(old(heap.state)) ==>
        && Valid() && k == Launched(old(k)) && pid == old(ring.nextPid) && pid in k.procs
        && ring.View() == CreateSpec(old(ring.View()), k.procs[pid].memory)
    {
      hide MallocSpec, WF, Runs, HeapSpec.Inv, SchedSpec.Inv, CreateSpec, Launched, Linked, Ring.Cyclic;
      ghost var was, view := k, ring.View();
      var rawMem := heap.Malloc(IMAGE + PAGE);
      var appMemory := AlignImage(rawMem);
      stash := stash[appMemory - 4 := rawMem];
      var newTask := heap.Malloc(TASK_SIZE);
      var stack := heap.Malloc(STACK_SIZE);
      pid := ring.CreateTask(Memory(newTask, stack, appMemory));
      assert (heap.state, rawMem, newTask, stack) == Grab(was.heap);
      if CanLaunch(was.heap) {
        ExecAgrees(was, view, heap.state, rawMem, newTask, stack);
        k := Launched(was);
      }
    }

    /** `kill_task_by_id` as the main loop runs it: on the kernel task, for a user id. */
    method Kill(id: nat)
      requires Valid() && ring.cur == 0 && id >= 2
      modifies this, heap, ring, ring.nodes
      ensures Valid()
      ensures k == if id in old(k.procs) then Killed(old(k), id) else old(k)
      ensures ring.View() == KillSpec(old(ring.View()), id)
    {
      hide FreeSpec, KillSpec, WF, Runs, Holds, HeapSpec.Inv, SchedSpec.Inv, Cells, Live, Linked, Ring.Cyclic;
      KillAgrees(k, ring.View(), id);
      var target := ring.KillTask(id);
      if target != null {
        heap.Free(target.memory.stackBase);
        var originalPtr := stash[target.memory.appBase - 4];
        heap.Free(originalPtr);
        heap.Free(target.memory.taskPtr);
        k := Killed(k, id);
      }
    }

    // ---------------------------------------------------------------- the scheduler in between

    /** IRQ0: sweep and switch. The programs stay as they are. */
    method TimerInterrupt()
      requires Valid()
      modifies ring, ring.nodes
      ensures Valid() && k == old(k)
      ensures ring.View() == SchedSpec.Step(old(ring.View()), Timer)
    {
      hide WF, Runs, HeapSpec.Inv, SchedSpec.Inv, SchedSpec.Step, Linked, Ring.Cyclic, Ring.View;
      ScheduleAgrees(k, heap.state, stash, ring.View(), Timer);
      ring.TimerInterrupt();
    }

    /** int 129: a switch. */
    method Yield()
      requires Valid()
      modifies ring, ring.nodes
      ensures Valid() && k == old(k)
      ensures ring.View() == SchedSpec.Step(old(ring.View()), SchedSpec.Event.Yield)
    {
      hide WF, Runs, HeapSpec.Inv, SchedSpec.Inv, SwitchSpec, Linked, Ring.Cyclic, Ring.View;
      ScheduleAgrees(k, heap.state, stash, ring.View(), SchedSpec.Event.Yield);
      ring.Switch();
    }

    /** `sleep_task` by the current user task. */
    method Sleep(ms: nat)
      requires Valid() && ring.currentTask.id >= 2
      modifies ring, ring.nodes
      ensures Valid() && k == old(k)
      ensures ring.View() == SchedSpec.Step(old(ring.View()), SchedSpec.Event.Sleep(ms))
    {
      hide WF, Runs, HeapSpec.Inv, SchedSpec.Inv, SleepSpec, Linked;
      ScheduleAgrees(k, heap.state, stash, ring.View(), SchedSpec.Event.Sleep(ms));
      ring.Sleep(ms);
    }

    /** `wake_task_by_id` */
    method Wake(id: nat)
      requires Valid()
      modifies ring.nodes
      ensures Valid() && k == old(k)
      ensures ring.View() == SchedSpec.Step(old(ring.View()), SchedSpec.Event.Wake(id))
    {
      hide WF, Runs, HeapSpec.Inv, SchedSpec.Inv, WakeSpec, Linked, Ring.Cyclic, Ring.View;
      ScheduleAgrees(k, heap.state, stash, ring.View(), SchedSpec.Event.Wake(id));
      ring.Wake(id);
    }

    /** The current user task waits for a key. */
    method Block()
      requires Valid() && ring.currentTask.id >= 2
      modifies ring.nodes
      ensures Valid() && k == old(k)
      ensures ring.View() == SchedSpec.Step(old(ring.View()), SchedSpec.Event.Block)
    {
      hide WF, Runs, HeapSpec.Inv, SchedSpec.Inv, BlockSpec, Linked;
      ScheduleAgrees(k, heap.state, stash, ring.View(), SchedSpec.Event.Block);
      ring.Block();
    }
  }
}
