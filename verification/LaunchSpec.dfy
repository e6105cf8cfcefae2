/** Launching and killing programs as seen by the kernel heap: the three blocks
    `api_exec_app` takes, the raw pointer it stashes in front of the page-aligned
    image, and the three frees of `kill_task_by_id`. */
module LaunchSpec {
  import opened HeapSpec
  import opened HeapProofs
  import opened SchedSpec

  const PAGE: nat := 4096
  const IMAGE: nat := 65536          // bytes of one program image
  const TASK_SIZE: nat := 300        // sizeof(task_t) on i386
  const STACK_SIZE: nat := 8192

  /** One running program: its addresses, and the sizes of the blocks behind them. */
  datatype Proc = Proc(memory: Memory, raw: nat, rawSize: nat, taskSize: nat, stackSize: nat)

  /** `stash` holds the words written in front of images, by address. */
  datatype KState = KState(heap: HeapSpec.State, stash: map<nat, nat>, procs: map<nat, Proc>, nextPid: nat)

  /** `(raw + 4096) & 0xFFFFF000` */
  function AlignImage(raw: nat): (app: nat)
    ensures app % PAGE == 0 && raw < app <= raw + PAGE
    ensures raw % 4 == 0 ==> raw + 4 <= app
  {
    (raw + PAGE) / PAGE * PAGE
  }

  /** The blocks a program owns, as (address, size) pairs. */
  function Cells(p: Proc): set<(int, nat)> {
    {(p.raw - HEADER, p.rawSize), (p.memory.taskPtr - HEADER, p.taskSize), (p.memory.stackBase - HEADER, p.stackSize)}
  }

  ghost predicate Holds(k: KState, p: Proc) {
    && p.raw >= HEADER && p.memory.taskPtr >= HEADER && p.memory.stackBase >= HEADER
    && p.raw != p.memory.taskPtr && p.raw != p.memory.stackBase && p.memory.taskPtr != p.memory.stackBase
    && Cells(p) <= Allocated(k.heap.blocks)
    && p.memory.appBase == AlignImage(p.raw)
    && p.memory.appBase - 4 in k.stash && k.stash[p.memory.appBase - 4] == p.raw
    // the stashed word and the whole image lie inside the raw block
    && p.raw <= p.memory.appBase - 4 && p.memory.appBase + IMAGE <= p.raw + p.rawSize
  }

  ghost predicate WF(k: KState) {
    && HeapSpec.Inv(k.heap)
    && (forall id :: id in k.procs ==> Holds(k, k.procs[id]) && id < k.nextPid)
    && (forall i, j :: i in k.procs && j in k.procs && i != j ==> Cells(k.procs[i]) !! Cells(k.procs[j]))
  }

  /** Allocated blocks that belong to no running program. */
  ghost function Rest(k: KState): set<(int, nat)> {
    set x | x in Allocated(k.heap.blocks) && forall id :: id in k.procs ==> x !in Cells(k.procs[id])
  }

  /** The three allocations of a launch: states after each, and the pointers. */
  function Grab(h: HeapSpec.State): (HeapSpec.State, nat, nat, nat)
    requires HeapSpec.Inv(h)
  {
    MallocKeepsInv(h, IMAGE + PAGE);
    var (h1, raw) := MallocSpec(h, IMAGE + PAGE);
    MallocKeepsInv(h1, TASK_SIZE);
    var (h2, task) := MallocSpec(h1, TASK_SIZE);
    var (h3, stack) := MallocSpec(h2, STACK_SIZE);
    (h3, raw, task, stack)
  }

  predicate CanLaunch(h: HeapSpec.State)
    requires HeapSpec.Inv(h)
  {
    var (_, raw, task, stack) := Grab(h);
    raw != 0 && task != 0 && stack != 0
  }

  /** The bookkeeping of a launch once the blocks are there. */
  function Placed(k: KState, h: HeapSpec.State, raw: nat, task: nat, stack: nat): KState {
    var app := AlignImage(raw);
    var p := Proc(Memory(task, stack, app), raw,
                  SizeAt(h.blocks, raw), SizeAt(h.blocks, task), SizeAt(h.blocks, stack));
    KState(h, k.stash[app - 4 := raw], k.procs[k.nextPid := p], k.nextPid + 1)
  }

  function Launched(k: KState): KState
    requires HeapSpec.Inv(k.heap) && CanLaunch(k.heap)
  {
    var (h, raw, task, stack) := Grab(k.heap);
    Placed(k, h, raw, task, stack)
  }

  /** The frees of `kill_task_by_id`, in its order. */
  function KillFrees(h: HeapSpec.State, m: Memory, stashed: nat): HeapSpec.State {
    FreeSpec(FreeSpec(FreeSpec(h, m.stackBase), stashed), m.taskPtr)
  }

  function Killed(k: KState, id: nat): KState
    requires id in k.procs && k.procs[id].memory.appBase - 4 in k.stash
  {
    var m := k.procs[id].memory;
    k.(heap := KillFrees(k.heap, m, k.stash[m.appBase - 4]), procs := k.procs - {id})
  }
}

/** Launch and kill conserve the heap, over every run. */
module LaunchProofs {
  import opened HeapSpec
  import opened HeapProofs
  import opened SchedSpec
  import opened LaunchSpec

  lemma CellIsLive(bs: seq<Block>, ptr: nat, size: nat)
    requires Tiles(bs) && ptr >= HEADER && (ptr - HEADER, size) in Allocated(bs)
    ensures Live(bs, ptr) && SizeAt(bs, ptr) == size
  {
    var i := AllocatedAt(bs, (ptr - HEADER, size));
    SizeAtIs(bs, i);
  }

  lemma PointerIsAligned(bs: seq<Block>, i: nat)
    requires Tiles(bs) && WordSized(bs) && i < |bs|
    ensures bs[i].addr % 4 == 0
  {
    if i > 0 { PointerIsAligned(bs, i - 1); }
  }

  /** What one allocation of a launch does: a new cell of at least the size asked for. */
  ghost predicate Grows(h: HeapSpec.State, t: HeapSpec.State, ptr: nat, size: nat) {
    && Tiles(t.blocks) && ptr >= HEADER && ptr % 4 == 0
    && SizeAt(t.blocks, ptr) >= size
    && Allocated(t.blocks) == Allocated(h.blocks) + {(ptr - HEADER, SizeAt(t.blocks, ptr))}
    && forall p :: p in Allocated(h.blocks) ==> p.0 != ptr - HEADER
  }

  lemma AllocatedAligned(bs: seq<Block>, ptr: nat, size: nat)
    requires Tiles(bs) && WordSized(bs) && ptr >= HEADER && (ptr - HEADER, size) in Allocated(bs)
    ensures ptr % 4 == 0
  {
    var i := AllocatedAt(bs, (ptr - HEADER, size));
    PointerIsAligned(bs, i);
  }

  lemma GrabOne(h: HeapSpec.State, size: nat, t: HeapSpec.State, ptr: nat)
    requires HeapSpec.Inv(h) && size < WORD - 3 && (t, ptr) == MallocSpec(h, size) && ptr != 0
    ensures HeapSpec.Inv(t) && Grows(h, t, ptr, size)
  {
    hide MallocSpec, SizeAt, Allocated, Tiles, WordSized, Coalesced, UsedBytes;
    MallocKeepsInv(h, size);
    MallocAllocated(h, size);
    AllocatedAligned(t.blocks, ptr, SizeAt(t.blocks, ptr));
  }

  lemma GrowsThrice(h: HeapSpec.State, h1: HeapSpec.State, h2: HeapSpec.State, t: HeapSpec.State, raw: nat, task: nat,
                    stack: nat)
    requires Grows(h, h1, raw, IMAGE + PAGE) && Grows(h1, h2, task, TASK_SIZE) && Grows(h2, t, stack, STACK_SIZE)
    ensures Taken(h, t, raw, task, stack)
  {
    CellIsLive(t.blocks, raw, SizeAt(h1.blocks, raw));
    CellIsLive(t.blocks, task, SizeAt(h2.blocks, task));
  }

  /** The three allocations together. */
  ghost predicate Taken(h: HeapSpec.State, t: HeapSpec.State, raw: nat, task: nat, stack: nat) {
    && raw >= HEADER && task >= HEADER && stack >= HEADER && raw % 4 == 0
    && raw != task && raw != stack && task != stack
    && SizeAt(t.blocks, raw) >= IMAGE + PAGE
    && Allocated(t.blocks) == Allocated(h.blocks) +
         {(raw - HEADER, SizeAt(t.blocks, raw)), (task - HEADER, SizeAt(t.blocks, task)),
             (stack - HEADER, SizeAt(t.blocks, stack))}
    && forall p :: p in Allocated(h.blocks) ==> p.0 != raw - HEADER && p.0 != task - HEADER && p.0 != stack - HEADER
  }

  lemma GrabAll(h: HeapSpec.State, t: HeapSpec.State, raw: nat, task: nat, stack: nat)
    requires HeapSpec.Inv(h) && (t, raw, task, stack) == Grab(h) && raw != 0 && task != 0 && stack != 0
    ensures HeapSpec.Inv(t) && Taken(h, t, raw, task, stack)
  {
    var h1 := MallocSpec(h, IMAGE + PAGE).0;
    GrabOne(h, IMAGE + PAGE, h1, raw);
    var h2 := MallocSpec(h1, TASK_SIZE).0;
    GrabOne(h1, TASK_SIZE, h2, task);
    GrabOne(h2, STACK_SIZE, t, stack);
    GrowsThrice(h, h1, h2, t, raw, task, stack);
  }

  /** Images of different programs start at different addresses. */
  lemma ImagesApart(bs: seq<Block>, a: (nat, nat), b: (nat, nat), x: nat)
    requires Tiles(bs) && a in Allocated(bs) && b in Allocated(bs) && a != b
    requires a.0 + HEADER <= x < a.0 + HEADER + a.1
    ensures !(b.0 + HEADER <= x < b.0 + HEADER + b.1)
  {
    var i := AllocatedAt(bs, a);
    var j := AllocatedAt(bs, b);
    PayloadsDisjoint(bs, i, j, x);
  }

  /** What a program holds stays held when the heap takes more blocks. */
  lemma HoldsKept(k: KState, q: Proc, t: KState, app: nat)
    requires Holds(k, q) && Allocated(k.heap.blocks) <= Allocated(t.heap.blocks)
    requires app != q.memory.appBase && app >= 4
    requires t.stash == k.stash[app - 4 := (if app - 4 in t.stash then t.stash[app - 4] else 0)]
    ensures Holds(t, q)
  {
  }

  /** A launch takes exactly three new blocks; the stashed pointer and the 64 KB
      image fit inside the first of them; every other program keeps what it holds. */
  lemma LaunchKeepsWF(k: KState)
    requires WF(k) && CanLaunch(k.heap)
    ensures var t := Launched(k);
      && WF(t) && k.nextPid in t.procs && Rest(t) == Rest(k)
      && Allocated(t.heap.blocks) == Allocated(k.heap.blocks) + Cells(t.procs[k.nextPid])
      && Allocated(k.heap.blocks) !! Cells(t.procs[k.nextPid])
  {
    var (h, raw, task, stack) := Grab(k.heap);
    GrabAll(k.heap, h, raw, task, stack);
    TakenKeepsWF(k, h, raw, task, stack);
  }

  /** Adding one program together with its cells leaves the rest as it was. */
  lemma RestGrown(small: KState, big: KState, id: nat)
    requires id in big.procs && small.procs == big.procs - {id}
    requires Allocated(big.heap.blocks) == Allocated(small.heap.blocks) + Cells(big.procs[id])
    requires Allocated(small.heap.blocks) !! Cells(big.procs[id])
    ensures Rest(big) == Rest(small)
  {
    forall x | x in Rest(big) ensures x in Rest(small) {
      assert x !in Cells(big.procs[id]);
      forall j | j in small.procs ensures x !in Cells(small.procs[j]) {
        assert j in big.procs && small.procs[j] == big.procs[j];
      }
    }
    forall x | x in Rest(small) ensures x in Rest(big) {
      forall j | j in big.procs ensures x !in Cells(big.procs[j]) {
        if j != id { assert j in small.procs && small.procs[j] == big.procs[j]; }
      }
    }
  }

  lemma NewHolds(k: KState, h: HeapSpec.State, raw: nat, task: nat, stack: nat)
    requires Taken(k.heap, h, raw, task, stack)
    ensures var t := Placed(k, h, raw, task, stack); Holds(t, t.procs[k.nextPid])
  {
  }

  lemma OtherHolds(k: KState, t: KState, p: Proc, q: Proc)
    requires Holds(k, q) && Holds(t, p) && Tiles(t.heap.blocks)
    requires Allocated(k.heap.blocks) <= Allocated(t.heap.blocks) && Allocated(k.heap.blocks) !! Cells(p)
    requires t.stash == k.stash[p.memory.appBase - 4 := p.raw]
    ensures Holds(t, q) && Cells(q) !! Cells(p)
  {
    var a, b := (p.raw - HEADER, p.rawSize), (q.raw - HEADER, q.rawSize);
    assert a in Cells(p) && b in Cells(q);
    ImagesApart(t.heap.blocks, a, b, p.memory.appBase - 4);
    HoldsKept(k, q, t, p.memory.appBase);
  }

  lemma TakenCells(k: KState, h: HeapSpec.State, raw: nat, task: nat, stack: nat)
    requires Taken(k.heap, h, raw, task, stack)
    ensures var p := Placed(k, h, raw, task, stack).procs[k.nextPid];
      && Allocated(h.blocks) == Allocated(k.heap.blocks) + Cells(p)
      && Allocated(k.heap.blocks) !! Cells(p)
  {
  }

  lemma WFFacts(k: KState)
    requires WF(k)
    ensures HeapSpec.Inv(k.heap) && k.nextPid !in k.procs
  {
  }

  lemma TakenKeepsWF(k: KState, h: HeapSpec.State, raw: nat, task: nat, stack: nat)
    requires WF(k) && HeapSpec.Inv(h) && Taken(k.heap, h, raw, task, stack)
    ensures var t := Placed(k, h, raw, task, stack);
      && WF(t) && k.nextPid in t.procs && Rest(t) == Rest(k)
      && Allocated(h.blocks) == Allocated(k.heap.blocks) + Cells(t.procs[k.nextPid])
      && Allocated(k.heap.blocks) !! Cells(t.procs[k.nextPid])
  {
    hide Rest, Holds, Allocated, Taken, Tiles, Cells, SizeAt, Coalesced, WordSized, UsedBytes;
    TakenCells(k, h, raw, task, stack);
    NewHolds(k, h, raw, task, stack);
    var t := Placed(k, h, raw, task, stack);
    Grown(k, t, t.procs[k.nextPid]);
  }

  /** `t` is `k` after the program `p` was placed. */
  ghost predicate Extends(k: KState, t: KState, p: Proc) {
    && t.procs == k.procs[k.nextPid := p] && t.nextPid == k.nextPid + 1
    && Tiles(t.heap.blocks) && Holds(t, p)
    && t.stash == k.stash[p.memory.appBase - 4 := p.raw]
    && Allocated(t.heap.blocks) == Allocated(k.heap.blocks) + Cells(p)
    && Allocated(k.heap.blocks) !! Cells(p)
  }

  lemma OthersHold(k: KState, t: KState, p: Proc)
    requires WF(k) && Extends(k, t, p)
    ensures forall id :: id in k.procs ==> Holds(t, k.procs[id]) && Cells(k.procs[id]) !! Cells(p)
  {
    forall id | id in k.procs ensures Holds(t, k.procs[id]) && Cells(k.procs[id]) !! Cells(p) {
      assert Holds(k, k.procs[id]);
      OtherHolds(k, t, p, k.procs[id]);
    }
  }

  lemma Grown(k: KState, t: KState, p: Proc)
    requires WF(k) && HeapSpec.Inv(t.heap) && Extends(k, t, p)
    ensures WF(t) && Rest(t) == Rest(k)
  {
    OthersHold(k, t, p);
    assert k.nextPid !in k.procs;
    MapUndo(k.procs, k.nextPid, p);
    RestGrown(k, t, k.nextPid);
  }

  lemma MapUndo<K, V>(m: map<K, V>, key: K, value: V)
    requires key !in m
    ensures m[key := value] - {key} == m
  {
  }

  lemma FreeCell(h: HeapSpec.State, ptr: nat, size: nat)
    requires HeapSpec.Inv(h) && ptr >= HEADER && (ptr - HEADER, size) in Allocated(h.blocks)
    ensures Live(h.blocks, ptr)
    ensures HeapSpec.Inv(FreeSpec(h, ptr))
    ensures Allocated(FreeSpec(h, ptr).blocks) == Allocated(h.blocks) - {(ptr - HEADER, size)}
  {
    CellIsLive(h.blocks, ptr, size);
    FreeKeepsInv(h, ptr);
  }

  /** The three frees release three distinct blocks. */
  lemma FreeThrice(h: HeapSpec.State, p: Proc)
    requires HeapSpec.Inv(h) && p.raw >= HEADER && p.memory.taskPtr >= HEADER && p.memory.stackBase >= HEADER
    requires p.raw != p.memory.taskPtr && p.raw != p.memory.stackBase && p.memory.taskPtr != p.memory.stackBase
    requires Cells(p) <= Allocated(h.blocks)
    ensures var t := KillFrees(h, p.memory, p.raw);
      HeapSpec.Inv(t) && Allocated(t.blocks) == Allocated(h.blocks) - Cells(p)
    ensures Live(h.blocks, p.memory.stackBase)
    ensures Live(FreeSpec(h, p.memory.stackBase).blocks, p.raw)
    ensures Live(FreeSpec(FreeSpec(h, p.memory.stackBase), p.raw).blocks, p.memory.taskPtr)
  {
    hide HeapSpec.Inv, FreeSpec, Live, Allocated;
    var h1 := FreeSpec(h, p.memory.stackBase);
    FreeCell(h, p.memory.stackBase, p.stackSize);
    var h2 := FreeSpec(h1, p.raw);
    FreeCell(h1, p.raw, p.rawSize);
    FreeCell(h2, p.memory.taskPtr, p.taskSize);
  }

  /** Releasing one program's cells leaves the others alone. */
  lemma ReleaseKeepsWF(k: KState, id: nat, h: HeapSpec.State)
    requires WF(k) && id in k.procs && HeapSpec.Inv(h)
    requires Allocated(h.blocks) == Allocated(k.heap.blocks) - Cells(k.procs[id])
    ensures var t := k.(heap := h, procs := k.procs - {id}); WF(t) && Rest(t) == Rest(k)
  {
    hide HeapSpec.Inv, Allocated, Tiles, Rest;
    var t := k.(heap := h, procs := k.procs - {id});
    forall j | j in t.procs ensures Holds(t, t.procs[j]) {
      assert Holds(k, k.procs[j]) && Cells(k.procs[j]) !! Cells(k.procs[id]);
    }
    RestGrown(t, k, id);
  }

  /** A kill frees exactly the three blocks the launch took, each of them once. */
  lemma KillKeepsWF(k: KState, id: nat)
    requires WF(k) && id in k.procs
    ensures Holds(k, k.procs[id])
    ensures var t := Killed(k, id);
      && WF(t) && Rest(t) == Rest(k)
      && Allocated(t.heap.blocks) == Allocated(k.heap.blocks) - Cells(k.procs[id])
  {
    hide FreeSpec;
    assert Holds(k, k.procs[id]);
    FreeThrice(k.heap, k.procs[id]);
    ReleaseKeepsWF(k, id, Killed(k, id).heap);
  }

  datatype Op = Exec | KillPid(id: nat)

  ghost function Step(k: KState, op: Op): (t: KState)
    requires WF(k)
    ensures WF(t) && Rest(t) == Rest(k)
  {
    match op
    case Exec =>
      if CanLaunch(k.heap) then LaunchKeepsWF(k); Launched(k) else k
    case KillPid(id) =>
      if id in k.procs then KillKeepsWF(k, id); Killed(k, id) else k
  }

  ghost function Run(k: KState, ops: seq<Op>): (t: KState)
    requires WF(k)
    ensures WF(t) && Rest(t) == Rest(k)
    decreases |ops|
  {
    if ops == [] then k else Run(Step(k, ops[0]), ops[1..])
  }

  lemma AllocatedSplits(k: KState)
    requires WF(k)
    ensures Allocated(k.heap.blocks) == Rest(k) + set id, x | id in k.procs && x in Cells(k.procs[id]) :: x
  {
    forall id, x | id in k.procs && x in Cells(k.procs[id]) ensures x in Allocated(k.heap.blocks) {
      assert Holds(k, k.procs[id]);
    }
  }

  /** The running programs and what belongs to nobody determine the block list. */
  lemma SameProgramsSameHeap(k: KState, t: KState)
    requires WF(k) && WF(t) && Rest(t) == Rest(k) && t.procs == k.procs
    ensures t.heap.blocks == k.heap.blocks && t.heap.used == k.heap.used
  {
    AllocatedSplits(k);
    AllocatedSplits(t);
    Canonical(t.heap.blocks, k.heap.blocks);
  }

  /** Conservation: any mix of launches and kills that ends with the programs it
      started with ends with the very block list it started with. */
  lemma RunConserves(k: KState, ops: seq<Op>)
    requires WF(k) && Run(k, ops).procs == k.procs
    ensures Run(k, ops).heap.blocks == k.heap.blocks && Run(k, ops).heap.used == k.heap.used
  {
    SameProgramsSameHeap(k, Run(k, ops));
  }

  lemma RunTwo(k: KState, a: Op, b: Op)
    requires WF(k)
    ensures Run(k, [a, b]) == Step(Step(k, a), b)
  {
    assert [a, b][1..] == [b];
    assert [b][1..] == [];
    assert Run(Step(k, a), [b]) == Run(Step(Step(k, a), b), []);
  }

  /** In particular a launch followed by the kill of that program. */
  lemma LaunchThenKill(k: KState)
    requires WF(k) && CanLaunch(k.heap)
    ensures var t := Run(k, [Exec, KillPid(k.nextPid)]);
      t.heap.blocks == k.heap.blocks && t.heap.used == k.heap.used && t.procs == k.procs
  {
    var ops := [Exec, KillPid(k.nextPid)];
    var l := Step(k, Exec);
    LaunchKeepsWF(k);
    RunTwo(k, Exec, KillPid(k.nextPid));
    MapUndo(k.procs, k.nextPid, l.procs[k.nextPid]);
    RunConserves(k, ops);
  }
}
