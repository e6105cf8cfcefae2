/** The user-space allocator of sdk/libc.c on top of `sbrk`, for all tasks at once. */
module UserHeapSpec {
  import opened HeapSpec
  import opened PagingSpec
  import opened SbrkSpec

  /** `lists[i]` holds the blocks of task `i` in the order malloc linked them behind
      `user_heap_head`, for the tasks with a directory of their own. */
  datatype World = World(tasks: Tasks, lists: seq<seq<Block>>)

  /** Blocks ascend between the heap base and the break; there may be gaps, where the
      program moved the break itself. */
  ghost predicate Placed(bs: seq<Block>, brk: nat) {
    && (forall i :: 0 <= i < |bs| ==> HEAP_BASE <= bs[i].addr && BlockEnd(bs[i]) <= brk)
    && (forall i, j :: 0 <= i < j < |bs| ==> BlockEnd(bs[i]) <= bs[j].addr)
  }

  /** The list fills the heap from its base up to the break, without gaps. */
  ghost predicate Fills(bs: seq<Block>, brk: nat) {
    && Abut(bs) && WordSized(bs)
    && (bs == [] ==> brk == HEAP_BASE)
    && (bs != [] ==> bs[0].addr == HEAP_BASE && BlockEnd(bs[|bs| - 1]) == brk)
  }

  /** What every state has, sound or not. */
  ghost predicate Shape(w: World) {
    HeapInv(w.tasks) && |w.lists| == w.tasks.sp.nextTask
  }

  ghost predicate WorldInv(w: World) {
    Shape(w) && forall i :: 0 <= i < |w.lists| ==> Placed(w.lists[i], w.tasks.brk[i])
  }

  /** The `int` that `sbrk` gets for `sizeof(struct malloc_block) + n`. */
  function Increment(n: nat): (inc: int)
    requires n < WORD
    ensures HEADER + n < 0x8000_0000 ==> inc == HEADER + n
  {
    var sum := (HEADER + n) % WORD;
    if sum < 0x8000_0000 then sum else sum - WORD
  }

  predicate NoFit(bs: seq<Block>, size: nat)
    requires size < WORD
  {
    FirstFitFrom(bs, 0, Align4(size)) == |bs|
  }

  /** If the break moves, because no free block can serve the request, it stays in the
      heap window. */
  predicate CanServe(bs: seq<Block>, tasks: Tasks, i: nat, size: nat)
    requires Shaped(tasks.sp) && i < |tasks.brk| && i < |tasks.dir| && tasks.dir[i] < 9 && size < WORD
  {
    size > 0 && NoFit(bs, size) ==> CanMove(tasks, i, Increment(Align4(size)))
  }

  /** The increment of a request that no free block serves does not wrap down into the
      heap that exists. */
  predicate Sound(bs: seq<Block>, brk: nat, size: nat)
    requires size < WORD
  {
    NoFit(bs, size) ==> HEADER + Align4(size) < WORD - (brk - HEAP_BASE)
  }

  /** The list, the address spaces and the returned pointer after a call. */
  datatype Served = Served(list: seq<Block>, tasks: Tasks, ptr: nat)

  /** `malloc(size)` in task `i`: first fit, whole block, else a block at the break. */
  function Serve(bs: seq<Block>, tasks: Tasks, i: nat, size: nat): Served
    requires HeapInv(tasks) && i < |tasks.brk| && tasks.dir[i] < 9
    requires size < WORD && CanServe(bs, tasks, i, size)
  {
    if size == 0 then Served(bs, tasks, 0) else
    var n := Align4(size);
    var k := FirstFitFrom(bs, 0, n);
    if k < |bs| then
      Served(bs[k := bs[k].(free := false)], tasks, bs[k].addr + HEADER)
    else
      var (t, oldBreak) := MoveBreak(tasks, i, Increment(n));
      Served(bs + [Block(oldBreak, n, false)], t, oldBreak + HEADER)
  }

  /** One task's `malloc` among all tasks. */
  function UserMalloc(w: World, i: nat, size: nat): (World, nat)
    requires HeapInv(w.tasks) && i < |w.lists| && i < |w.tasks.brk| && w.tasks.dir[i] < 9
    requires size < WORD && CanServe(w.lists[i], w.tasks, i, size)
  {
    var s := Serve(w.lists[i], w.tasks, i, size);
    (World(s.tasks, w.lists[i := s.list]), s.ptr)
  }

  /** `free(ptr)` in task `i`: mark the block, merge nothing. */
  function UserFree(w: World, i: nat, ptr: nat): World
    requires i < |w.lists|
  {
    if ptr == 0 then w else w.(lists := w.lists[i := MarkFree(w.lists[i], ptr)])
  }

  /** Byte `va` of task `i` belongs to an allocation that has not been freed. */
  ghost predicate Handed(w: World, i: nat, k: nat, va: nat) {
    && i < |w.lists| && k < |w.lists[i]| && !w.lists[i][k].free
    && w.lists[i][k].addr + HEADER <= va < BlockEnd(w.lists[i][k])
  }
}

/** User allocations never meet, in virtual or physical memory, over every sound run. */
module UserHeapProofs {
  import opened HeapSpec
  import HeapProofs
  import opened PagingSpec
  import opened SbrkSpec
  import opened SbrkProofs
  import opened UserHeapSpec

  // ---------------------------------------------------------------- one list

  /** A block at the break keeps the list placed exactly when the new break lies behind it. */
  lemma AppendPlacedIff(bs: seq<Block>, brk: nat, n: nat, brk': nat)
    requires Placed(bs, brk) && HEAP_BASE <= brk
    ensures Placed(bs + [Block(brk, n, false)], brk') <==> brk + HEADER + n <= brk'
  {
    var t := bs + [Block(brk, n, false)];
    assert t[|bs|] == Block(brk, n, false);
  }

  /** A break moved directly keeps it placed exactly when it stays behind the last block. */
  lemma MovePlacedIff(bs: seq<Block>, brk: nat, brk': nat)
    requires Placed(bs, brk)
    ensures Placed(bs, brk') <==> bs == [] || BlockEnd(bs[|bs| - 1]) <= brk'
  {
  }

  lemma MarkPlaced(bs: seq<Block>, brk: nat, ptr: nat)
    requires Placed(bs, brk)
    ensures Placed(MarkFree(bs, ptr), brk)
    ensures Fills(bs, brk) ==> Fills(MarkFree(bs, ptr), brk)
  {
    var t := MarkFree(bs, ptr);
    assert forall k :: 0 <= k < |bs| ==> t[k].addr == bs[k].addr && t[k].size == bs[k].size;
  }

  lemma ReusePlaced(bs: seq<Block>, brk: nat, k: nat)
    requires Placed(bs, brk) && k < |bs|
    ensures Placed(bs[k := bs[k].(free := false)], brk)
    ensures Fills(bs, brk) ==> Fills(bs[k := bs[k].(free := false)], brk)
  {
  }

  /** Without gaps a block at the break leaves none. */
  lemma AppendFills(bs: seq<Block>, brk: nat, n: nat)
    requires Fills(bs, brk) && n % 4 == 0
    ensures Fills(bs + [Block(brk, n, false)], brk + HEADER + n)
  {
    var t := bs + [Block(brk, n, false)];
    HeapProofs.AbutConcat(bs, [Block(brk, n, false)]);
    assert t[|t| - 1] == Block(brk, n, false);
    assert bs != [] ==> t[0] == bs[0];
  }

  // ---------------------------------------------------------------- malloc

  lemma ListOwner(w: World, i: nat)
    requires Shape(w) && i < |w.lists|
    ensures i < 8 && i < |w.tasks.brk| == |w.tasks.dir| && w.tasks.dir[i] == i
    ensures HEAP_BASE <= w.tasks.brk[i] <= HEAP_LIMIT
  {
  }

  lemma OtherTasks(w: World)
    requires Shape(w)
    ensures |w.lists| <= 8 && |w.lists| <= |w.tasks.brk| == |w.tasks.dir|
    ensures |w.lists| < 8 ==> |w.lists| == |w.tasks.brk|
  {
  }

  /** In the heap window the signed 32-bit increment is the block's size or lies below it,
      and below it exactly when it wraps down into the heap that exists. */
  lemma IncrementIff(n: nat, brk: nat)
    requires n < WORD && HEAP_BASE <= brk && HEAP_BASE <= brk + Increment(n) <= HEAP_LIMIT
    ensures HEADER + n < WORD - (brk - HEAP_BASE) <==> Increment(n) == HEADER + n
    ensures HEADER + n < WORD - (brk - HEAP_BASE) <==> HEADER + n <= Increment(n)
    ensures Increment(n) != HEADER + n ==> Increment(n) == HEADER + n - WORD < HEADER
  {
  }

  lemma Moved(w: Tasks, i: nat, inc: int)
    requires HeapInv(w) && i < |w.brk| && w.dir[i] < 9 && CanMove(w, i, inc)
    ensures HeapInv(MoveBreak(w, i, inc).0) && MoveBreak(w, i, inc).1 == w.brk[i]
    ensures MoveBreak(w, i, inc).0.brk == w.brk[i := w.brk[i] + inc]
    ensures MoveBreak(w, i, inc).0.sp.nextTask == w.sp.nextTask && MoveBreak(w, i, inc).0.dir == w.dir
    ensures HEAP_BASE <= w.brk[i] <= HEAP_LIMIT
  {
    hide Walk, HeapPage;
    SbrkKeepsHeaps(w, i, inc);
    MovedBounds(w, i);
  }

  lemma MovedBounds(w: Tasks, i: nat)
    requires HeapInv(w) && i < |w.brk|
    ensures HEAP_BASE <= w.brk[i] <= HEAP_LIMIT && w.dir[i] < Dirs(w.sp)
  {
    DirInUse(w, i);
  }

  /** Block `k` of task `i` is what malloc picked: the first free one that fits, or a
      new one at the old break. Every other block and list is as before. */
  ghost predicate Chosen(w: World, t: World, i: nat, k: nat, size: nat) {
    && i < |w.lists| == |t.lists| && k < |t.lists[i]| && i < |w.tasks.brk|
    && !t.lists[i][k].free
    && (size < WORD - 3 <==> t.lists[i][k].size >= size)
    && (forall j :: 0 <= j < |w.lists| && j != i ==> t.lists[j] == w.lists[j])
    && size < WORD && k <= |w.lists[i]|
    && (forall j :: 0 <= j < k ==> !Fits(w.lists[i][j], Align4(size)))
    && if k < |w.lists[i]|
       then Fits(w.lists[i][k], Align4(size)) && t.tasks == w.tasks
            && t.lists[i] == w.lists[i][k := Block(w.lists[i][k].addr, w.lists[i][k].size, false)]
       else t.lists[i] == w.lists[i] + [Block(w.tasks.brk[i], Align4(size), false)] && i < |t.tasks.brk|
            && (HEADER + size + 3 < 0x8000_0000 ==> t.tasks.brk[i] == w.tasks.brk[i] + HEADER + Align4(size))
  }

  /** Any 32-bit request hands out the first free block that fits or one at the break,
      and the lists stay placed in their heaps exactly when it is sound. */
  lemma MallocKeepsWorldIff(w: World, i: nat, size: nat)
    requires WorldInv(w) && i < |w.lists| && w.tasks.dir[i] < 9 && 0 < size < WORD
    requires CanServe(w.lists[i], w.tasks, i, size)
    ensures var (t, ptr) := UserMalloc(w, i, size);
      && Shape(t) && ptr != 0
      && (WorldInv(t) <==> Sound(w.lists[i], w.tasks.brk[i], size))
      && exists k :: 0 <= k < |t.lists[i]| && Chosen(w, t, i, k, size) && ptr == t.lists[i][k].addr + HEADER
  {
    hide HeapInv, MoveBreak, Placed, CanMove, Increment;
    ListOwner(w, i);
    OtherTasks(w);
    var n := Align4(size);
    var bs, brk := w.lists[i], w.tasks.brk[i];
    var k := FirstFitFrom(bs, 0, n);
    var t := UserMalloc(w, i, size).0;
    if k < |bs| {
      ReusePlaced(bs, brk, k);
      BlockInWindow(bs, brk, k);
    } else {
      var inc := Increment(n);
      Moved(w.tasks, i, inc);
      MovedBounds(t.tasks, i);
      AppendPlacedIff(bs, brk, n, brk + inc);
      IncrementIff(n, brk);
    }
    assert forall j :: 0 <= j < |w.lists| && j != i ==> t.lists[j] == w.lists[j] && t.tasks.brk[j] == w.tasks.brk[j];
    assert Chosen(w, t, i, k, size);
  }

  lemma BlockInWindow(bs: seq<Block>, brk: nat, k: nat)
    requires Placed(bs, brk) && brk <= HEAP_LIMIT && k < |bs|
    ensures bs[k].size < 0x3F_0000
  {
  }

  /** A freed block is had again without moving the break: a request it can hold gets
      the first free block that fits, which is the freed one unless an earlier one does. */
  lemma FreedIsReused(w: World, i: nat, k: nat, size: nat)
    requires WorldInv(w) && i < |w.lists| && k < |w.lists[i]| && w.tasks.dir[i] < 9
    requires 0 < size < WORD && Align4(size) <= w.lists[i][k].size
    ensures var ptr := w.lists[i][k].addr + HEADER;
      var t := UserFree(w, i, ptr);
      && Shape(t) && |t.lists[i]| == |w.lists[i]| && CanServe(t.lists[i], t.tasks, i, size)
      && t.lists[i] == w.lists[i][k := Block(w.lists[i][k].addr, w.lists[i][k].size, true)]
      && var (u, q) := UserMalloc(t, i, size);
         && u.tasks == w.tasks
         && ((forall j :: 0 <= j < k ==> !Fits(w.lists[i][j], Align4(size))) ==> q == ptr)
         && exists j :: 0 <= j <= k && q == w.lists[i][j].addr + HEADER
  {
    hide HeapInv, MoveBreak, CanMove, Increment;
    ListOwner(w, i);
    var bs, n := w.lists[i], Align4(size);
    var ptr := bs[k].addr + HEADER;
    var fs := MarkFree(bs, ptr);
    FreedInList(bs, w.tasks.brk[i], k);
    assert Fits(fs[k], n);
    var j := FirstFitFrom(fs, 0, n);
    assert j <= k;
  }

  lemma FreedInList(bs: seq<Block>, brk: nat, k: nat)
    requires Placed(bs, brk) && k < |bs|
    ensures MarkFree(bs, bs[k].addr + HEADER) == bs[k := Block(bs[k].addr, bs[k].size, true)]
  {
    forall j | 0 <= j < |bs| && j != k ensures bs[j].addr != bs[k].addr {
      if j < k { assert BlockEnd(bs[j]) <= bs[k].addr; } else { assert BlockEnd(bs[k]) <= bs[j].addr; }
    }
  }

  /** Without gaps malloc leaves none, whichever block it picks. */
  lemma MallocTiles(w: World, i: nat, size: nat)
    requires WorldInv(w) && i < |w.lists| && w.tasks.dir[i] < 9 && size < WORD && CanServe(w.lists[i], w.tasks, i, size)
    requires Fills(w.lists[i], w.tasks.brk[i]) && (size == 0 || Sound(w.lists[i], w.tasks.brk[i], size))
    ensures var t := UserMalloc(w, i, size).0; i < |t.tasks.brk| && Fills(t.lists[i], t.tasks.brk[i])
  {
    hide HeapInv, MoveBreak, Placed, CanMove, Increment, Fills;
    ListOwner(w, i);
    var n, bs := Align4(size), w.lists[i];
    var k := FirstFitFrom(bs, 0, n);
    if size != 0 {
      if k < |bs| {
        ReusePlaced(bs, w.tasks.brk[i], k);
      } else {
        Moved(w.tasks, i, Increment(n));
        MovedBounds(MoveBreak(w.tasks, i, Increment(n)).0, i);
        IncrementIff(n, w.tasks.brk[i]);
        AppendFills(bs, w.tasks.brk[i], n);
      }
    }
  }

  /** After an unsound request the next one that no free block serves gets the very same
      address exactly when the increment wrapped to 0, and overlaps the block handed out
      before exactly when it reaches back up to it. */
  lemma WrappedSharesIff(w: World, i: nat, size: nat, more: nat)
    requires WorldInv(w) && i < |w.lists| && w.tasks.dir[i] < 9 && 0 < size < WORD
    requires CanServe(w.lists[i], w.tasks, i, size)
    requires !Sound(w.lists[i], w.tasks.brk[i], size)
    requires var t := UserMalloc(w, i, size).0;
      && Shape(t) && i < |t.lists| && i < |t.tasks.brk| && t.tasks.dir[i] < 9
      && 0 < more < WORD && NoFit(t.lists[i], more) && CanServe(t.lists[i], t.tasks, i, more)
    ensures var (t, p) := UserMalloc(w, i, size);
      var (u, q) := UserMalloc(t, i, more);
      var k := |w.lists[i]|;
      && (p == q <==> HEADER + Align4(size) == WORD)
      && ((exists va: nat :: Handed(u, i, k, va) && Handed(u, i, k + 1, va)) <==>
            Align4(more) > 0 && Align4(more) + Increment(Align4(size)) > 0)
  {
    hide HeapInv, MoveBreak, Placed, CanMove, Increment;
    ListOwner(w, i);
    var n, m, brk, k := Align4(size), Align4(more), w.tasks.brk[i], |w.lists[i]|;
    var inc := Increment(n);
    Moved(w.tasks, i, inc);
    MovedBounds(MoveBreak(w.tasks, i, inc).0, i);
    IncrementIff(n, brk);
    var t := UserMalloc(w, i, size).0;
    Moved(t.tasks, i, Increment(m));
    var u := UserMalloc(t, i, more).0;
    assert u.lists[i][k] == Block(brk, n, false) && u.lists[i][k + 1] == Block(brk + inc, m, false);
    var first: nat := brk + HEADER + if inc > 0 then inc else 0;
    if m > 0 && m + inc > 0 {
      assert Handed(u, i, k, first) && Handed(u, i, k + 1, first);
    }
  }

  // ---------------------------------------------------------------- every run

  datatype Op =
    | Malloc(task: nat, size: nat)
    | Free(task: nat, ptr: nat)
    | Other(event: Event)            // direct `sbrk` by any task, new tasks, loading, drivers

  /** Within the limits of the heap window, the pool and the frames; `free` gets what
      malloc returned. */
  ghost predicate Callable(w: World, op: Op)
    requires Shape(w)
  {
    match op
    case Malloc(i, size) =>
      i < |w.lists| && i < |w.tasks.brk| && w.tasks.dir[i] < 9 && size < WORD && CanServe(w.lists[i], w.tasks, i, size)
    case Free(i, ptr) =>
      i < |w.lists| && (ptr == 0 || exists k :: 0 <= k < |w.lists[i]| && ptr == w.lists[i][k].addr + HEADER)
    case Other(e) => Allowed(w.tasks, e)
  }

  /** No request wraps down into its heap, and no program moves its break below the last
      block that malloc made. */
  ghost predicate SoundOp(w: World, op: Op)
    requires Shape(w) && Callable(w, op)
  {
    match op
    case Malloc(i, size) => size == 0 || Sound(w.lists[i], w.tasks.brk[i], size)
    case Free(_, _) => true
    case Other(e) =>
      e.Sbrk? && e.task < |w.lists| && w.lists[e.task] != [] ==>
        BlockEnd(w.lists[e.task][|w.lists[e.task]| - 1]) <= w.tasks.brk[e.task] + e.inc
  }

  ghost function Step(w: World, op: Op): World
    requires Shape(w) && Callable(w, op)
  {
    match op
    case Malloc(i, size) => UserMalloc(w, i, size).0
    case Free(i, ptr) => UserFree(w, i, ptr)
    case Other(e) => World(SbrkProofs.Step(w.tasks, e), if e.NewTask? && |w.lists| < 8 then w.lists + [[]] else w.lists)
  }

  lemma OtherMovesBreaks(w: Tasks, e: Event)
    requires HeapInv(w) && Allowed(w, e)
    ensures var t := SbrkProofs.Step(w, e);
      && HeapInv(t) && t.sp.nextTask == (if e.NewTask? && w.sp.nextTask < 8 then w.sp.nextTask + 1 else w.sp.nextTask)
      && w.sp.nextTask <= |w.brk| <= |t.brk|
      && (forall i :: 0 <= i < |w.brk| ==> t.brk[i] == if e.Sbrk? && e.task == i then w.brk[i] + e.inc else w.brk[i])
      && (e.NewTask? ==> |t.brk| == |w.brk| + 1 && t.brk[|w.brk|] == HEAP_BASE)
      && (e.NewTask? && w.sp.nextTask < 8 ==> w.sp.nextTask == |w.brk|)
  {
    hide Walk, HeapPage, MoveBreak;
    StepKeepsHeaps(w, e);
    if e.Sbrk? { Moved(w, e.task, e.inc); }
  }

  lemma StepShape(w: World, op: Op)
    requires Shape(w) && Callable(w, op)
    ensures Shape(Step(w, op))
  {
    hide HeapInv, MoveBreak, CanMove, Increment;
    match op
    case Malloc(i, size) =>
      var n := Align4(size);
      if size != 0 && NoFit(w.lists[i], size) { Moved(w.tasks, i, Increment(n)); }
    case Free(_, _) =>
    case Other(e) => OtherMovesBreaks(w.tasks, e);
  }

  /** Every operation on placed lists keeps them placed exactly when it is sound. */
  lemma StepKeepsWorldIff(w: World, op: Op)
    requires WorldInv(w) && Callable(w, op)
    ensures Shape(Step(w, op))
    ensures WorldInv(Step(w, op)) <==> SoundOp(w, op)
  {
    hide HeapInv, MoveBreak, CanMove, Increment, Placed, Allowed, SbrkProofs.Step;
    OtherTasks(w);
    StepShape(w, op);
    match op
    case Malloc(i, size) => if size != 0 { MallocKeepsWorldIff(w, i, size); }
    case Free(i, ptr) => MarkPlaced(w.lists[i], w.tasks.brk[i], ptr);
    case Other(e) => OtherKeepsWorldIff(w, e);
  }

  lemma OtherKeepsWorldIff(w: World, e: Event)
    requires WorldInv(w) && Allowed(w.tasks, e)
    ensures Shape(Step(w, Other(e)))
    ensures WorldInv(Step(w, Other(e))) <==> SoundOp(w, Other(e))
  {
    hide HeapInv, MoveBreak, Allowed, SbrkProofs.Step, Placed;
    OtherTasks(w);
    OtherMovesBreaks(w.tasks, e);
    var t := Step(w, Other(e));
    forall i | 0 <= i < |w.lists| && !(e.Sbrk? && e.task == i)
      ensures t.lists[i] == w.lists[i] && Placed(t.lists[i], t.tasks.brk[i]) {}
    if e.NewTask? && |w.lists| < 8 { NothingPlaced(HEAP_BASE); }
    if e.Sbrk? && e.task < |w.lists| {
      MovedBounds(t.tasks, e.task);
      MovePlacedIff(w.lists[e.task], w.tasks.brk[e.task], t.tasks.brk[e.task]);
    }
  }

  lemma NothingPlaced(brk: nat)
    ensures Placed([], brk)
  {
  }

  ghost predicate AllCallable(w: World, ops: seq<Op>)
    requires Shape(w)
    decreases |ops|
  {
    ops == [] || (Callable(w, ops[0]) && (StepShape(w, ops[0]); AllCallable(Step(w, ops[0]), ops[1..])))
  }

  ghost function Run(w: World, ops: seq<Op>): World
    requires Shape(w) && AllCallable(w, ops)
    decreases |ops|
  {
    if ops == [] then w else
    StepShape(w, ops[0]);
    Run(Step(w, ops[0]), ops[1..])
  }

  ghost predicate AllSound(w: World, ops: seq<Op>)
    requires Shape(w) && AllCallable(w, ops)
    decreases |ops|
  {
    ops == [] || (SoundOp(w, ops[0]) && (StepShape(w, ops[0]); AllSound(Step(w, ops[0]), ops[1..])))
  }

  /** The lists are placed in every state the run goes through. */
  ghost predicate AlwaysPlaced(w: World, ops: seq<Op>)
    requires Shape(w) && AllCallable(w, ops)
    decreases |ops|
  {
    WorldInv(w) && (ops == [] || (StepShape(w, ops[0]); AlwaysPlaced(Step(w, ops[0]), ops[1..])))
  }

  /** Any mix of malloc, free, direct sbrk by any task, new tasks and loading keeps all
      blocks apart all the way exactly when every step is sound. */
  lemma {:induction false} RunKeepsWorldIff(w: World, ops: seq<Op>)
    requires WorldInv(w) && AllCallable(w, ops)
    ensures AlwaysPlaced(w, ops) <==> AllSound(w, ops)
    ensures AllSound(w, ops) ==> WorldInv(Run(w, ops))
    decreases |ops|
  {
    hide WorldInv, Callable, SoundOp, Step;
    PlacedShape(w);
    if ops != [] {
      StepKeepsWorldIff(w, ops[0]);
      if SoundOp(w, ops[0]) { RunKeepsWorldIff(Step(w, ops[0]), ops[1..]); }
    }
  }

  lemma PlacedShape(w: World)
    requires WorldInv(w)
    ensures Shape(w)
  {
  }

  /** Two live allocations of any tasks never share a physical byte, and every byte handed
      out is mapped. */
  lemma LiveBytesApart(w: World, i: nat, k: nat, x: nat, j: nat, l: nat, y: nat)
    requires WorldInv(w) && Handed(w, i, k, x) && Handed(w, j, l, y)
    ensures i < 8 && j < 8 && x < MEMORY_END && y < MEMORY_END && Shaped(w.tasks.sp)
    ensures Translate(w.tasks.sp, i, x).Some? && Translate(w.tasks.sp, j, y).Some?
    ensures Translate(w.tasks.sp, i, x) == Translate(w.tasks.sp, j, y) <==> i == j && k == l && x == y
    // whole frames are shared exactly within one page of one task
    ensures Base(Translate(w.tasks.sp, i, x).value) == Base(Translate(w.tasks.sp, j, y).value) <==>
      i == j && x / PAGE == y / PAGE
  {
    hide HeapInv;
    ListOwner(w, i);
    ListOwner(w, j);
    HeapShaped(w.tasks);
    assert Placed(w.lists[i], w.tasks.brk[i]) && Placed(w.lists[j], w.tasks.brk[j]);
    assert HeapByte(w.tasks, i, x) && HeapByte(w.tasks, j, y);
    HeapByteMapped(w.tasks, i, x);
    HeapByteMapped(w.tasks, j, y);
    HeapBytesCoincideIff(w.tasks, i, x, j, y);
  }

  /** The same in every state a sound run can reach from freshly built page tables. */
  lemma LiveBytesApartAfterAnyRun(boot: Spaces, ops: seq<Op>, i: nat, k: nat, x: nat, j: nat, l: nat, y: nat)
    requires PagingSpec.Inv(boot) && boot.nextTask == 0
    ensures Shape(AtBoot(boot)) && WorldInv(AtBoot(boot))
    ensures AllCallable(AtBoot(boot), ops) && AllSound(AtBoot(boot), ops) ==>
      var w := Run(AtBoot(boot), ops);
      Handed(w, i, k, x) && Handed(w, j, l, y) ==>
        && i < 8 && j < 8 && x < MEMORY_END && y < MEMORY_END && Shaped(w.tasks.sp)
        && Translate(w.tasks.sp, i, x).Some?
        && (Translate(w.tasks.sp, i, x) == Translate(w.tasks.sp, j, y) <==> i == j && k == l && x == y)
  {
    hide WorldInv, AllCallable, AllSound, Run, Handed;
    BootPlaced(boot);
    var w0 := AtBoot(boot);
    if AllCallable(w0, ops) && AllSound(w0, ops) {
      RunKeepsWorldIff(w0, ops);
      var w := Run(w0, ops);
      if Handed(w, i, k, x) && Handed(w, j, l, y) {
        LiveBytesApart(w, i, k, x, j, l, y);
      }
    }
  }

  function AtBoot(boot: Spaces): World { World(Tasks(boot, [], []), []) }

  lemma BootPlaced(boot: Spaces)
    requires PagingSpec.Inv(boot) && boot.nextTask == 0
    ensures WorldInv(AtBoot(boot)) && Shape(AtBoot(boot))
  {
    hide PagingSpec.Inv;
    InvFacts(boot);
  }

  // ---------------------------------------------------------------- a run that hands out one address twice

  lemma RunFrom(w: World, op: Op, ops: seq<Op>)
    requires Shape(w) && Callable(w, op)
    ensures Shape(Step(w, op))
    ensures AllCallable(w, [op] + ops) <==> AllCallable(Step(w, op), ops)
    ensures AllCallable(w, [op] + ops) ==> Run(w, [op] + ops) == Run(Step(w, op), ops)
  {
    hide Shape, Callable, Step;
    StepShape(w, op);
    assert ([op] + ops)[1..] == ops;
  }

  /** A new program asks for 4 bytes, then for 12 bytes less than 4 GB, then for 4 bytes
      again: the last two get one address. */
  lemma WrappedRequestsClash(boot: Spaces)
    requires PagingSpec.Inv(boot) && boot.nextTask == 0 && boot.dmaPtr == POOL_START && boot.userPhys == FRAMES_START
    ensures Shape(AtBoot(boot))
    ensures var ops := [Other(NewTask), Malloc(0, 4), Malloc(0, 0xFFFF_FFF4), Malloc(0, 4)];
      && AllCallable(AtBoot(boot), ops)
      && (var w := Run(AtBoot(boot), ops);
          && Shape(w)
          && w.lists ==
              [[Block(HEAP_BASE, 4, false), Block(HEAP_BASE + 16, 0xFFFF_FFF4, false), Block(HEAP_BASE + 16, 4, false)]]
          && Handed(w, 0, 1, HEAP_BASE + 28) && Handed(w, 0, 2, HEAP_BASE + 28))
  {
    hide HeapInv, MoveBreak, GrowSpec, PagingSpec.Inv, SbrkProofs.Step, AllCallable, Run;
    var small, wrapped := Malloc(0, 4), Malloc(0, 0xFFFF_FFF4);
    FirstTask(boot);
    RunFrom(AtBoot(boot), Other(NewTask), [small, wrapped, small]);
    assert [Other(NewTask)] + [small, wrapped, small] == [Other(NewTask), small, wrapped, small];
    ThreeRequests(Step(AtBoot(boot), Other(NewTask)));
  }

  /** One task runs; nothing it was given is free again. */
  ghost predicate OneTask(w: World, bs: seq<Block>, brk: nat) {
    && Shape(w) && w.lists == [bs] && w.tasks.brk == [brk] && w.tasks.dir == [0]
    && |bs| <= 2 && forall k :: 0 <= k < |bs| ==> !bs[k].free
  }

  lemma ThreeRequests(w: World)
    requires OneTask(w, [], HEAP_BASE) && CanMove(w.tasks, 0, 16) && w.tasks.sp.userPhys == FRAMES_START
    ensures var ops := [Malloc(0, 4), Malloc(0, 0xFFFF_FFF4), Malloc(0, 4)];
      && AllCallable(w, ops) && Shape(Run(w, ops))
      && Run(w, ops).lists ==
          [[Block(HEAP_BASE, 4, false), Block(HEAP_BASE + 16, 0xFFFF_FFF4, false), Block(HEAP_BASE + 16, 4, false)]]
  {
    hide HeapInv, MoveBreak, SbrkProofs.Step, AllCallable, Run, Shape, Step, Callable, CanMove;
    var a, b, c := Block(HEAP_BASE, 4, false), Block(HEAP_BASE + 16, 0xFFFF_FFF4, false),
        Block(HEAP_BASE + 16, 4, false);
    var small, wrapped := Malloc(0, 4), Malloc(0, 0xFFFF_FFF4);
    assert [] + [a] == [a] && [a] + [b] == [a, b] && [a, b] + [c] == [a, b, c];
    AtTheBreak(w, small, [], HEAP_BASE);
    var w2 := Step(w, small);
    MoveOn(w, HEAP_BASE, 16);
    AtTheBreak(w2, wrapped, [a], HEAP_BASE + 16);
    var w3 := Step(w2, wrapped);
    AtTheBreak(w3, small, [a, b], HEAP_BASE + 16);
    RunFrom(w3, small, []);
    assert [small] + [] == [small];
    NothingRun(Step(w3, small));
    RunFrom(w2, wrapped, [small]);
    assert [wrapped] + [small] == [wrapped, small];
    RunFrom(w, small, [wrapped, small]);
    assert [small] + [wrapped, small] == [small, wrapped, small];
  }

  /** After one small growth there is room for the next, and for standing still. */
  lemma MoveOn(w: World, brk: nat, inc: nat)
    requires Shape(w) && w.tasks.brk == [brk] && w.tasks.dir == [0] && CanMove(w.tasks, 0, inc)
    requires w.tasks.sp.userPhys == FRAMES_START
    ensures var t := MoveBreak(w.tasks, 0, inc).0;
      && HeapInv(t) && |t.brk| == |t.dir| == 1 && t.dir[0] == 0 && t.sp.userPhys + 0x400 * PAGE <= MEMORY_END
      && (brk + inc + inc <= HEAP_LIMIT ==> CanMove(t, 0, inc)) && CanMove(t, 0, 0)
      && MoveBreak(t, 0, 0) == (t, t.brk[0])
  {
    hide HeapInv, MoveBreak, PoolRoom;
    Moved(w.tasks, 0, inc);
    GrowRoom(w.tasks, 0, inc);
    HeapShaped(MoveBreak(w.tasks, 0, inc).0);
    StandStill(MoveBreak(w.tasks, 0, inc).0, 0);
  }

  /** A request by the only task, with nothing freed, gets a block at the break. */
  lemma AtTheBreak(w: World, op: Op, bs: seq<Block>, brk: nat)
    requires op.Malloc? && op.task == 0 && 0 < op.size < WORD && OneTask(w, bs, brk)
    requires CanMove(w.tasks, 0, Increment(Align4(op.size)))
    ensures Callable(w, op)
    ensures var t, b, inc := Step(w, op), Block(brk, Align4(op.size), false), Increment(Align4(op.size));
      && Shape(t) && t.lists == [bs + [b]] && t.tasks.dir == [0] && t.tasks.brk == [brk + inc]
      && (|bs| < 2 ==> brk + inc >= 0 && OneTask(t, bs + [b], brk + inc))
      && t.tasks == MoveBreak(w.tasks, 0, inc).0
  {
    hide HeapInv, MoveBreak, CanMove, Increment;
    SecondFindsNone(bs, op.size);
    Moved(w.tasks, 0, Increment(Align4(op.size)));
    MovedBounds(MoveBreak(w.tasks, 0, Increment(Align4(op.size))).0, 0);
  }

  lemma NothingRun(w: World)
    requires Shape(w)
    ensures AllCallable(w, []) && Run(w, []) == w
  {
  }

  lemma FirstTask(boot: Spaces)
    requires PagingSpec.Inv(boot) && boot.nextTask == 0 && boot.dmaPtr == POOL_START && boot.userPhys == FRAMES_START
    ensures Shape(AtBoot(boot)) && Callable(AtBoot(boot), Other(NewTask))
    ensures var w := Step(AtBoot(boot), Other(NewTask));
      && HeapInv(w.tasks) && w.lists == [[]] && w.tasks.brk == [HEAP_BASE] && w.tasks.dir == [0]
      && CanMove(w.tasks, 0, 16) && w.tasks.sp.userPhys == FRAMES_START
  {
    BootPlaced(boot);
    OtherMovesBreaks(Tasks(boot, [], []), NewTask);
  }

  lemma StandStill(w: Tasks, i: nat)
    requires HeapInv(w) && i < |w.brk| && w.dir[i] < 9 && CanMove(w, i, 0)
    ensures MoveBreak(w, i, 0) == (w, w.brk[i])
  {
  }

  lemma SecondFindsNone(bs: seq<Block>, size: nat)
    requires size < WORD && |bs| <= 2 && forall k :: 0 <= k < |bs| ==> !bs[k].free
    ensures NoFit(bs, size)
  {
  }

  // ---------------------------------------------------------------- tiling

  /** The program of task `i` moves its own break. */
  predicate MovesBreak(op: Op, i: nat) { op.Other? && op.event.Sbrk? && op.event.task == i && op.event.inc != 0 }

  /** A sound operation on a heap without gaps leaves one exactly when the program moves
      the break itself. */
  lemma StepTilesIff(w: World, op: Op, i: nat)
    requires WorldInv(w) && Callable(w, op) && SoundOp(w, op) && i < |w.lists| && Fills(w.lists[i], w.tasks.brk[i])
    ensures var t := Step(w, op);
      i < |t.lists| && i < |t.tasks.brk| && (Fills(t.lists[i], t.tasks.brk[i]) <==> !MovesBreak(op, i))
  {
    hide HeapInv, MoveBreak, CanMove, Increment, Placed, Allowed, SbrkProofs.Step, CanServe, Sound;
    OtherTasks(w);
    match op
    case Malloc(j, size) =>
      ListOwner(w, j);
      if j == i { MallocTiles(w, i, size); } else { MallocElsewhere(w, j, size, i); }
    case Free(j, ptr) => if j == i { MarkPlaced(w.lists[i], w.tasks.brk[i], ptr); }
    case Other(e) => OtherMovesBreaks(w.tasks, e);
  }

  lemma MallocElsewhere(w: World, j: nat, size: nat, i: nat)
    requires Shape(w) && Callable(w, Malloc(j, size)) && i < |w.lists| && i != j
    ensures var t := Step(w, Malloc(j, size));
      i < |t.lists| && i < |w.tasks.brk| && i < |t.tasks.brk| && t.lists[i] == w.lists[i] &&
          t.tasks.brk[i] == w.tasks.brk[i]
  {
    hide HeapInv, MoveBreak, CanMove, Increment;
    OtherTasks(w);
    if size != 0 && NoFit(w.lists[j], size) { Moved(w.tasks, j, Increment(Align4(size))); }
  }

  ghost predicate Tiled(w: World, i: nat) {
    i < |w.lists| ==> i < |w.tasks.brk| && Fills(w.lists[i], w.tasks.brk[i])
  }

  /** So over any sound run the heap of a task that leaves `sbrk` to malloc is filled by
      its blocks, from its base up to the break. */
  lemma {:induction false} RunTiles(w: World, ops: seq<Op>, i: nat)
    requires WorldInv(w) && AllCallable(w, ops) && AllSound(w, ops) && Tiled(w, i)
    requires forall op :: op in ops ==> !MovesBreak(op, i)
    ensures Tiled(Run(w, ops), i)
    decreases |ops|
  {
    hide WorldInv, Callable, SoundOp, Step, Tiled;
    PlacedShape(w);
    if ops != [] {
      assert ops[0] in ops;
      StepKeepsWorldIff(w, ops[0]);
      StepTiles(w, ops[0], i);
      RunTiles(Step(w, ops[0]), ops[1..], i);
    }
  }

  lemma StepTiles(w: World, op: Op, i: nat)
    requires WorldInv(w) && Callable(w, op) && SoundOp(w, op) && Tiled(w, i) && !MovesBreak(op, i)
    ensures Tiled(Step(w, op), i)
  {
    hide HeapInv, MoveBreak, CanMove, Increment, Placed, Allowed, SbrkProofs.Step, CanServe, Sound, Fills;
    OtherTasks(w);
    if i < |w.lists| {
      StepTilesIff(w, op, i);
    } else if op.Other? {
      OtherMovesBreaks(w.tasks, op.event);
      NothingFills();
    }
  }

  lemma NothingFills()
    ensures Fills([], HEAP_BASE)
  {
  }
}
