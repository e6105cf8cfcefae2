/** How many programs fit: launches one after another from boot. */
module LaunchRoom {
  import opened HeapSpec
  import opened HeapProofs
  import opened SchedSpec
  import opened LaunchSpec
  import opened LaunchProofs

  /** All that is free is the last block, `z` bytes at `a`, and the search begins there. */
  predicate Fresh(h: HeapSpec.State, a: nat, z: nat) {
    && h.blocks != [] && h.cursor == |h.blocks| - 1 && h.blocks[h.cursor] == HeapSpec.Block(a, z, true)
    && forall i :: 0 <= i < h.cursor ==> !h.blocks[i].free
  }

  lemma FreshTaken(h: HeapSpec.State, t: HeapSpec.State, a: nat, z: nat, i: nat, n: nat, ptr: nat)
    requires Fresh(h, a, z) && TakenAt(h, t, i, n, ptr) && n + 16 < z
    ensures Fresh(t, a + 12 + n, z - 12 - n) && ptr == a + 12
  {
    assert i == h.cursor;
    assert h.blocks[i + 1..] == [];
  }

  lemma FitsFresh(h: HeapSpec.State, a: nat, z: nat, n: nat)
    requires Fresh(h, a, z)
    ensures (forall k :: 0 <= k < |h.blocks| ==> !Fits(h.blocks[k], n)) <==> z < n
  {
  }

  lemma CanSearch(h: HeapSpec.State)
    requires HeapSpec.Inv(h)
    ensures h.cursor < |h.blocks| && Tiles(h.blocks)
  {
  }

  lemma TakenCell(h: HeapSpec.State, t: HeapSpec.State, i: nat, n: nat, ptr: nat)
    requires TakenAt(h, t, i, n, ptr) && n + 16 < h.blocks[i].size
    ensures (ptr - 12, n) in Allocated(t.blocks)
  {
    assert t.blocks[i] == HeapSpec.Block(ptr - 12, n, false);
  }

  /** A small request takes the front of it. */
  lemma MallocFresh(h: HeapSpec.State, a: nat, z: nat, size: nat)
    requires HeapSpec.Inv(h) && Fresh(h, a, z) && 0 < size < WORD - 3 && size % 4 == 0 && size + 16 < z
    ensures h.cursor < |h.blocks|
    ensures var (t, ptr) := MallocSpec(h, size);
      && HeapSpec.Inv(t) && Fresh(t, a + 12 + size, z - 12 - size) && ptr == a + 12 && t.cursor < |t.blocks|
      && (a, size) in Allocated(t.blocks) && Allocated(h.blocks) <= Allocated(t.blocks)
  {
    hide MallocSpec, HeapSpec.Inv, Fresh, TakenAt, Fits, Live, Allocated, SizeAt;
    CanSearch(h);
    MallocKeepsInv(h, size);
    MallocComplete(h, size);
    FitsFresh(h, a, z, size);
    var (t, ptr) := MallocSpec(h, size);
    CanSearch(t);
    MallocTakes(h, size);
    var i: nat :| TakenAt(h, t, i, Align4(size), ptr);
    FreshTaken(h, t, a, z, i, size, ptr);
    MallocAllocated(h, size);
    FreshBlock(h, t, a, z, i, size, ptr);
    TakenCell(h, t, i, size, ptr);
  }

  lemma FreshBlock(h: HeapSpec.State, t: HeapSpec.State, a: nat, z: nat, i: nat, n: nat, ptr: nat)
    requires Fresh(h, a, z) && TakenAt(h, t, i, n, ptr)
    ensures i < |h.blocks| && h.blocks[i].size == z
  {
  }

  /** A large one fails. */
  lemma MallocFull(h: HeapSpec.State, a: nat, z: nat, size: nat)
    requires HeapSpec.Inv(h) && Fresh(h, a, z) && z < size < WORD - 3 && size % 4 == 0
    ensures h.cursor < |h.blocks| && MallocSpec(h, size).1 == 0
  {
    hide MallocSpec, HeapSpec.Inv, Fresh, Fits, Live;
    CanSearch(h);
    MallocComplete(h, size);
    FitsFresh(h, a, z, size);
  }

  /** 65536 + 4096 bytes for the image, a `task_t` of 300 and a stack of 8192, each behind
      a header of 12. */
  const TAKEN: nat := 78160

  /** The three allocations in a row. */
  lemma GrabFresh(h: HeapSpec.State, a: nat, z: nat)
    requires HeapSpec.Inv(h) && Fresh(h, a, z) && TAKEN + 4 < z
    ensures var (t, raw, task, stack) := Grab(h);
      && HeapSpec.Inv(t) && Fresh(t, a + TAKEN, z - TAKEN)
      && raw == a + 12 && task == a + 69656 && stack == a + 69968
      && SizeAt(t.blocks, raw) == 69632 && SizeAt(t.blocks, task) == 300 && SizeAt(t.blocks, stack) == 8192
  {
    hide MallocSpec, HeapSpec.Inv, Fresh, SizeAt, Allocated, Live, Tiles;
    MallocFresh(h, a, z, 69632);
    var h1 := MallocSpec(h, 69632).0;
    MallocFresh(h1, a + 69644, z - 69644, 300);
    var h2 := MallocSpec(h1, 300).0;
    MallocFresh(h2, a + 69956, z - 69956, 8192);
    var t := MallocSpec(h2, 8192).0;
    CanSearch(t);
    CellIsLive(t.blocks, a + 12, 69632);
    CellIsLive(t.blocks, a + 69656, 300);
    CellIsLive(t.blocks, a + 69968, 8192);
  }

  /** Where a launch puts its three blocks. */
  lemma LaunchFresh(k: KState, a: nat, z: nat)
    requires WF(k) && Fresh(k.heap, a, z) && TAKEN + 4 < z
    ensures HeapSpec.Inv(k.heap) && CanLaunch(k.heap)
    ensures var t := Launched(k);
      && WF(t) && Fresh(t.heap, a + TAKEN, z - TAKEN) && k.nextPid !in k.procs
      && t.nextPid == k.nextPid + 1
      && t.procs == k.procs[k.nextPid := Proc(Memory(a + 69656, a + 69968, (a + 12 + 4096) / 4096 * 4096), a + 12,
                                              69632, 300, 8192)]
  {
    hide HeapSpec.Inv, Fresh, SizeAt, Holds, Allocated, Cells, Rest, Grab, WF;
    WFFacts(k);
    GrabFresh(k.heap, a, z);
    LaunchKeepsWF(k);
  }

  /** The heap after boot: the `task_t` of two kernel tasks and the stack of one. */
  function BootHeap(): HeapSpec.State
  {
    InitSound();
    var h1 := MallocSpec(Init(), TASK_SIZE).0;
    var h2 := MallocSpec(h1, TASK_SIZE).0;
    MallocSpec(h2, STACK_SIZE).0
  }

  lemma InitSound()
    ensures HeapSpec.Inv(Init()) && Fresh(Init(), 0x800000, 4194292)
    ensures var h1 := MallocSpec(Init(), TASK_SIZE).0;
      && h1.cursor < |h1.blocks|
      && var h2 := MallocSpec(h1, TASK_SIZE).0;
         && h2.cursor < |h2.blocks|
         && var h3 := MallocSpec(h2, STACK_SIZE).0;
            HeapSpec.Inv(h3) && Fresh(h3, 0x800000 + 8828, 4194292 - 8828)
  {
    hide MallocSpec, Fresh, Allocated;
    InitFresh();
    MallocFresh(Init(), 0x800000, 4194292, 300);
    var h1 := MallocSpec(Init(), 300).0;
    MallocFresh(h1, 0x800000 + 312, 4194292 - 312, 300);
    var h2 := MallocSpec(h1, 300).0;
    MallocFresh(h2, 0x800000 + 624, 4194292 - 624, 8192);
  }

  lemma InitFresh()
    ensures HeapSpec.Inv(Init()) && Fresh(Init(), 0x800000, 4194292)
  {
    assert UsedBytes(Init().blocks[1..]) == 0;
  }

  function Execs(n: nat): (ops: seq<LaunchProofs.Op>)
    ensures |ops| == n
  {
    if n == 0 then [] else [Exec] + Execs(n - 1)
  }

  /** The `i`-th program of a row that began at `a`. */
  function NthProc(a: nat, i: nat): Proc {
    var b := a + TAKEN * i;
    Proc(Memory(b + 69656, b + 69968, (b + 12 + 4096) / 4096 * 4096), b + 12, 69632, 300, 8192)
  }

  /** Program `first + i` is the `i`-th of a row that began at `a`. */
  predicate InRow(procs: map<nat, Proc>, first: nat, a: nat, i: nat) {
    first + i in procs && procs[first + i] == NthProc(a, i)
  }

  /** As long as the last block is large enough launches succeed, one behind the other. */
  lemma {:induction false} LaunchesSucceed(k: KState, a: nat, z: nat, n: nat)
    requires WF(k) && Fresh(k.heap, a, z) && TAKEN * n + 4 < z
    ensures var t := LaunchProofs.Run(k, Execs(n));
      && Fresh(t.heap, a + TAKEN * n, z - TAKEN * n) && t.nextPid == k.nextPid + n
      && (forall i: nat :: i < n ==> InRow(t.procs, k.nextPid, a, i))
      && (forall id :: id in k.procs ==> id in t.procs && t.procs[id] == k.procs[id])
    decreases n
  {
    hide WF, Fresh, CanLaunch, Launched, HeapSpec.Inv;
    if n > 0 {
      LaunchFresh(k, a, z);
      var u := LaunchProofs.Step(k, Exec);
      assert Execs(n)[0] == Exec && Execs(n)[1..] == Execs(n - 1);
      LaunchesSucceed(u, a + TAKEN, z - TAKEN, n - 1);
      var t := LaunchProofs.Run(k, Execs(n));
      forall i: nat | i < n ensures InRow(t.procs, k.nextPid, a, i) {
        if i > 0 { assert InRow(t.procs, u.nextPid, a + TAKEN, i - 1); }
      }
    }
  }

  /** From boot exactly 53 programs find memory. */
  lemma FiftyThreePrograms(n: nat)
    requires n <= 53
    ensures var k := KState(BootHeap(), map[], map[], 2);
      && WF(k)
      && var t := LaunchProofs.Run(k, Execs(n));
         && WF(t) && t.nextPid == 2 + n
         && (forall i: nat :: i < n ==> InRow(t.procs, 2, 0x80227C, i))
         && HeapSpec.Inv(t.heap) && (CanLaunch(t.heap) <==> n < 53)
  {
    hide WF, Fresh, CanLaunch, Launched, BootHeap, HeapSpec.Inv, LaunchProofs.Run, InRow;
    BootSound();
    var k := KState(BootHeap(), map[], map[], 2);
    LaunchesSucceed(k, 0x80227C, 4185464, n);
    var t := LaunchProofs.Run(k, Execs(n));
    WFFacts(t);
    if n < 53 { LaunchFresh(t, 0x80227C + TAKEN * n, 4185464 - TAKEN * n); }
    else { FullFails(t.heap, 0x80227C + TAKEN * n, 4185464 - TAKEN * n); }
  }

  lemma BootSound()
    ensures WF(KState(BootHeap(), map[], map[], 2)) && Fresh(BootHeap(), 0x80227C, 4185464)
  {
    hide MallocSpec, Fresh;
    InitSound();
  }

  lemma FullFails(h: HeapSpec.State, a: nat, z: nat)
    requires HeapSpec.Inv(h) && Fresh(h, a, z) && z < 69632
    ensures !CanLaunch(h)
  {
    hide MallocSpec, HeapSpec.Inv, Fresh;
    MallocFull(h, a, z, 69632);
  }
}
