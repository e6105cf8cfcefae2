/** Whole programs side by side: launching, loading, killing, `sbrk` and every store the
    programs make, in one physical memory, against private memories of their own. */
module Isolation {
  import opened PagingSpec
  import opened SbrkSpec
  import opened SbrkProofs
  import opened ElfSpec
  import opened ElfProofs
  import opened ExecLoad
  import HeapSpec
  import LaunchSpec
  import LaunchProofs

  // ---------------------------------------------------------------- what programs believe

  /** The memory of one program: its 64 KB image, seen through the segments `phs`, and
      the heap bytes it has stored, by virtual address. */
  datatype Program = Program(phs: seq<Phdr>, brk: nat, image: seq<nat>, heap: map<nat, nat>)

  datatype Ideal = Ideal(nextPid: nat, progs: map<nat, Program>)

  datatype Event =
    | Exec(data: seq<nat>, phs: seq<Phdr>)          // `api_exec_app`
    | Kill(id: nat)                                 // `kill_task_by_id`
    | Grow(id: nat, inc: int)                       // `sys_sbrk`
    | Store(id: nat, va: nat, b: nat)               // the program writes a byte of its own
    | MapLibrary(id: nat, from: nat, upto: nat, base: nat)
    | KernelStore(a: nat, b: nat)                   // block headers, stacks, stashed words, ...
    | DmaAlloc(size: nat)

  /** What the loader puts into a cleared image, told from the file alone. */
  function LoadedImage(data: seq<nat>, phs: seq<Phdr>): (image: seq<nat>)
    ensures |image| == IMAGE
  {
    seq(IMAGE, o requires 0 <= o < IMAGE => ImageByte([], data, 0, phs, o))
  }

  /** A store through a segment goes to its place in the image, any other to the heap. */
  function Stored(p: Program, va: nat, b: nat): Program {
    match PageOwner(p.phs, va / PAGE)
    case Some(c) => if OffsetIn(c, va) < |p.image| then p.(image := p.image[OffsetIn(c, va) := b]) else p
    case None => p.(heap := p.heap[va := b])
  }

  function BreakMoved(p: Program, inc: int): Program {
    if p.brk + inc < 0 then p else
    p.(brk := p.brk + inc, heap := map va | va in p.heap && va < p.brk + inc :: p.heap[va])
  }

  function IdealStep(s: Ideal, e: Event): Ideal {
    match e
    case Exec(data, phs) =>
      Ideal(s.nextPid + 1, s.progs[s.nextPid := Program(phs, HEAP_BASE, LoadedImage(data, phs), map[])])
    case Kill(id) => s.(progs := s.progs - {id})
    case Grow(id, inc) => if id in s.progs then s.(progs := s.progs[id := BreakMoved(s.progs[id], inc)]) else s
    case Store(id, va, b) => if id in s.progs then s.(progs := s.progs[id := Stored(s.progs[id], va, b)]) else s
    case MapLibrary(_, _, _, _) => s
    case KernelStore(_, _) => s
    case DmaAlloc(_) => s
  }

  // ---------------------------------------------------------------- what the machine does

  /** The kernel heap with its programs, the address spaces, physical memory, and for each
      program the number of its task in order of creation. */
  datatype Physical = Physical(k: LaunchSpec.KState, w: Tasks, ram: seq<nat>, tasks: map<nat, nat>)

  /** The clearing loop of `api_exec_app`. */
  function Cleared(ram: seq<nat>, base: nat): (r: seq<nat>)
    ensures |r| == |ram|
    ensures forall a :: 0 <= a < |ram| ==> r[a] == if InImage(base, a) then 0 else ram[a]
  {
    seq(|ram|, a requires 0 <= a < |ram| => if InImage(base, a) then 0 else ram[a])
  }

  /** Segments lie outside the window in which heaps grow. */
  predicate OutsideWindow(phs: seq<Phdr>) {
    forall ph :: ph in phs && ph.kind == PT_LOAD ==> EndPage(ph) <= FIRST_PAGE || 0x800 <= FirstPage(ph)
  }

  /** Segments stay inside the image. */
  predicate InsideImage(phs: seq<Phdr>) {
    forall ph :: ph in phs && ph.kind == PT_LOAD ==> ph.vaddr % PAGE + ph.memsz <= IMAGE
  }

  // ---------------------------------------------------------------- how the two agree

  /** The pages of the program's segments lead to its image. */
  ghost predicate PagesShown(sp: Spaces, i: nat, base: nat, phs: seq<Phdr>) {
    && Shaped(sp) && i < 8
    && forall q: nat :: q < 0x100000 && PageOwner(phs, q).Some? ==>
         Walk(sp, i, q) == Some(base + (q - FirstPage(PageOwner(phs, q).value)) * PAGE)
  }

  predicate ImageShown(ram: seq<nat>, base: nat, image: seq<nat>) {
    && |image| == IMAGE && base + IMAGE <= |ram|
    && forall o: nat :: o < IMAGE ==> ram[base + o] == image[o]
  }

  /** A heap byte of task `i` is there and holds `b`. */
  ghost predicate HeapHolds(w: Tasks, ram: seq<nat>, i: nat, va: nat, b: nat) {
    && HeapByte(w, i, va) && Shaped(w.sp) && i < 8 && va < MEMORY_END
    && Translate(w.sp, i, va).Some?
    && FRAMES_START <= Translate(w.sp, i, va).value < |ram| && ram[Translate(w.sp, i, va).value] == b
  }

  ghost predicate HeapShown(w: Tasks, ram: seq<nat>, i: nat, heap: map<nat, nat>) {
    forall va: nat :: va in heap ==> HeapHolds(w, ram, i, va, heap[va])
  }

  ghost predicate Shown(x: Physical, id: nat, p: Program) {
    && id in x.k.procs && id in x.tasks && x.tasks[id] < |x.w.brk| && p.brk == x.w.brk[x.tasks[id]]
    && OutsideWindow(p.phs) && InsideImage(p.phs)
    && PagesShown(x.w.sp, x.tasks[id], x.k.procs[id].memory.appBase, p.phs)
    && ImageShown(x.ram, x.k.procs[id].memory.appBase, p.image)
    && HeapShown(x.w, x.ram, x.tasks[id], p.heap)
  }

  /** No task was created after the eighth, and memory has every frame handed out. */
  ghost predicate Sound(x: Physical) {
    && LaunchSpec.WF(x.k) && HeapInv(x.w) && |x.w.brk| <= 8
    && FRAMES_START <= x.w.sp.userPhys <= |x.ram|
    && (forall id :: id in x.tasks ==> id in x.k.procs && x.tasks[id] < |x.w.brk|)
    && (forall a, b :: a in x.tasks && b in x.tasks && x.tasks[a] == x.tasks[b] ==> a == b)
  }

  ghost predicate Shows(x: Physical, s: Ideal) {
    && Sound(x) && s.nextPid == x.k.nextPid && s.progs.Keys == x.tasks.Keys == x.k.procs.Keys
    && forall id :: id in s.progs ==> Shown(x, id, s.progs[id])
  }

  // ---------------------------------------------------------------- where things lie

  /** The image of a running program lies in the kernel heap, below all user frames. */
  lemma ImageLow(k: LaunchSpec.KState, id: nat)
    requires LaunchSpec.WF(k) && id in k.procs
    ensures k.procs[id].memory.appBase + IMAGE <= FRAMES_START
  {
    hide HeapSpec.Allocated, HeapSpec.Tiles, ImageCell, LaunchSpec.Cells, LaunchSpec.Holds;
    HeldTiles(k, id);
    ImageInCell(k, k.procs[id]);
    BlockInHeap(k.heap.blocks, ImageCell(k.procs[id]));
  }

  lemma HeldTiles(k: LaunchSpec.KState, id: nat)
    requires LaunchSpec.WF(k) && id in k.procs
    ensures LaunchSpec.Holds(k, k.procs[id]) && HeapSpec.Tiles(k.heap.blocks)
  {
  }

  lemma CellsApart(k: LaunchSpec.KState, a: nat, b: nat)
    requires LaunchSpec.WF(k) && a in k.procs && b in k.procs && a != b
    ensures LaunchSpec.Cells(k.procs[a]) !! LaunchSpec.Cells(k.procs[b])
  {
  }

  /** Images of two programs have no byte in common. */
  lemma TwoImages(k: LaunchSpec.KState, a: nat, b: nat, at: nat)
    requires LaunchSpec.WF(k) && a in k.procs && b in k.procs && a != b && InImage(k.procs[a].memory.appBase, at)
    ensures !InImage(k.procs[b].memory.appBase, at)
  {
    hide LaunchSpec.WF, HeapSpec.Allocated, HeapSpec.Tiles, ImageCell, LaunchSpec.Cells, LaunchSpec.Holds;
    HeldTiles(k, a);
    HeldTiles(k, b);
    CellsApart(k, a, b);
    ImageInCell(k, k.procs[a]);
    ImageInCell(k, k.procs[b]);
    LaunchProofs.ImagesApart(k.heap.blocks, ImageCell(k.procs[a]), ImageCell(k.procs[b]), at);
  }

  /** The physical byte behind a heap byte. */
  lemma HeapPlace(w: Tasks, i: nat, va: nat)
    requires HeapInv(w) && HeapByte(w, i, va) && i < 8
    ensures Shaped(w.sp) && va < MEMORY_END && w.dir[i] == i && Translate(w.sp, i, va).Some?
    ensures FRAMES_START <= Translate(w.sp, i, va).value < w.sp.userPhys
  {
    hide Walk, Inv;
    HeapByteMapped(w, i, va);
    InvFacts(w.sp);
    var p := va / PAGE;
    assert HeapPage(w, i, p) && OwnFrame(w.sp, w.dir[i], p);
    FrameEnd(Walk(w.sp, i, p).value, w.sp.userPhys, va);
  }

  lemma FrameEnd(f: nat, end: nat, va: nat)
    requires f < end && f % PAGE == 0 && end % PAGE == 0
    ensures f + va % PAGE < end
  {
  }

  /** Physical byte `a` is in the image at `base` or behind a heap byte of task `i`. */
  ghost predicate Belongs(w: Tasks, i: nat, base: nat, a: nat)
    requires Shaped(w.sp)
  {
    || InImage(base, a)
    || (i < 8 && exists va: nat :: HeapByte(w, i, va) && va < MEMORY_END && Translate(w.sp, i, va) == Some(a))
  }

  /** A change that moves none of a program's pages and none of its bytes shows it as
      before. */
  lemma StillShown(x: Physical, y: Physical, id: nat, p: Program)
    requires Sound(x) && Sound(y) && Shown(x, id, p) && |y.ram| == |x.ram|
    requires id in y.k.procs && y.k.procs[id] == x.k.procs[id] && id in y.tasks && y.tasks[id] == x.tasks[id]
    requires x.tasks[id] < |y.w.brk| && y.w.brk[x.tasks[id]] == x.w.brk[x.tasks[id]]
    requires forall q: nat :: q < 0x100000 && (PageOwner(p.phs, q).Some? || HeapPage(x.w, x.tasks[id], q)) ==>
      Walk(y.w.sp, x.tasks[id], q) == Walk(x.w.sp, x.tasks[id], q)
    requires forall a: nat :: a < |x.ram| && Belongs(x.w, x.tasks[id], x.k.procs[id].memory.appBase, a) ==>
      y.ram[a] == x.ram[a]
    ensures Shown(y, id, p)
  {
    hide Walk, Inv, LaunchSpec.WF, PageOwner, FirstPage, EndPage, HeapInv, OutsideWindow, InsideImage;
    var i, base := x.tasks[id], x.k.procs[id].memory.appBase;
    HeapShaped(x.w);
    HeapShaped(y.w);
    forall o: nat | o < IMAGE ensures y.ram[base + o] == p.image[o] {
      assert Belongs(x.w, i, base, base + o);
    }
    forall va: nat | va in p.heap ensures HeapHolds(y.w, y.ram, i, va, p.heap[va]) {
      assert HeapHolds(x.w, x.ram, i, va, p.heap[va]);
      assert HeapPage(x.w, i, va / PAGE);
      assert Belongs(x.w, i, base, Translate(x.w.sp, i, va).value);
    }
  }

  // ---------------------------------------------------------------- launching

  ghost predicate CanExec(x: Physical, data: seq<nat>, phs: seq<Phdr>) {
    && |x.w.brk| < 8 && HeapSpec.Inv(x.k.heap) && LaunchSpec.CanLaunch(x.k.heap) && OutsideWindow(phs)
    && Startable(Machine(Cleared(x.ram, NewImage(x.k)), x.w.sp), data, NewImage(x.k), phs)
  }

  /** Allocation, clearing, a new directory, loading. */
  ghost function Executed(x: Physical, data: seq<nat>, phs: seq<Phdr>): Physical
    requires CanExec(x, data, phs)
  {
    var r := Started(Machine(Cleared(x.ram, NewImage(x.k)), x.w.sp), data, NewImage(x.k), phs);
    Physical(LaunchSpec.Launched(x.k), Tasks(r.sp, x.w.brk + [HEAP_BASE], x.w.dir + [NextDir(x.w.sp)]), r.ram,
             x.tasks[x.k.nextPid := |x.w.brk|])
  }

  /** What the loader makes of a cleared image depends on the file alone. */
  lemma {:induction false} FromFileAlone(ram: seq<nat>, data: seq<nat>, base: nat, phs: seq<Phdr>, o: nat)
    requires base + o < |ram| && ram[base + o] == 0
    ensures ImageByte(ram, data, base, phs, o) == ImageByte([], data, 0, phs, o)
    decreases |phs|
  {
    hide Fills, FileByte;
    if phs != [] { FromFileAlone(ram, data, base, phs[..|phs| - 1], o); }
  }

  lemma StartedInside(m: Machine, data: seq<nat>, base: nat, phs: seq<Phdr>)
    requires Startable(m, data, base, phs)
    ensures InsideImage(phs) && base + IMAGE <= |m.ram|
  {
    hide Inv, Private, CreateDirSpec;
  }

  /** Every other directory and all memory outside the image stay as they are. */
  lemma StartedKeeps(m: Machine, data: seq<nat>, base: nat, phs: seq<Phdr>)
    requires Inv(m.sp) && m.sp.nextTask < 8 && Startable(m, data, base, phs)
    ensures var r := Started(m, data, base, phs);
      && Shaped(r.sp) && Shaped(m.sp) && |r.ram| == |m.ram|
      && (forall i: nat, q: nat :: i < m.sp.nextTask && q < 0x100000 ==> Walk(r.sp, i, q) == Walk(m.sp, i, q))
      && (forall a :: 0 <= a < |m.ram| && !InImage(base, a) ==> r.ram[a] == m.ram[a])
  {
    hide Walk, Inv, LoadAll, Loadable, CreateDirSpec;
    NewTaskKeeps(m.sp);
    InvFacts(m.sp);
    var n := m.(sp := CreateDirSpec(m.sp).0);
    InvFacts(n.sp);
    LoadableBase(n, data, NextDir(m.sp), base, phs);
    LoadTouchesOnlyImage(n, data, NextDir(m.sp), base, phs, 0, 0);
    forall i: nat, q: nat | i < m.sp.nextTask && q < 0x100000
      ensures Walk(Started(m, data, base, phs).sp, i, q) == Walk(m.sp, i, q)
    {
      LoadTouchesOnlyImage(n, data, NextDir(m.sp), base, phs, i, q);
    }
  }

  /** The new directory shows the image, the image holds what the file tells. */
  lemma StartedShows(ram: seq<nat>, sp: Spaces, data: seq<nat>, base: nat, phs: seq<Phdr>)
    requires Inv(sp) && sp.nextTask < 8 && Startable(Machine(Cleared(ram, base), sp), data, base, phs)
    ensures var r := Started(Machine(Cleared(ram, base), sp), data, base, phs);
      PagesShown(r.sp, sp.nextTask, base, phs) && ImageShown(r.ram, base, LoadedImage(data, phs))
  {
    hide Walk, Inv, LoadAll, Loadable, CreateDirSpec, PageOwner, FirstPage, EndPage, ImageByte;
    NewTaskKeeps(sp);
    var m := Machine(Cleared(ram, base), sp);
    var n := m.(sp := CreateDirSpec(sp).0);
    InvFacts(n.sp);
    LoadableBase(n, data, NextDir(sp), base, phs);
    NothingOwned(n, data, NextDir(sp), base, phs);
    forall q: nat | q < 0x100000 && PageOwner(phs, q).Some?
      ensures Walk(Started(m, data, base, phs).sp, sp.nextTask, q) ==
        Some(base + (q - FirstPage(PageOwner(phs, q).value)) * PAGE)
    {
      PageMeaning(n, data, NextDir(sp), base, phs, q);
    }
    forall o: nat | o < IMAGE ensures Started(m, data, base, phs).ram[base + o] == LoadedImage(data, phs)[o] {
      ByteMeaning(n, data, NextDir(sp), base, phs, o);
      FromFileAlone(m.ram, data, base, phs, o);
    }
  }

  lemma NothingOwned(m: Machine, data: seq<nat>, pd: nat, base: nat, phs: seq<Phdr>)
    requires Loadable(m, data, pd, base, phs) && pd < 9
    ensures Shaped(LoadAll(m, data, pd, base, phs).sp)
  {
    hide LoadAll;
  }

  /** A new task has no heap yet. */
  lemma NoHeapYet(w: Tasks, phs: seq<Phdr>)
    requires TasksOk(w) && TasksOk(NewTaskSpec(w)) && |w.brk| < 8
    ensures ClearOfHeaps(NewTaskSpec(w), |w.brk|, phs)
    ensures NewTaskSpec(w).dir == w.dir + [|w.brk|] && w.sp.nextTask == |w.brk|
  {
    hide Shaped, Walk;
  }

  /** So loading it leaves every heap as it is. */
  lemma ExecHeaps(x: Physical, data: seq<nat>, phs: seq<Phdr>)
    requires Sound(x) && CanExec(x, data, phs)
    ensures var y := Executed(x, data, phs);
      && HeapInv(y.w) && y.w.sp.userPhys == x.w.sp.userPhys && x.w.sp.nextTask == |x.w.brk|
      && |y.ram| == |x.ram|
  {
    hide Walk, Inv, LoadAll, CreateDirSpec, LaunchSpec.WF, LaunchSpec.CanLaunch, NewImage, HeapInv, ClearOfHeaps,
         TasksOk, Loadable, Shaped, HeapSpec.Inv, InImage, LaunchSpec.Launched;
    HeapShaped(x.w);
    NewTaskKeepsHeaps(x.w);
    var n, base := NewTaskSpec(x.w), NewImage(x.k);
    HeapShaped(n);
    NoHeapYet(x.w, phs);
    InvFacts(x.w.sp);
    NewTaskKeeps(x.w.sp);
    var ram := Cleared(x.ram, base);
    LoadKeepsHeaps(n, |x.w.brk|, base, ram, data, phs);
    LoadKeepsFrames(Machine(ram, n.sp), data, |x.w.brk|, base, phs);
  }

  lemma LoadKeepsFrames(m: Machine, data: seq<nat>, pd: nat, base: nat, phs: seq<Phdr>)
    requires Loadable(m, data, pd, base, phs)
    ensures LoadAll(m, data, pd, base, phs).sp.userPhys == m.sp.userPhys
    ensures |LoadAll(m, data, pd, base, phs).ram| == |m.ram|
  {
    hide Loadable, Inv, Shaped;
  }

  lemma LaunchedProcs(k: LaunchSpec.KState)
    requires LaunchSpec.WF(k) && LaunchSpec.CanLaunch(k.heap)
    ensures HeapSpec.Inv(k.heap)
    ensures var t := LaunchSpec.Launched(k);
      && LaunchSpec.WF(t) && t.nextPid == k.nextPid + 1 && k.nextPid !in k.procs
      && k.nextPid in t.procs && t.procs == k.procs[k.nextPid := t.procs[k.nextPid]]
      && t.procs[k.nextPid].memory.appBase == NewImage(k)
  {
    hide LaunchSpec.CanLaunch, LaunchSpec.Holds, HeapSpec.Inv, LaunchSpec.Grab;
    LaunchProofs.LaunchKeepsWF(k);
  }

  lemma ExecSound(x: Physical, data: seq<nat>, phs: seq<Phdr>)
    requires Sound(x) && CanExec(x, data, phs)
    ensures Sound(Executed(x, data, phs))
  {
    hide LaunchSpec.WF, LaunchSpec.CanLaunch, HeapInv, Startable, Started, HeapSpec.Inv, LaunchSpec.Launched, NewImage;
    LaunchedProcs(x.k);
    ExecHeaps(x, data, phs);
  }

  /** Running programs are shown as before ... */
  lemma ExecOthers(x: Physical, data: seq<nat>, phs: seq<Phdr>, id: nat, p: Program)
    requires Sound(x) && CanExec(x, data, phs) && Shown(x, id, p)
    ensures Shown(Executed(x, data, phs), id, p)
  {
    hide LaunchSpec.WF, LaunchSpec.CanLaunch, HeapInv, Startable, Started, HeapSpec.Inv, LaunchSpec.Launched, NewImage,
         Walk, Inv, PagesShown, ImageShown, HeapShown, OutsideWindow, InsideImage, InImage, Shaped, PageOwner;
    LaunchedProcs(x.k);
    ExecHeaps(x, data, phs);
    ExecSound(x, data, phs);
    HeapShaped(x.w);
    StartedKeeps(Machine(Cleared(x.ram, NewImage(x.k)), x.w.sp), data, NewImage(x.k), phs);
    HeapPagesLow(x.w, x.tasks[id]);
    var y := Executed(x, data, phs);
    forall a: nat | a < |x.ram| && Belongs(x.w, x.tasks[id], x.k.procs[id].memory.appBase, a)
      ensures y.ram[a] == x.ram[a]
    {
      BelongsWhere(x.w, x.tasks[id], x.k.procs[id].memory.appBase, a);
      NewImageApart(x.k, id, a);
    }
    StillShown(x, y, id, p);
  }

  lemma HeapPagesLow(w: Tasks, i: nat)
    requires TasksOk(w)
    ensures forall q: nat :: HeapPage(w, i, q) ==> FIRST_PAGE <= q < 0x800
  {
    hide Shaped;
  }

  lemma BelongsWhere(w: Tasks, i: nat, base: nat, a: nat)
    requires HeapInv(w) && Shaped(w.sp) && Belongs(w, i, base, a)
    ensures InImage(base, a) || FRAMES_START <= a < w.sp.userPhys
  {
    hide HeapInv, Walk, InImage;
    if !InImage(base, a) {
      var va: nat :| HeapByte(w, i, va) && va < MEMORY_END && Translate(w.sp, i, va) == Some(a);
      HeapPlace(w, i, va);
    }
  }

  /** ... and the new one as the file tells. */
  lemma ExecNew(x: Physical, data: seq<nat>, phs: seq<Phdr>)
    requires Sound(x) && CanExec(x, data, phs)
    ensures Shown(Executed(x, data, phs), x.k.nextPid, Program(phs, HEAP_BASE, LoadedImage(data, phs), map[]))
  {
    hide LaunchSpec.WF, LaunchSpec.CanLaunch, HeapInv, Startable, Started, HeapSpec.Inv, LaunchSpec.Launched, NewImage,
         Inv, PagesShown, ImageShown, OutsideWindow, InsideImage, Shaped, LoadedImage;
    LaunchedProcs(x.k);
    HeapShaped(x.w);
    InvFacts(x.w.sp);
    ExecHeaps(x, data, phs);
    StartedShows(x.ram, x.w.sp, data, NewImage(x.k), phs);
    StartedInside(Machine(Cleared(x.ram, NewImage(x.k)), x.w.sp), data, NewImage(x.k), phs);
  }

  // ---------------------------------------------------------------- the other events

  lemma KilledProcs(k: LaunchSpec.KState, id: nat)
    requires LaunchSpec.WF(k) && id in k.procs
    ensures k.procs[id].memory.appBase - 4 in k.stash
    ensures LaunchSpec.WF(LaunchSpec.Killed(k, id)) && LaunchSpec.Killed(k, id).nextPid == k.nextPid
    ensures LaunchSpec.Killed(k, id).procs == k.procs - {id}
  {
    hide LaunchSpec.WF, HeapSpec.FreeSpec;
    LaunchProofs.KillKeepsWF(k, id);
  }

  /** The blocks go back; directory, heap pages and bytes stay behind. */
  ghost function Ended(x: Physical, id: nat): (y: Physical)
    requires LaunchSpec.WF(x.k) && id in x.k.procs
    ensures LaunchSpec.WF(y.k) && y.k.nextPid == x.k.nextPid && y.k.procs == x.k.procs - {id}
    ensures y.w == x.w && y.ram == x.ram && y.tasks == x.tasks - {id}
  {
    hide LaunchSpec.WF;
    KilledProcs(x.k, id);
    Physical(LaunchSpec.Killed(x.k, id), x.w, x.ram, x.tasks - {id})
  }

  lemma KillShows(x: Physical, id: nat, other: nat, p: Program)
    requires Sound(x) && id in x.k.procs && other != id && Shown(x, other, p)
    ensures Shown(Ended(x, id), other, p)
  {
    hide HeapInv, LaunchSpec.WF, Ended, PagesShown, ImageShown, HeapShown, OutsideWindow, InsideImage;
  }

  lemma KillSound(x: Physical, id: nat)
    requires Sound(x) && id in x.k.procs
    ensures Sound(Ended(x, id))
  {
    hide HeapInv, LaunchSpec.WF, Ended;
  }

  ghost predicate CanGrow(x: Physical, id: nat, inc: int) {
    && id in x.tasks && x.tasks[id] < |x.w.brk| && |x.w.dir| == |x.w.brk| && Shaped(x.w.sp)
    && x.w.dir[x.tasks[id]] < 9 && CanMove(x.w, x.tasks[id], inc)
    && x.w.sp.userPhys + 0x400 * PAGE <= |x.ram|
  }

  ghost function Grew(x: Physical, id: nat, inc: int): Physical
    requires HeapInv(x.w) && CanGrow(x, id, inc)
  {
    x.(w := MoveBreak(x.w, x.tasks[id], inc).0)
  }

  lemma GrowSound(x: Physical, id: nat, inc: int)
    requires Sound(x) && CanGrow(x, id, inc)
    ensures Sound(Grew(x, id, inc))
  {
    hide LaunchSpec.WF, HeapInv, MoveBreak, Walk, Inv, Shaped, CanMove, PageAbove, PoolRoom;
    SbrkKeepsHeaps(x.w, x.tasks[id], inc);
    GrowRoom(x.w, x.tasks[id], inc);
    HeapShaped(Grew(x, id, inc).w);
    InvFacts(Grew(x, id, inc).w.sp);
  }

  /** Moving a break changes pages of the heap window only, in one directory. */
  lemma GrowWalks(x: Physical, id: nat, inc: int, i: nat, q: nat)
    requires Sound(x) && CanGrow(x, id, inc) && i < |x.w.brk| && q < 0x100000
    requires i != x.tasks[id] || q < FIRST_PAGE || 0x800 <= q || q * PAGE < x.w.brk[i]
    ensures Shaped(Grew(x, id, inc).w.sp) && i < 8
    ensures Walk(Grew(x, id, inc).w.sp, i, q) == Walk(x.w.sp, i, q)
  {
    hide LaunchSpec.WF, MoveBreak, Walk, Inv, Shaped, PageAbove, PoolRoom, HeapPage, OwnFrame;
    var t := x.tasks[id];
    DirInUse(x.w, i);
    SbrkKeepsHeaps(x.w, t, inc);
    HeapShaped(Grew(x, id, inc).w);
    assert !Remapped(x.w, t, inc, i, q);
  }

  lemma GrowOthers(x: Physical, id: nat, inc: int, other: nat, p: Program)
    requires Sound(x) && CanGrow(x, id, inc) && other != id && Shown(x, other, p)
    ensures Shown(Grew(x, id, inc), other, p)
  {
    hide LaunchSpec.WF, HeapInv, MoveBreak, Walk, Inv, Shaped, CanMove, PagesShown, ImageShown, HeapShown, PageOwner,
         OutsideWindow, InsideImage;
    HeapShaped(x.w);
    SbrkKeepsHeaps(x.w, x.tasks[id], inc);
    GrowSound(x, id, inc);
    HeapPagesLow(x.w, x.tasks[other]);
    var y, i := Grew(x, id, inc), x.tasks[other];
    HeapShaped(y.w);
    forall q: nat | q < 0x100000 ensures Walk(y.w.sp, i, q) == Walk(x.w.sp, i, q) {
      GrowWalks(x, id, inc, i, q);
    }
    StillShown(x, y, other, p);
  }

  lemma OwnedOutside(phs: seq<Phdr>, q: nat)
    requires OutsideWindow(phs) && PageOwner(phs, q).Some?
    ensures q < FIRST_PAGE || 0x800 <= q
  {
  }

  lemma GrowSelf(x: Physical, id: nat, inc: int, p: Program)
    requires Sound(x) && CanGrow(x, id, inc) && Shown(x, id, p)
    ensures Shown(Grew(x, id, inc), id, BreakMoved(p, inc))
  {
    hide LaunchSpec.WF, HeapInv, MoveBreak, Walk, Inv, Shaped, CanMove, ImageShown, PageOwner, OutsideWindow,
         InsideImage, FirstPage;
    var y, i := Grew(x, id, inc), x.tasks[id];
    HeapShaped(x.w);
    SbrkKeepsHeaps(x.w, i, inc);
    HeapShaped(y.w);
    forall q: nat | q < 0x100000 && PageOwner(p.phs, q).Some? ensures Walk(y.w.sp, i, q) == Walk(x.w.sp, i, q) {
      OwnedOutside(p.phs, q);
      GrowWalks(x, id, inc, i, q);
    }
    forall va: nat | va in p.heap && va < p.brk + inc ensures HeapHolds(y.w, y.ram, i, va, p.heap[va]) {
      assert HeapHolds(x.w, x.ram, i, va, p.heap[va]);
      GrowWalks(x, id, inc, i, va / PAGE);
    }
  }

  /** Byte `a` of memory set to `b`. */
  function Poked(x: Physical, a: nat, b: nat): Physical
    requires a < |x.ram|
  {
    x.(ram := x.ram[a := b])
  }

  lemma PokeSound(x: Physical, a: nat, b: nat)
    requires Sound(x) && a < |x.ram|
    ensures Sound(Poked(x, a, b))
  {
    hide LaunchSpec.WF, HeapInv;
  }

  lemma PokeOthers(x: Physical, a: nat, b: nat, id: nat, p: Program)
    requires Sound(x) && a < |x.ram| && Shown(x, id, p)
    requires Shaped(x.w.sp) && !Belongs(x.w, x.tasks[id], x.k.procs[id].memory.appBase, a)
    ensures Shown(Poked(x, a, b), id, p)
  {
    hide LaunchSpec.WF, HeapInv, Walk, Inv, PagesShown, ImageShown, HeapShown, PageOwner, OutsideWindow, InsideImage,
         Belongs;
    HeapShaped(x.w);
    HeapPagesLow(x.w, x.tasks[id]);
    StillShown(x, Poked(x, a, b), id, p);
  }

  /** The addresses a program may use: its segments and its heap. */
  predicate Own(p: Program, va: nat) {
    va < MEMORY_END && (PageOwner(p.phs, va / PAGE).Some? || HEAP_BASE <= va < p.brk)
  }

  /** They lead to its image or to a frame of its heap ... */
  lemma OwnPlace(x: Physical, id: nat, p: Program, va: nat)
    requires Sound(x) && Shown(x, id, p) && Own(p, va)
    ensures Shaped(x.w.sp) && x.tasks[id] < 8 && Translate(x.w.sp, x.tasks[id], va).Some?
    ensures var a, c, base := Translate(x.w.sp, x.tasks[id], va).value, PageOwner(p.phs, va / PAGE),
            x.k.procs[id].memory.appBase;
      && a < |x.ram|
      && (c.Some? ==> a == base + OffsetIn(c.value, va) && InImage(base, a))
      && (c.None? ==> HeapByte(x.w, x.tasks[id], va) && a >= FRAMES_START)
  {
    hide LaunchSpec.WF, HeapInv, Walk, Inv, HeapShown, OutsideWindow, FirstPage, EndPage;
    HeapShaped(x.w);
    var c := PageOwner(p.phs, va / PAGE);
    if c.Some? {
      OffsetInImage(c.value, va);
    } else {
      HeapPlace(x.w, x.tasks[id], va);
    }
  }

  /** ... where no other program has a byte. */
  lemma OwnAlone(x: Physical, id: nat, p: Program, va: nat, other: nat, q: Program)
    requires Sound(x) && Shown(x, id, p) && Own(p, va) && Shown(x, other, q) && other != id
    ensures Shaped(x.w.sp) && x.tasks[id] < 8 && Translate(x.w.sp, x.tasks[id], va).Some?
    ensures !Belongs(x.w, x.tasks[other], x.k.procs[other].memory.appBase, Translate(x.w.sp, x.tasks[id], va).value)
  {
    hide LaunchSpec.WF, HeapInv, Walk, Inv, PagesShown, ImageShown, HeapShown, PageOwner, OutsideWindow, InsideImage,
         InImage, FirstPage, Belongs;
    OwnPlace(x, id, p, va);
    HeapShaped(x.w);
    var i, j, base := x.tasks[id], x.tasks[other], x.k.procs[other].memory.appBase;
    var a := Translate(x.w.sp, i, va).value;
    ImageLow(x.k, id);
    ImageLow(x.k, other);
    LowImage(x.k.procs[id].memory.appBase, a);
    LowImage(base, a);
    if PageOwner(p.phs, va / PAGE).Some? {
      TwoImages(x.k, id, other, a);
      if Belongs(x.w, j, base, a) { BelongsWhere(x.w, j, base, a); }
    } else {
      HeapAlone(x.w, i, va, j, base);
    }
  }

  lemma LowImage(base: nat, a: nat)
    requires base + IMAGE <= FRAMES_START
    ensures InImage(base, a) ==> a < FRAMES_START
  {
  }

  lemma HeapAlone(w: Tasks, i: nat, va: nat, j: nat, base: nat)
    requires HeapInv(w) && HeapByte(w, i, va) && i < 8 && j < 8 && i != j && base + IMAGE <= FRAMES_START
    ensures Shaped(w.sp) && va < MEMORY_END && Translate(w.sp, i, va).Some?
    ensures !Belongs(w, j, base, Translate(w.sp, i, va).value)
  {
    hide HeapInv, Walk;
    HeapPlace(w, i, va);
    var a := Translate(w.sp, i, va).value;
    if Belongs(w, j, base, a) {
      var vb: nat :| HeapByte(w, j, vb) && vb < MEMORY_END && Translate(w.sp, j, vb) == Some(a);
      HeapPlace(w, j, vb);
      HeapBytesCoincideIff(w, i, va, j, vb);
    }
  }

  lemma ImageStored(ram: seq<nat>, base: nat, image: seq<nat>, o: nat, b: nat)
    requires ImageShown(ram, base, image) && o < IMAGE
    ensures ImageShown(ram[base + o := b], base, image[o := b])
  {
  }

  lemma HeapUntouched(w: Tasks, ram: seq<nat>, i: nat, heap: map<nat, nat>, a: nat, b: nat)
    requires HeapShown(w, ram, i, heap) && a < FRAMES_START && a < |ram|
    ensures HeapShown(w, ram[a := b], i, heap)
  {
    hide Walk, Shaped;
    forall va: nat | va in heap ensures HeapHolds(w, ram[a := b], i, va, heap[va]) {
      assert HeapHolds(w, ram, i, va, heap[va]);
    }
  }

  lemma HeapStored(w: Tasks, ram: seq<nat>, i: nat, heap: map<nat, nat>, va: nat, b: nat)
    requires HeapInv(w) && HeapShown(w, ram, i, heap) && HeapByte(w, i, va) && i < 8 && w.sp.userPhys <= |ram|
    ensures Shaped(w.sp) && va < MEMORY_END && Translate(w.sp, i, va).Some?
    ensures Translate(w.sp, i, va).value < |ram|
    ensures HeapShown(w, ram[Translate(w.sp, i, va).value := b], i, heap[va := b])
  {
    hide HeapInv, Walk;
    HeapPlace(w, i, va);
    var a := Translate(w.sp, i, va).value;
    var heap' := heap[va := b];
    forall vb: nat | vb in heap' ensures HeapHolds(w, ram[a := b], i, vb, heap'[vb]) {
      if vb != va {
        assert HeapHolds(w, ram, i, vb, heap[vb]);
        HeapPlace(w, i, vb);
        HeapBytesCoincideIff(w, i, va, i, vb);
      }
    }
  }

  /** What the program stores is what it believes it stored. */
  lemma StoreSelf(x: Physical, id: nat, p: Program, va: nat, b: nat)
    requires Sound(x) && Shown(x, id, p) && Own(p, va)
    ensures Shaped(x.w.sp) && x.tasks[id] < 8 && Translate(x.w.sp, x.tasks[id], va).Some?
    ensures Translate(x.w.sp, x.tasks[id], va).value < |x.ram|
    ensures Shown(Poked(x, Translate(x.w.sp, x.tasks[id], va).value, b), id, Stored(p, va, b))
  {
    hide LaunchSpec.WF, HeapInv, Walk, Inv, PagesShown, HeapShown, PageOwner, OutsideWindow, InsideImage, FirstPage,
         InImage, Shaped, HeapByte, OffsetIn;
    OwnPlace(x, id, p, va);
    HeapShaped(x.w);
    ImageLow(x.k, id);
    var i, a, base, c := x.tasks[id], Translate(x.w.sp, x.tasks[id], va).value, x.k.procs[id].memory.appBase,
        PageOwner(p.phs, va / PAGE);
    LowImage(base, a);
    if c.Some? {
      PlaceInImage(base, a, OffsetIn(c.value, va));
      ImageStored(x.ram, base, p.image, OffsetIn(c.value, va), b);
      HeapUntouched(x.w, x.ram, i, p.heap, a, b);
    } else {
      HeapStored(x.w, x.ram, i, p.heap, va, b);
    }
  }

  lemma PlaceInImage(base: nat, a: nat, o: nat)
    requires InImage(base, a) && a == base + o
    ensures o < IMAGE
  {
  }

  // ---------------------------------------------------------------- libraries and drivers

  /** Pages clear of the program's own. */
  ghost predicate CanMap(x: Physical, s: Ideal, id: nat, from: nat, upto: nat, base: nat) {
    && id in x.tasks && id in s.progs && x.tasks[id] < |x.w.brk| && Shaped(x.w.sp)
    && Mappable(x.w, x.tasks[id], from, upto, base)
    && forall q: nat :: from <= q < upto ==> PageOwner(s.progs[id].phs, q).None?
  }

  ghost function LibraryMapped(x: Physical, i: nat, from: nat, upto: nat, base: nat): Physical
    requires Inv(x.w.sp) && Shaped(x.w.sp) && i < Dirs(x.w.sp) && Mappable(x.w, i, from, upto, base)
  {
    x.(w := x.w.(sp := MapRange(x.w.sp, i, from, upto, base)))
  }

  lemma TaskDir(x: Physical, i: nat)
    requires Sound(x) && i < |x.w.brk|
    ensures Inv(x.w.sp) && Shaped(x.w.sp) && i < Dirs(x.w.sp) <= 9 && i < 8 && x.w.dir[i] == i
  {
    hide Inv, LaunchSpec.WF, Walk;
    NextTaskBound(x.w.sp);
  }

  lemma MapSound(x: Physical, i: nat, from: nat, upto: nat, base: nat)
    requires Sound(x) && i < |x.w.brk| && Shaped(x.w.sp) && Mappable(x.w, i, from, upto, base)
    ensures Inv(x.w.sp) && i < Dirs(x.w.sp) && Sound(LibraryMapped(x, i, from, upto, base))
  {
    hide Inv, LaunchSpec.WF, Walk, HeapInv, Mappable, MapRange;
    TaskDir(x, i);
    MapKeepsHeaps(x.w, i, from, upto, base);
    MapFrames(x.w, i, from, upto, base);
  }

  lemma MapFrames(w: Tasks, i: nat, from: nat, upto: nat, base: nat)
    requires Inv(w.sp) && Shaped(w.sp) && i < Dirs(w.sp) && Mappable(w, i, from, upto, base)
    ensures MapRange(w.sp, i, from, upto, base).userPhys == w.sp.userPhys
  {
    hide Inv, Walk, Private, ClearRange;
  }

  lemma MapShows(x: Physical, s: Ideal, id: nat, from: nat, upto: nat, base: nat, other: nat)
    requires Sound(x) && CanMap(x, s, id, from, upto, base) && other in s.progs && Shown(x, other, s.progs[other])
    ensures Inv(x.w.sp) && x.tasks[id] < Dirs(x.w.sp)
    ensures Shown(LibraryMapped(x, x.tasks[id], from, upto, base), other, s.progs[other])
  {
    hide Inv, LaunchSpec.WF, Walk, HeapInv, Mappable, MapRange, PagesShown, ImageShown, HeapShown, OutsideWindow,
         InsideImage, PageOwner, Shaped;
    var i, j, p := x.tasks[id], x.tasks[other], s.progs[other];
    TaskDir(x, i);
    TaskDir(x, j);
    MapSound(x, i, from, upto, base);
    var y := LibraryMapped(x, i, from, upto, base);
    TaskDir(y, j);
    HeapShaped(x.w);
    HeapPagesLow(x.w, j);
    ClearPages(x.w, i, from, upto, base);
    MapWalks(x.w, i, from, upto, base);
    StillShown(x, y, other, p);
  }

  lemma ClearPages(w: Tasks, i: nat, from: nat, upto: nat, base: nat)
    requires Shaped(w.sp) && Mappable(w, i, from, upto, base) && i < |w.dir| && w.dir[i] == i
    ensures forall q: nat :: from <= q < upto ==> !HeapPage(w, i, q)
  {
    hide Shaped, Private;
    forall q: nat | from <= q < upto ensures !HeapPage(w, i, q) {
      assert Clear(w, i, q);
    }
  }

  lemma MapWalks(w: Tasks, i: nat, from: nat, upto: nat, base: nat)
    requires HeapInv(w) && Shaped(w.sp) && i < Dirs(w.sp) && Mappable(w, i, from, upto, base)
    ensures var t := MapRange(w.sp, i, from, upto, base);
      && Shaped(t) && Dirs(w.sp) <= 9
      && forall j: nat, q: nat :: j < Dirs(w.sp) && q < 0x100000 && (j != i || !(from <= q < upto)) ==>
           Walk(t, j, q) == Walk(w.sp, j, q)
  {
    hide Inv, Walk, MapRange;
    MapRangeWalks(w.sp, i, from, upto, base);
    NextTaskBound(w.sp);
  }

  lemma DmaSound(x: Physical, size: nat)
    requires Sound(x) && x.w.sp.dmaPtr + size + 4 <= POOL_END
    ensures Sound(x.(w := x.w.(sp := DmaAllocSpec(x.w.sp, size))))
  {
    hide Inv, LaunchSpec.WF, Walk, HeapInv;
    HeapShaped(x.w);
    DmaKeepsHeaps(x.w, size);
  }

  lemma DmaShows(x: Physical, size: nat, id: nat, p: Program)
    requires Sound(x) && x.w.sp.dmaPtr + size + 4 <= POOL_END && Shown(x, id, p)
    ensures Shown(x.(w := x.w.(sp := DmaAllocSpec(x.w.sp, size))), id, p)
  {
    hide Inv, LaunchSpec.WF, Walk, HeapInv, PagesShown, ImageShown, HeapShown, OutsideWindow, InsideImage, PageOwner,
         Shaped, DmaAllocSpec;
    TaskDir(x, x.tasks[id]);
    DmaSound(x, size);
    DmaAllocKeeps(x.w.sp, size);
    HeapShaped(x.w);
    HeapPagesLow(x.w, x.tasks[id]);
    var y := x.(w := x.w.(sp := DmaAllocSpec(x.w.sp, size)));
    TaskDir(y, x.tasks[id]);
    StillShown(x, y, id, p);
  }

  // ---------------------------------------------------------------- every run

  /** A byte of memory the kernel may use for itself: below the user frames and in no
      image. */
  predicate Kernels(x: Physical, a: nat) {
    a < |x.ram| && a < FRAMES_START && forall id :: id in x.k.procs ==> !InImage(x.k.procs[id].memory.appBase, a)
  }

  /** The limits of the code, and programs that store only to addresses of their own. */
  ghost predicate Permitted(x: Physical, s: Ideal, e: Event) {
    match e
    case Exec(data, phs) => CanExec(x, data, phs)
    case Kill(id) => id in s.progs
    case Grow(id, inc) => id in s.progs && CanGrow(x, id, inc)
    case Store(id, va, b) => id in s.progs && Own(s.progs[id], va)
    case MapLibrary(id, from, upto, base) => CanMap(x, s, id, from, upto, base)
    case KernelStore(a, b) => Kernels(x, a)
    case DmaAlloc(size) => x.w.sp.dmaPtr + size + 4 <= POOL_END
  }

  lemma OwnAddress(p: Program, va: nat)
    requires Own(p, va)
    ensures va < MEMORY_END
  {
  }

  lemma ShowsFacts(x: Physical, s: Ideal, e: Event)
    requires Shows(x, s) && Permitted(x, s, e)
    ensures LaunchSpec.WF(x.k) && HeapInv(x.w) && Inv(x.w.sp) && Shaped(x.w.sp)
    ensures forall id :: id in s.progs ==> id in x.k.procs && id in x.tasks && x.tasks[id] < Dirs(x.w.sp) <= 9
    ensures e.Store? ==> x.tasks[e.id] < 8 && e.va < MEMORY_END && Translate(x.w.sp, x.tasks[e.id], e.va).Some?
    ensures e.Store? ==> Translate(x.w.sp, x.tasks[e.id], e.va).value < |x.ram|
  {
    hide LaunchSpec.WF, HeapInv, Inv, Walk, Shaped, CanExec, CanGrow, CanMap, Own;
    HeapShaped(x.w);
    forall id | id in s.progs ensures x.tasks[id] < Dirs(x.w.sp) <= 9 { TaskDir(x, x.tasks[id]); }
    if e.Store? {
      OwnAddress(s.progs[e.id], e.va);
      OwnPlace(x, e.id, s.progs[e.id], e.va);
    }
  }

  ghost function Step(x: Physical, s: Ideal, e: Event): Physical
    requires Shows(x, s) && Permitted(x, s, e)
  {
    hide LaunchSpec.WF, HeapInv, Inv, Walk, Shaped, CanExec, Own, Shows;
    ShowsFacts(x, s, e);
    match e
    case Exec(data, phs) => Executed(x, data, phs)
    case Kill(id) => Ended(x, id)
    case Grow(id, inc) => Grew(x, id, inc)
    case Store(id, va, b) => Poked(x, Translate(x.w.sp, x.tasks[id], va).value, b)
    case MapLibrary(id, from, upto, base) => LibraryMapped(x, x.tasks[id], from, upto, base)
    case KernelStore(a, b) => Poked(x, a, b)
    case DmaAlloc(size) => x.(w := x.w.(sp := DmaAllocSpec(x.w.sp, size)))
  }

  lemma ExecStep(x: Physical, s: Ideal, data: seq<nat>, phs: seq<Phdr>)
    requires Shows(x, s) && CanExec(x, data, phs)
    ensures Shows(Executed(x, data, phs), IdealStep(s, Exec(data, phs)))
  {
    hide LaunchSpec.WF, LaunchSpec.CanLaunch, HeapInv, Startable, Started, HeapSpec.Inv, LaunchSpec.Launched, NewImage,
         Shown, LoadedImage, OutsideWindow;
    LaunchedProcs(x.k);
    ExecSound(x, data, phs);
    ExecNew(x, data, phs);
    forall id | id in s.progs ensures Shown(Executed(x, data, phs), id, s.progs[id]) {
      ExecOthers(x, data, phs, id, s.progs[id]);
    }
  }

  lemma KillStep(x: Physical, s: Ideal, id: nat)
    requires Shows(x, s) && id in s.progs
    ensures LaunchSpec.WF(x.k) && id in x.k.procs && Shows(Ended(x, id), IdealStep(s, Kill(id)))
  {
    hide LaunchSpec.WF, HeapInv, Shown, Ended;
    KillSound(x, id);
    forall other | other in s.progs && other != id ensures Shown(Ended(x, id), other, s.progs[other]) {
      KillShows(x, id, other, s.progs[other]);
    }
  }

  lemma GrowStep(x: Physical, s: Ideal, id: nat, inc: int)
    requires Shows(x, s) && id in s.progs && CanGrow(x, id, inc)
    ensures HeapInv(x.w) && Shows(Grew(x, id, inc), IdealStep(s, Grow(id, inc)))
  {
    hide LaunchSpec.WF, HeapInv, Shown, CanGrow, MoveBreak, BreakMoved;
    GrowSound(x, id, inc);
    GrowSelf(x, id, inc, s.progs[id]);
    forall other | other in s.progs && other != id ensures Shown(Grew(x, id, inc), other, s.progs[other]) {
      GrowOthers(x, id, inc, other, s.progs[other]);
    }
  }

  lemma StoreOthers(x: Physical, s: Ideal, id: nat, va: nat, b: nat, other: nat)
    requires Shows(x, s) && id in s.progs && Own(s.progs[id], va) && other in s.progs && other != id
    ensures Shaped(x.w.sp) && x.tasks[id] < 8 && va < MEMORY_END && Translate(x.w.sp, x.tasks[id], va).Some?
    ensures Translate(x.w.sp, x.tasks[id], va).value < |x.ram|
    ensures Shown(Poked(x, Translate(x.w.sp, x.tasks[id], va).value, b), other, s.progs[other])
  {
    hide LaunchSpec.WF, HeapInv, Shown, Own, Belongs, Sound, Walk, Poked;
    OwnAddress(s.progs[id], va);
    OwnPlace(x, id, s.progs[id], va);
    OwnAlone(x, id, s.progs[id], va, other, s.progs[other]);
    PokeOthers(x, Translate(x.w.sp, x.tasks[id], va).value, b, other, s.progs[other]);
  }

  lemma StoreStep(x: Physical, s: Ideal, id: nat, va: nat, b: nat)
    requires Shows(x, s) && id in s.progs && Own(s.progs[id], va)
    ensures Shaped(x.w.sp) && x.tasks[id] < 8 && va < MEMORY_END && Translate(x.w.sp, x.tasks[id], va).Some?
    ensures Translate(x.w.sp, x.tasks[id], va).value < |x.ram|
    ensures Shows(Poked(x, Translate(x.w.sp, x.tasks[id], va).value, b), IdealStep(s, Store(id, va, b)))
  {
    hide LaunchSpec.WF, HeapInv, Shown, Stored, Own, Sound, Walk;
    OwnAddress(s.progs[id], va);
    StoreSelf(x, id, s.progs[id], va, b);
    PokeSound(x, Translate(x.w.sp, x.tasks[id], va).value, b);
    forall other | other in s.progs && other != id
      ensures Shown(Poked(x, Translate(x.w.sp, x.tasks[id], va).value, b), other, s.progs[other])
    {
      StoreOthers(x, s, id, va, b, other);
    }
  }

  lemma KernelStep(x: Physical, s: Ideal, a: nat, b: nat)
    requires Shows(x, s) && Kernels(x, a)
    ensures Shows(Poked(x, a, b), s)
  {
    hide LaunchSpec.WF, HeapInv, Shown, Belongs, InImage;
    PokeSound(x, a, b);
    forall id | id in s.progs ensures Shown(Poked(x, a, b), id, s.progs[id]) {
      TaskDir(x, x.tasks[id]);
      if Belongs(x.w, x.tasks[id], x.k.procs[id].memory.appBase, a) {
        BelongsWhere(x.w, x.tasks[id], x.k.procs[id].memory.appBase, a);
      }
      PokeOthers(x, a, b, id, s.progs[id]);
    }
  }

  lemma MapStep(x: Physical, s: Ideal, id: nat, from: nat, upto: nat, base: nat)
    requires Shows(x, s) && CanMap(x, s, id, from, upto, base)
    ensures Inv(x.w.sp) && x.tasks[id] < Dirs(x.w.sp)
    ensures Shows(LibraryMapped(x, x.tasks[id], from, upto, base), s)
  {
    hide LaunchSpec.WF, HeapInv, Shown, Inv, Shaped, Mappable, MapRange;
    MapSound(x, x.tasks[id], from, upto, base);
    forall other | other in s.progs
      ensures Shown(LibraryMapped(x, x.tasks[id], from, upto, base), other, s.progs[other])
    {
      MapShows(x, s, id, from, upto, base, other);
    }
  }

  lemma DmaStep(x: Physical, s: Ideal, size: nat)
    requires Shows(x, s) && x.w.sp.dmaPtr + size + 4 <= POOL_END
    ensures Shows(x.(w := x.w.(sp := DmaAllocSpec(x.w.sp, size))), s)
  {
    hide LaunchSpec.WF, HeapInv, Shown, Inv, Shaped, DmaAllocSpec;
    DmaSound(x, size);
    forall id | id in s.progs ensures Shown(x.(w := x.w.(sp := DmaAllocSpec(x.w.sp, size))), id, s.progs[id]) {
      DmaShows(x, size, id, s.progs[id]);
    }
  }

  /** Every event does to memory what it does to the private memories. */
  lemma StepShows(x: Physical, s: Ideal, e: Event)
    requires Shows(x, s) && Permitted(x, s, e)
    ensures Shows(Step(x, s, e), IdealStep(s, e))
  {
    hide LaunchSpec.WF, HeapInv, Shown, Inv, Shaped, Walk, CanExec, CanGrow, CanMap, Own, Kernels, Executed, Ended,
         Grew, MapRange, Sound;
    ShowsFacts(x, s, e);
    match e
    case Exec(data, phs) => ExecStep(x, s, data, phs);
    case Kill(id) => KillStep(x, s, id);
    case Grow(id, inc) => GrowStep(x, s, id, inc);
    case Store(id, va, b) => StoreStep(x, s, id, va, b);
    case MapLibrary(id, from, upto, base) => MapStep(x, s, id, from, upto, base);
    case KernelStore(a, b) => KernelStep(x, s, a, b);
    case DmaAlloc(size) => DmaStep(x, s, size);
  }

  function IdealRun(s: Ideal, es: seq<Event>): Ideal
    decreases |es|
  {
    if es == [] then s else IdealRun(IdealStep(s, es[0]), es[1..])
  }

  ghost predicate AllPermitted(x: Physical, s: Ideal, es: seq<Event>)
    requires Shows(x, s)
    decreases |es|
  {
    hide Shows, Permitted, Step, IdealStep;
    es == [] ||
    (Permitted(x, s, es[0]) &&
     (StepShows(x, s, es[0]); AllPermitted(Step(x, s, es[0]), IdealStep(s, es[0]), es[1..])))
  }

  ghost function Run(x: Physical, s: Ideal, es: seq<Event>): Physical
    requires Shows(x, s) && AllPermitted(x, s, es)
    decreases |es|
  {
    hide Shows, Permitted, Step, IdealStep;
    if es == [] then x else
    StepShows(x, s, es[0]);
    Run(Step(x, s, es[0]), IdealStep(s, es[0]), es[1..])
  }

  /** Isolation. Over any run of launches, kills, `sbrk`, library mapping and stores of up
      to eight tasks, the one physical memory behind the page tables is private memories,
      one for each program. */
  lemma {:induction false} RunShows(x: Physical, s: Ideal, es: seq<Event>)
    requires Shows(x, s) && AllPermitted(x, s, es)
    ensures Shows(Run(x, s, es), IdealRun(s, es))
    decreases |es|
  {
    hide Shows, Permitted, Step, IdealStep;
    if es != [] {
      StepShows(x, s, es[0]);
      RunShows(Step(x, s, es[0]), IdealStep(s, es[0]), es[1..]);
    }
  }

  /** Physical byte `a` holds something a program counts on. */
  ghost predicate CountsOn(x: Physical, id: nat, p: Program, a: nat)
    requires id in x.k.procs && id in x.tasks && Shaped(x.w.sp) && x.tasks[id] < 8
  {
    || InImage(x.k.procs[id].memory.appBase, a)
    || exists va: nat :: va in p.heap && va < MEMORY_END && Translate(x.w.sp, x.tasks[id], va) == Some(a)
  }

  /** Nothing in the tables keeps a program from storing elsewhere, say through the pages
      behind which every directory shows the kernel heap. A store to any byte of memory
      leaves a program its memory exactly when it does not count on that byte or the byte
      was there already. */
  lemma StrayStoreIff(x: Physical, id: nat, p: Program, a: nat, b: nat)
    requires Sound(x) && Shown(x, id, p) && a < |x.ram|
    ensures Shaped(x.w.sp) && x.tasks[id] < 8
    ensures Shown(Poked(x, a, b), id, p) <==> !CountsOn(x, id, p, a) || b == x.ram[a]
  {
    hide LaunchSpec.WF, HeapInv, Inv, Walk, OutsideWindow, InsideImage, PagesShown, Shaped;
    TaskDir(x, x.tasks[id]);
    var y, base := Poked(x, a, b), x.k.procs[id].memory.appBase;
    if b == x.ram[a] {
      assert y.ram == x.ram;
    } else if InImage(base, a) {
      assert y.ram[base + (a - base)] != p.image[a - base];
    } else if CountsOn(x, id, p, a) {
      var va: nat :| va in p.heap && va < MEMORY_END && Translate(x.w.sp, x.tasks[id], va) == Some(a);
      assert HeapHolds(x.w, x.ram, x.tasks[id], va, p.heap[va]);
      assert !HeapHolds(y.w, y.ram, y.tasks[id], va, p.heap[va]);
    } else {
      forall va: nat | va in p.heap ensures HeapHolds(y.w, y.ram, x.tasks[id], va, p.heap[va]) {
        assert HeapHolds(x.w, x.ram, x.tasks[id], va, p.heap[va]);
      }
    }
  }

  /** What a program reads at `va`, if it knows. */
  function Believed(p: Program, va: nat): Option<nat> {
    match PageOwner(p.phs, va / PAGE)
    case Some(c) => if OffsetIn(c, va) < |p.image| then Some(p.image[OffsetIn(c, va)]) else None
    case None => if va in p.heap then Some(p.heap[va]) else None
  }

  // ---------------------------------------------------------------- private memory is memory

  /** A fresh program reads its file: a segment whose pages and places no later one
      touches reads byte for byte. */
  lemma LoadedReads(data: seq<nat>, phs: seq<Phdr>, k: nat, j: nat)
    requires k < |phs| && phs[k].kind == PT_LOAD && KeepsPages(phs, k) && KeepsBytes(phs, k) && InsideImage(phs)
    requires j < phs[k].memsz
    ensures Believed(Program(phs, HEAP_BASE, LoadedImage(data, phs), map[]), phs[k].vaddr + j) ==
      Some(FileByte(data, phs[k], j))
  {
    hide PageOwner, FirstPage, EndPage, ImageByte, KeepsPages, KeepsBytes, FileByte;
    var va, o := phs[k].vaddr + j, phs[k].vaddr % PAGE + j;
    BytePlace(phs[k], j);
    assert phs[k] in phs;
    OwnsItsPages(phs, k, va / PAGE);
    OwnsItsBytes([], data, 0, phs, k, o);
    assert OffsetIn(phs[k], va) == o;
  }

  /** A store is read back; every other address reads as before, unless two segments show
      one place of the image. */
  lemma StoredReads(p: Program, va: nat, b: nat, other: nat)
    requires Own(p, va) && InsideImage(p.phs) && |p.image| == IMAGE
    ensures Believed(Stored(p, va, b), va) == Some(b)
    ensures var c, e := PageOwner(p.phs, va / PAGE), PageOwner(p.phs, other / PAGE);
      other != va && !(c.Some? && e.Some? && OffsetIn(c.value, va) == OffsetIn(e.value, other)) ==>
        Believed(Stored(p, va, b), other) == Believed(p, other)
  {
    hide PageOwner, FirstPage, EndPage;
    var c := PageOwner(p.phs, va / PAGE);
    if c.Some? { OffsetInImage(c.value, va); }
  }

  /** Moving the break keeps the image and every heap byte below the new break. */
  lemma MovedReads(p: Program, inc: int, va: nat)
    requires p.brk + inc >= 0 && (PageOwner(p.phs, va / PAGE).Some? || va < p.brk + inc)
    ensures BreakMoved(p, inc).brk == p.brk + inc
    ensures Believed(BreakMoved(p, inc), va) == Believed(p, va)
  {
    hide PageOwner, FirstPage, EndPage;
  }

  /** No event changes what a program believes but its own store, its own move of the break
      and its end; a launch adds one program under the next id. */
  lemma IdealKeeps(s: Ideal, e: Event, id: nat)
    requires id in s.progs && s.nextPid != id
    requires e != Kill(id) && (e.Grow? || e.Store? ==> e.id != id)
    ensures id in IdealStep(s, e).progs && IdealStep(s, e).progs[id] == s.progs[id]
    ensures IdealStep(s, e).nextPid == if e.Exec? then s.nextPid + 1 else s.nextPid
    ensures e.Kill? ==> e.id !in IdealStep(s, e).progs
  {
  }

  lemma ShownReads(x: Physical, id: nat, p: Program, va: nat)
    requires Sound(x) && Shown(x, id, p) && va < MEMORY_END && Believed(p, va).Some?
    ensures Shaped(x.w.sp) && Reads(Machine(x.ram, x.w.sp), x.tasks[id], va, Believed(p, va).value)
  {
    hide LaunchSpec.WF, HeapInv, Inv, PageOwner, OutsideWindow, Walk, InsideImage, InImage;
    HeapShaped(x.w);
    if PageOwner(p.phs, va / PAGE).Some? {
      OwnPlace(x, id, p, va);
    } else {
      assert HeapHolds(x.w, x.ram, x.tasks[id], va, p.heap[va]);
    }
  }

  /** So after any such run every running program reads, through its page tables, what the
      loader put into its image and what it stored itself, whatever the others did. */
  lemma RunReads(x: Physical, s: Ideal, es: seq<Event>, id: nat, va: nat)
    requires Shows(x, s) && AllPermitted(x, s, es) && id in IdealRun(s, es).progs && va < MEMORY_END
    requires Believed(IdealRun(s, es).progs[id], va).Some?
    ensures var y := Run(x, s, es);
      && id in y.k.procs && id in y.tasks && Shaped(y.w.sp)
      && Reads(Machine(y.ram, y.w.sp), y.tasks[id], va, Believed(IdealRun(s, es).progs[id], va).value)
  {
    hide Run, IdealRun, AllPermitted, Believed, LaunchSpec.WF, HeapInv, Shown;
    RunShows(x, s, es);
    ShownReads(Run(x, s, es), id, IdealRun(s, es).progs[id], va);
  }

  /** Any machine without tasks, such as after boot, starts such a run. */
  lemma BootShows(k: LaunchSpec.KState, sp: Spaces, ram: seq<nat>)
    requires LaunchSpec.WF(k) && k.procs == map[] && Inv(sp) && sp.nextTask == 0 && sp.userPhys <= |ram|
    ensures Shows(Physical(k, Tasks(sp, [], []), ram, map[]), Ideal(k.nextPid, map[]))
  {
    hide LaunchSpec.WF, Inv;
    InvFacts(sp);
  }
}
