/** Two-level page tables, the two bump allocators and `sys_sbrk` as values
    (src/memory.c, src/task.c). Pages are numbered: page `p` starts at `4096 * p`. */
module PagingSpec {
  const PAGE: nat := 4096
  const KERNEL_PD: nat := 8            // index of `page_directory`; 0..7 are `task_page_dirs`
  const POOL_START: nat := 0xC00000    // `dma_memory_pointer` starts here: page tables come from it
  const POOL_END: nat := 0xE00000      // the shared window starts here
  const FRAMES_START: nat := 0x1000000 // `user_phys_memory` starts here
  const HEAP_BASE: nat := 0x410000
  const HEAP_LIMIT: nat := 0x800000
  const MEMORY_END: nat := 0x1_0000_0000

  datatype Option<T> = None | Some(value: T)

  /** `pts` holds every page table by its physical address; `kern` is what `init_paging`
      put into `page_directory`, before any task mapped pages of its own there. */
  datatype Spaces = Spaces(pds: seq<seq<nat>>, pts: map<nat, seq<nat>>,
                           dmaPtr: nat, userPhys: nat, nextTask: nat, kern: seq<nat>)

  predicate Present(e: nat) { e % 2 == 1 }                 // e & 1
  function Base(e: nat): (b: nat)                          // e & 0xFFFFF000
    ensures b % PAGE == 0
  {
    e / PAGE * PAGE
  }
  function RoundUp(a: nat): (r: nat)                       // (a + 4095) & 0xFFFFF000
    ensures r % PAGE == 0 && a <= r < a + PAGE
  {
    (a + 4095) / PAGE * PAGE
  }

  /** `| 7` on an address whose low twelve bits are clear. */
  function Entry(base: nat): (e: nat)
    requires base % PAGE == 0
    ensures Present(e) && Base(e) == base
  {
    base + 7
  }

  ghost predicate Shaped(s: Spaces) {
    && |s.pds| == 9 && s.nextTask <= 8 && |s.kern| == 1024
    && (forall i :: 0 <= i < 9 ==> |s.pds[i]| == 1024)
    && (forall t :: t in s.pts ==> |s.pts[t]| == 1024)
  }

  /** Directories tasks may run on: once all eight private ones are given away,
      `page_directory` itself is the ninth. */
  function Dirs(s: Spaces): nat { if s.nextTask == 8 then 9 else s.nextTask }

  /** The frame behind entry `y` of the table behind entry `x` of a directory. */
  function Leaf(s: Spaces, pd: nat, x: nat, y: nat): Option<nat>
    requires Shaped(s) && pd < 9 && x < 1024 && y < 1024
  {
    var e := s.pds[pd][x];
    if !Present(e) || Base(e) !in s.pts then None else
    var w := s.pts[Base(e)][y];
    if Present(w) then Some(Base(w)) else None
  }

  /** The frame page `p` of a directory is mapped to. */
  function Walk(s: Spaces, pd: nat, p: nat): Option<nat>
    requires Shaped(s) && pd < 9 && p < 0x100000
  {
    Leaf(s, pd, p / 1024, p % 1024)
  }

  /** The physical address a virtual byte address stands for. */
  function Translate(s: Spaces, pd: nat, va: nat): Option<nat>
    requires Shaped(s) && pd < 9 && va < MEMORY_END
  {
    match Walk(s, pd, va / PAGE)
    case None => None
    case Some(f) => Some(f + va % PAGE)
  }

  /** `alloc_page_aligned` and the clearing loop behind it, hung into the directory. */
  function AddTable(s: Spaces, pd: nat, x: nat): (t: Spaces)
    requires Shaped(s) && pd < 9 && x < 1024
    ensures Shaped(t)
  {
    var table := RoundUp(s.dmaPtr);
    var dir: seq<nat> := s.pds[pd][x := Entry(table)];
    s.(pds := s.pds[pd := dir], pts := s.pts[table := seq(1024, _ => 0)], dmaPtr := table + PAGE)
  }

  function SetPte(s: Spaces, table: nat, y: nat, frame: nat): (t: Spaces)
    requires Shaped(s) && table in s.pts && y < 1024 && frame % PAGE == 0
    ensures Shaped(t)
  {
    var entries: seq<nat> := s.pts[table][y := Entry(frame)];
    s.(pts := s.pts[table := entries])
  }

  /** `map_vaddr_to_paddr` for page `p` and frame `f`. */
  function MapSpec(s: Spaces, pd: nat, p: nat, f: nat): (t: Spaces)
    requires Shaped(s) && pd < 9 && p < 0x100000
    requires Present(s.pds[pd][p / 1024]) ==> Base(s.pds[pd][p / 1024]) in s.pts
    ensures Shaped(t)
  {
    var u := if Present(s.pds[pd][p / 1024]) then s else AddTable(s, pd, p / 1024);
    SetPte(u, Base(u.pds[pd][p / 1024]), p % 1024, Base(f))
  }

  /** `create_task_page_dir`: the new state and the directory handed out. */
  function CreateDirSpec(s: Spaces): (Spaces, nat)
    requires Shaped(s)
  {
    if s.nextTask >= 8 then (s, KERNEL_PD)
    else (s.(pds := s.pds[s.nextTask := s.pds[KERNEL_PD]], nextTask := s.nextTask + 1), s.nextTask)
  }

  /** `dma_alloc`: other users of the pool move the same pointer. */
  function DmaAllocSpec(s: Spaces, size: nat): Spaces {
    s.(dmaPtr := (s.dmaPtr + size + 3) / 4 * 4)
  }

  /** A table that directory `i` created for itself. */
  predicate Owns(s: Spaces, i: nat, x: nat)
    requires Shaped(s) && i < 9 && x < 1024
  {
    Present(s.pds[i][x]) && !Present(s.kern[x])
  }

  /** No two slots of any directories in use own one table. */
  ghost predicate Unshared(s: Spaces)
    requires Shaped(s)
  {
    forall i, x, j, y :: 0 <= i < Dirs(s) && 0 <= x < 1024 && 0 <= j < Dirs(s) && 0 <= y < 1024 ==>
      (Owns(s, i, x) && Owns(s, j, y) && Base(s.pds[i][x]) == Base(s.pds[j][y]) ==> i == j && x == y)
  }

  ghost predicate Inv(s: Spaces) {
    && Shaped(s)
    && POOL_START <= s.dmaPtr <= POOL_END && FRAMES_START <= s.userPhys && s.userPhys % PAGE == 0
    && !Present(s.kern[1])
    // nobody runs on `page_directory` while there are private directories left
    && (s.nextTask < 8 ==> s.pds[KERNEL_PD] == s.kern)
    // kernel tables are static arrays outside the pool
    && (forall x :: 0 <= x < 1024 && Present(s.kern[x]) ==> Base(s.kern[x]) in s.pts && Base(s.kern[x]) < POOL_START)
    && (forall x, y :: 0 <= x < y < 1024 && Present(s.kern[x]) && Present(s.kern[y]) ==>
        Base(s.kern[x]) != Base(s.kern[y]))
    // every directory repeats the kernel's entries
    && (forall i, x :: 0 <= i < Dirs(s) && 0 <= x < 1024 && Present(s.kern[x]) ==> s.pds[i][x] == s.kern[x])
    // its own tables come from the pool ...
    && (forall i, x :: 0 <= i < Dirs(s) && 0 <= x < 1024 && Owns(s, i, x) ==>
          Base(s.pds[i][x]) in s.pts && POOL_START <= Base(s.pds[i][x]) && Base(s.pds[i][x]) + PAGE <= s.dmaPtr)
    // ... and are never shared
    && Unshared(s)
  }

  lemma InvFacts(s: Spaces)
    requires Inv(s)
    ensures Shaped(s) && |s.pds| == 9 && s.nextTask <= 8 && Dirs(s) <= 9 &&
        (forall i :: 0 <= i < 9 ==> |s.pds[i]| == 1024)
    ensures FRAMES_START <= s.userPhys && s.userPhys % PAGE == 0 && |s.kern| == 1024 && !Present(s.kern[1])
  {
  }

  /** Page `p` lies where a task may map pages of its own. */
  predicate Private(s: Spaces, p: nat)
    requires Shaped(s)
  {
    p < 0x100000 && !Present(s.kern[p / 1024])
  }

}
