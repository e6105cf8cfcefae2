/** The paging code of src/memory.c and src/task.c with its loops and globals. */
module Paging {
  import opened PagingSpec
  import opened PagingProofs
  import opened SbrkSpec
  import opened SbrkProofs
  import opened PageRights

  /** Where the kernel's own directory maps a page: the first 4 MB, the kernel heap
      and the pool to themselves, and 16 MB of frame buffer if it lies above 16 MB. */
  function KernelFrame(p: nat, framebuffer: nat): Option<nat> {
    var block := p / 1024;
    var fb := framebuffer / 0x400000;
    if block == 0 || block == 2 || block == 3 || (framebuffer != 0 && fb > 3 && fb <= block < fb + 4)
    then Some(p * PAGE) else None
  }

  /** The static arrays `init_paging` fills: page-aligned, distinct, in kernel memory. */
  ghost predicate StaticTables(tables: seq<nat>) {
    && |tables| == 7
    && (forall i :: 0 <= i < 7 ==> 0 < tables[i] && tables[i] % PAGE == 0 && tables[i] < HEAP_BASE - 0x10000)
    && (forall i, j :: 0 <= i < j < 7 ==> tables[i] != tables[j])
  }

  /** One table-filling loop: 1024 consecutive frames from `start`. */
  method FillTable(start: nat, flags: nat) returns (table: seq<nat>)
    requires start % PAGE == 0 && flags % 2 == 1 && flags < 8
    ensures |table| == 1024
    ensures forall i :: 0 <= i < 1024 ==> Present(table[i]) && Base(table[i]) == start + i * PAGE
    ensures forall i :: 0 <= i < 1024 ==> table[i] == start + i * PAGE + flags
  {
    table := [];
    for i := 0 to 1024
      invariant |table| == i
      invariant forall k :: 0 <= k < i ==> table[k] == start + k * PAGE + flags
    {
      table := table + [start + i * 4096 + flags];
    }
    forall i | 0 <= i < 1024 ensures Present(table[i]) && Base(table[i]) == start + i * PAGE {
      FlagsStripped(start + i * PAGE, flags);
    }
  }

  lemma FlagsStripped(base: nat, flags: nat)
    requires base % PAGE == 0 && flags % 2 == 1 && flags < 8
    ensures Present(base + flags) && Base(base + flags) == base
  {
    var q := base / PAGE;
    assert base + flags == 2 * (2048 * q + flags / 2) + 1;
    assert base + flags == PAGE * q + flags;
  }

  /** The table `init_paging` hangs into slot `x` once `n` frame buffer tables are done; 0 for none. */
  function TableFor(tables: seq<nat>, fb: nat, n: nat, x: nat): nat
    requires |tables| == 7 && n <= 4
  {
    if x == 0 then tables[0] else if x == 2 then tables[1] else if x == 3 then tables[2]
    else if fb <= x < fb + n then tables[3 + (x - fb)] else 0
  }

  ghost predicate MapsItself(pts: map<nat, seq<nat>>, t: nat, x: nat) {
    && t in pts && |pts[t]| == 1024
    && forall y :: 0 <= y < 1024 ==> Present(pts[t][y]) && Base(pts[t][y]) == x * 0x400000 + y * PAGE
  }

  ghost predicate KernelMaps(dir: seq<nat>, pts: map<nat, seq<nat>>, tables: seq<nat>, fb: nat, n: nat)
    requires |tables| == 7 && n <= 4
  {
    && |dir| == 1024
    && (forall t :: t in pts ==> |pts[t]| == 1024)
    && (forall x :: 0 <= x < 1024 ==>
          var t := TableFor(tables, fb, n, x);
          if t == 0 then !Present(dir[x]) else Present(dir[x]) && Base(dir[x]) == t && MapsItself(pts, t, x))
  }

  lemma BootInv(dir: seq<nat>, pts: map<nat, seq<nat>>, tables: seq<nat>, framebuffer: nat, n: nat)
    requires StaticTables(tables) && n <= 4 && (n > 0 ==> framebuffer / 0x400000 > 3)
    requires n == if framebuffer != 0 && framebuffer / 0x400000 > 3 then 4 else 0
    requires KernelMaps(dir, pts, tables, framebuffer / 0x400000, n)
    ensures var s := Spaces(seq(8, _ => seq(1024, _ => 0)) + [dir], pts, POOL_START, FRAMES_START, 0, dir);
      && Inv(s)
      && forall p :: 0 <= p < 0x100000 ==> Walk(s, KERNEL_PD, p) == KernelFrame(p, framebuffer)
  {
    var fb := framebuffer / 0x400000;
    var s := Spaces(seq(8, _ => seq(1024, _ => 0)) + [dir], pts, POOL_START, FRAMES_START, 0, dir);
    assert s.pds[KERNEL_PD] == dir;
    forall p | 0 <= p < 0x100000 ensures Walk(s, KERNEL_PD, p) == KernelFrame(p, framebuffer) {
      var x, y := p / 1024, p % 1024;
      var t := TableFor(tables, fb, n, x);
      if t != 0 { assert MapsItself(pts, t, x); }
    }
    assert TableFor(tables, fb, n, 1) == 0;
  }

  /** The tables grant what is in them to user programs, but for the lowest one. */
  ghost predicate KernelRights(dir: seq<nat>, pts: map<nat, seq<nat>>, tables: seq<nat>, fb: nat, n: nat)
    requires |tables| == 7 && n <= 4
  {
    && |dir| == 1024
    && forall x: nat :: x < 1024 ==>
         var t := TableFor(tables, fb, n, x);
         t != 0 ==> Granted(dir[x]) && t in pts && Rights(pts[t], x != 0)
  }

  predicate Rights(table: seq<nat>, open: bool) {
    |table| == 1024 && forall y: nat :: y < 1024 ==> Granted(table[y]) == open
  }

  lemma FlagsGrant(table: seq<nat>, start: nat, flags: nat)
    requires |table| == 1024 && start % PAGE == 0 && (flags == 3 || flags == 7)
    requires forall i :: 0 <= i < 1024 ==> table[i] == start + i * PAGE + flags
    ensures Rights(table, flags == 7)
  {
    hide Granted;
    forall y: nat | y < 1024 ensures Granted(table[y]) == (flags == 7) {
      FlagGrants(start + y * PAGE, flags);
    }
  }

  lemma FlagGrants(base: nat, flags: nat)
    requires base % PAGE == 0 && (flags == 3 || flags == 7)
    ensures Granted(base + flags) == (flags == 7)
  {
    LowBits(base / PAGE, flags);
  }

  lemma ThreeRights(tables: seq<nat>, fb: nat, low: seq<nat>, heap: seq<nat>, dma: seq<nat>)
    requires StaticTables(tables) && Rights(low, false) && Rights(heap, true) && Rights(dma, true)
    ensures KernelRights(seq(1024, _ => 2)[0 := Entry(tables[0])][2 := Entry(tables[1])][3 := Entry(tables[2])],
                         map[tables[0] := low, tables[1] := heap, tables[2] := dma], tables, fb, 0)
  {
    hide Granted;
    EntryGrants(tables[0]);
    EntryGrants(tables[1]);
    EntryGrants(tables[2]);
  }

  lemma AddRights(dir: seq<nat>, maps: map<nat, seq<nat>>, tables: seq<nat>, fb: nat, n: nat, block: seq<nat>)
    requires StaticTables(tables) && 3 < fb <= 1020 && n < 4 && KernelRights(dir, maps, tables, fb, n)
    requires Rights(block, true)
    ensures KernelRights(dir[fb + n := Entry(tables[3 + n])], maps[tables[3 + n] := block], tables, fb, n + 1)
  {
    hide Granted, Entry, Rights;
    EntryGrants(tables[3 + n]);
    var d, m := dir[fb + n := Entry(tables[3 + n])], maps[tables[3 + n] := block];
    forall x: nat | x < 1024
      ensures var t := TableFor(tables, fb, n + 1, x);
        t != 0 ==> Granted(d[x]) && t in m && Rights(m[t], x != 0)
    {
      if x != fb + n {
        var t := TableFor(tables, fb, n, x);
        assert TableFor(tables, fb, n + 1, x) == t;
        assert t != tables[3 + n];
      }
    }
  }

  /** At boot a user program may store to the kernel heap, the pool and the frame buffer,
      and not to the first four megabytes. */
  lemma BootRights(dir: seq<nat>, pts: map<nat, seq<nat>>, tables: seq<nat>, framebuffer: nat, n: nat)
    requires StaticTables(tables) && n <= 4 && (n > 0 ==> framebuffer / 0x400000 > 3)
    requires n == if framebuffer != 0 && framebuffer / 0x400000 > 3 then 4 else 0
    requires KernelMaps(dir, pts, tables, framebuffer / 0x400000, n)
    requires KernelRights(dir, pts, tables, framebuffer / 0x400000, n)
    requires forall t :: t in pts ==> t < POOL_START
    ensures var s := Spaces(seq(8, _ => seq(1024, _ => 0)) + [dir], pts, POOL_START, FRAMES_START, 0, dir);
      && Open(s)
      && forall p: nat :: p < 0x100000 ==>
           (UserStores(s, KERNEL_PD, p) <==> KernelFrame(p, framebuffer).Some? && p >= 0x400)
  {
    hide Granted, Base;
    var fb := framebuffer / 0x400000;
    var s := Spaces(seq(8, _ => seq(1024, _ => 0)) + [dir], pts, POOL_START, FRAMES_START, 0, dir);
    assert s.pds[KERNEL_PD] == dir;
    forall x: nat | x < 1024 ensures Present(dir[x]) ==> Granted(dir[x]) {
      assert TableFor(tables, fb, n, x) == 0 ==> !Present(dir[x]);
    }
    forall p: nat | p < 0x100000
      ensures UserStores(s, KERNEL_PD, p) <==> KernelFrame(p, framebuffer).Some? && p >= 0x400
    {
      var x := p / 1024;
      var t := TableFor(tables, fb, n, x);
      GrantedIsPresent(dir[x]);
      if t != 0 { assert Base(dir[x]) == t && Rights(pts[t], x != 0); }
    }
  }

  ghost predicate MapsBlock(block: seq<nat>, x: nat) {
    |block| == 1024 && forall y :: 0 <= y < 1024 ==> Present(block[y]) && Base(block[y]) == x * 0x400000 + y * PAGE
  }

  /** The first three tables: low memory, kernel heap and pool. */
  lemma ThreeBlocks(tables: seq<nat>, fb: nat, low: seq<nat>, heap: seq<nat>, dma: seq<nat>)
    requires StaticTables(tables) && MapsBlock(low, 0) && MapsBlock(heap, 2) && MapsBlock(dma, 3)
    ensures KernelMaps(seq(1024, _ => 2)[0 := Entry(tables[0])][2 := Entry(tables[1])][3 := Entry(tables[2])],
                       map[tables[0] := low, tables[1] := heap, tables[2] := dma], tables, fb, 0)
  {
  }

  /** The frame buffer loop of `init_paging`. */
  method MapFrameBuffer(dir0: seq<nat>, maps0: map<nat, seq<nat>>, tables: seq<nat>, pdIndex: nat)
    returns (dir: seq<nat>, maps: map<nat, seq<nat>>)
    requires StaticTables(tables) && 3 < pdIndex <= 1020 && KernelMaps(dir0, maps0, tables, pdIndex, 0)
    requires KernelRights(dir0, maps0, tables, pdIndex, 0) && |dir0| == 1024
    requires forall t :: t in maps0 ==> t < POOL_START
    ensures KernelMaps(dir, maps, tables, pdIndex, 4)
    ensures KernelRights(dir, maps, tables, pdIndex, 4) && forall t :: t in maps ==> t < POOL_START
  {
    hide Granted, KernelMaps, KernelRights, Entry, Rights;
    dir, maps := dir0, maps0;
    for t := 0 to 4
      invariant KernelMaps(dir, maps, tables, pdIndex, t) && KernelRights(dir, maps, tables, pdIndex, t)
      invariant |dir| == 1024 && forall t :: t in maps ==> t < POOL_START
    {
      var block := FillTable((pdIndex + t) * 0x400000, 7);
      AddBlock(dir, maps, tables, pdIndex, t, block);
      FlagsGrant(block, (pdIndex + t) * 0x400000, 7);
      AddRights(dir, maps, tables, pdIndex, t, block);
      maps := maps[tables[3 + t] := block];
      dir := dir[pdIndex + t := Entry(tables[3 + t])];
    }
  }

  lemma AddBlock(dir: seq<nat>, maps: map<nat, seq<nat>>, tables: seq<nat>, fb: nat, n: nat, block: seq<nat>)
    requires StaticTables(tables) && 3 < fb <= 1020 && n < 4 && KernelMaps(dir, maps, tables, fb, n)
    requires |block| == 1024
    requires forall y :: 0 <= y < 1024 ==> Present(block[y]) && Base(block[y]) == (fb + n) * 0x400000 + y * PAGE
    ensures KernelMaps(dir[fb + n := Entry(tables[3 + n])], maps[tables[3 + n] := block], tables, fb, n + 1)
  {
    hide Present, Base, Entry;
    var d, m := dir[fb + n := Entry(tables[3 + n])], maps[tables[3 + n] := block];
    forall x | 0 <= x < 1024
      ensures var t := TableFor(tables, fb, n + 1, x);
        if t == 0 then !Present(d[x]) else Present(d[x]) && Base(d[x]) == t && MapsItself(m, t, x)
    {
      if x != fb + n {
        var t := TableFor(tables, fb, n, x);
        assert TableFor(tables, fb, n + 1, x) == t;
        if t != 0 { assert MapsItself(maps, t, x) && t != tables[3 + n]; }
      }
    }
  }

  class AddressSpaces {
    var pds: seq<seq<nat>>            // task_page_dirs[0..8] and, last, page_directory
    var pts: map<nat, seq<nat>>       // page tables by physical address
    var dmaMemoryPointer: nat
    var userPhysMemory: nat
    var nextTaskId: nat
    var vHeapEnd: seq<nat>            // v_heap_end of every user task, in order of creation
    var taskDir: seq<nat>             // the directory behind its cr3
    ghost var kern: seq<nat>          // page_directory as init_paging left it

    ghost function View(): Spaces
      reads this
    {
      Spaces(pds, pts, dmaMemoryPointer, userPhysMemory, nextTaskId, kern)
    }

    ghost function Heaps(): Tasks
      reads this
    {
      Tasks(View(), vHeapEnd, taskDir)
    }

    ghost predicate Valid()
      reads this
    {
      HeapInv(Heaps())
    }

    /** `init_paging` */
    constructor InitPaging(tables: seq<nat>, framebuffer: nat)
      requires StaticTables(tables) && framebuffer / 0x400000 <= 1020
      ensures Valid() && nextTaskId == 0 && vHeapEnd == taskDir == []
      ensures forall p :: 0 <= p < 0x100000 ==> Walk(View(), KERNEL_PD, p) == KernelFrame(p, framebuffer)
      ensures Open(View()) && forall p: nat :: p < 0x100000 ==>
        (UserStores(View(), KERNEL_PD, p) <==> KernelFrame(p, framebuffer).Some? && p >= 0x400)
    {
      hide Walk, Present, Base, Inv, Open, UserStores, Granted, Rights, KernelMaps, KernelRights;
      var dir: seq<nat> := seq(1024, _ => 2);
      var low := FillTable(0, 3);
      var heap := FillTable(0x800000, 7);
      var dma := FillTable(0xC00000, 7);
      var maps := map[tables[0] := low, tables[1] := heap, tables[2] := dma];
      dir := dir[0 := Entry(tables[0])][2 := Entry(tables[1])][3 := Entry(tables[2])];
      var pdIndex := framebuffer / 0x400000;
      ghost var n := 0;
      ThreeBlocks(tables, pdIndex, low, heap, dma);
      FlagsGrant(low, 0, 3);
      FlagsGrant(heap, 0x800000, 7);
      FlagsGrant(dma, 0xC00000, 7);
      ThreeRights(tables, pdIndex, low, heap, dma);
      if framebuffer != 0 && pdIndex > 3 {
        dir, maps := MapFrameBuffer(dir, maps, tables, pdIndex);
        n := 4;
      }
      BootInv(dir, maps, tables, framebuffer, n);
      BootRights(dir, maps, tables, framebuffer, n);
      pds := seq(8, _ => seq(1024, _ => 0)) + [dir];
      pts := maps;
      dmaMemoryPointer := POOL_START;
      userPhysMemory := FRAMES_START;
      nextTaskId := 0;
      vHeapEnd := [];
      taskDir := [];
      kern := dir;
    }

    /** `map_vaddr_to_paddr`, with `alloc_page_aligned` and the clearing loop in line. */
    method MapVaddrToPaddr(pd: nat, vaddr: nat, paddr: nat)
      requires Shaped(View()) && pd < 9 && vaddr < MEMORY_END
      requires Present(pds[pd][vaddr / 0x400000]) ==> Base(pds[pd][vaddr / 0x400000]) in pts
      modifies this`pds, this`pts, this`dmaMemoryPointer
      ensures View() == MapSpec(old(View()), pd, vaddr / PAGE, paddr)
    {
      var pdindex := vaddr / 0x400000;
      var ptindex := vaddr / PAGE % 1024;
      assert vaddr / PAGE / 1024 == pdindex;
      ghost var s := View();
      var pt: nat;
      if !Present(pds[pd][pdindex]) {
        pt := AllocPageAligned();
        var clear: seq<nat> := if pt in pts then pts[pt] else seq(1024, _ => 0);
        for i := 0 to 1024
          invariant |clear| == 1024 && forall k :: 0 <= k < i ==> clear[k] == 0
        {
          clear := clear[i := 0];
        }
        assert clear == seq(1024, _ => 0);
        pts := pts[pt := clear];
        var dir: seq<nat> := pds[pd][pdindex := Entry(pt)];
        pds := pds[pd := dir];
        assert View() == AddTable(s, pd, pdindex);
      } else {
        pt := Base(pds[pd][pdindex]);
      }
      var entries: seq<nat> := pts[pt][ptindex := Entry(Base(paddr))];
      pts := pts[pt := entries];
    }

    /** `alloc_page_aligned` */
    method AllocPageAligned() returns (ptr: nat)
      modifies this`dmaMemoryPointer
      ensures ptr == RoundUp(old(dmaMemoryPointer)) && dmaMemoryPointer == ptr + PAGE
    {
      if dmaMemoryPointer % 4096 != 0 {
        dmaMemoryPointer := dmaMemoryPointer + (4096 - dmaMemoryPointer % 4096);
      }
      ptr := dmaMemoryPointer;
      dmaMemoryPointer := dmaMemoryPointer + 4096;
    }

    /** `alloc_user_page` */
    method AllocUserPage() returns (ptr: nat)
      modifies this`userPhysMemory
      ensures ptr == old(userPhysMemory) && userPhysMemory == ptr + PAGE
    {
      ptr := userPhysMemory;
      userPhysMemory := userPhysMemory + 4096;
    }

    /** `create_task_page_dir` and the task fields set from it: every task gets a break of
        its own, the first eight a directory of their own. */
    method CreateTaskPageDir() returns (pd: nat)
      requires Valid()
      modifies this
      ensures Valid() && pd == CreateDirSpec(old(View())).1
      ensures Heaps() == NewTaskSpec(old(Heaps()))
    {
      hide Inv, Walk, HeapInv;
      HeapShaped(Heaps());
      InvFacts(View());
      NewTaskKeepsHeaps(Heaps());
      pd := KERNEL_PD;
      if nextTaskId < 8 {
        pd := nextTaskId;
        var dir := CopyEntries(pds[pd], pds[KERNEL_PD]);
        pds := pds[pd := dir];
        nextTaskId := nextTaskId + 1;
      }
      vHeapEnd := vHeapEnd + [HEAP_BASE];
      taskDir := taskDir + [pd];
    }

    /** The copy loop of `create_task_page_dir`. */
    static method CopyEntries(target: seq<nat>, source: seq<nat>) returns (dir: seq<nat>)
      requires |target| == 1024 == |source|
      ensures dir == source
    {
      dir := target;
      for i := 0 to 1024
        invariant |dir| == 1024 && forall k :: 0 <= k < i ==> dir[k] == source[k]
      {
        dir := dir[i := source[i]];
      }
    }

    /** `sys_sbrk`, which knows no limit; inside the heap window all heaps stay valid. */
    method SysSbrk(task: nat, increment: int) returns (oldBreak: nat)
      requires Inv(View()) && task < |vHeapEnd| == |taskDir| && taskDir[task] < Dirs(View()) <= 9
      requires Movable(Heaps(), task, increment)
      modifies this
      ensures Inv(View()) && (Heaps(), oldBreak) == BreakSpec(old(Heaps()), task, increment)
      ensures old(Valid() && CanMove(Heaps(), task, increment)) ==>
        Valid() && (Heaps(), oldBreak) == MoveBreak(old(Heaps()), task, increment)
    {
      hide GrowSpec, HeapInv, Inv, Shaped, Room, CanMove, MoveBreak;
      InvFacts(View());
      if Valid() && CanMove(Heaps(), task, increment) {
        BreakInWindow(Heaps(), task, increment);
        SbrkKeepsHeaps(Heaps(), task, increment);
      }
      oldBreak := vHeapEnd[task];
      if increment != 0 {
        var newBreak := (oldBreak + increment) % 0x1_0000_0000;
        MapUpTo(taskDir[task], oldBreak, newBreak);
        vHeapEnd := vHeapEnd[task := newBreak];
      }
    }

    /** Maps what growing from one break to another takes; shrinking unmaps nothing. */
    method MapUpTo(pd: nat, oldBreak: nat, newBreak: nat)
      requires Inv(View()) && pd < Dirs(View()) && oldBreak < MEMORY_END && newBreak < MEMORY_END
      requires newBreak > oldBreak ==> Room(View(), pd, PageFor(oldBreak), PageFor(newBreak))
      modifies this`pds, this`pts, this`dmaMemoryPointer, this`userPhysMemory
      ensures Inv(View())
      ensures View() == if newBreak > oldBreak
        then GrowSpec(old(View()), pd, PageFor(oldBreak), PageFor(newBreak)) else old(View())
    {
      hide Inv, GrowSpec, Room;
      var startPage := (oldBreak + 4095) % 0x1_0000_0000 / 4096 * 4096;
      var endPage := (newBreak + 4095) % 0x1_0000_0000 / 4096 * 4096;
      if newBreak > oldBreak {
        MapFreshPages(pd, startPage, endPage);
      }
    }

    /** The loop of `sys_sbrk`. */
    method MapFreshPages(pd: nat, startPage: nat, endPage: nat)
      requires Inv(View()) && pd < Dirs(View()) && startPage % PAGE == 0 && endPage % PAGE == 0
      requires startPage < MEMORY_END && endPage < MEMORY_END
      requires Room(View(), pd, startPage / PAGE, endPage / PAGE)
      modifies this`pds, this`pts, this`dmaMemoryPointer, this`userPhysMemory
      ensures Inv(View())
      ensures View() == GrowSpec(old(View()), pd, startPage / PAGE, endPage / PAGE)
    {
      hide Inv, Present, Base, AddTable, SetPte, Grown, Walk, MapSpec, Room, RoundOk;
      ghost var s, first: nat, page: nat, last: nat := View(), startPage / PAGE, startPage / PAGE, endPage / PAGE;
      var vaddr := startPage;
      InvFacts(s);
      FitsIsRoom(s, pd, first, first);
      while vaddr < endPage
        invariant first <= page <= 0x100000 && (page <= last || page == first) && vaddr == page * PAGE
        invariant Room(s, pd, first, page) && View() == GrowSpec(s, pd, first, page)
      {
        RoomUpTo(s, pd, first, page + 1, last);
        RoomForOne(s, pd, first, page + 1);
        NextFrame(View(), pd, page);
        MapReaches(View().(userPhys := View().userPhys + PAGE), pd, page, View().userPhys);
        page := page + 1;
        var paddr := AllocUserPage();
        MapVaddrToPaddr(pd, vaddr, paddr);
        vaddr := vaddr + 4096;
      }
    }
  }
}
