/** User heaps on top of the page tables: `sys_sbrk` for any number of user tasks. */
module SbrkSpec {
  import opened PagingSpec
  import opened PagingProofs

  const FIRST_PAGE: nat := 0x410       // page number of HEAP_BASE

  /** User tasks in order of creation: `brk[i]` is `v_heap_end` of task `i` and `dir[i]`
      the directory it runs on, `KERNEL_PD` for those that got `page_directory`. */
  datatype Tasks = Tasks(sp: Spaces, brk: seq<nat>, dir: seq<nat>)

  /** The directory `create_task_page_dir` hands to the task created `i`-th. */
  function DirOf(i: nat): nat { if i < 8 then i else KERNEL_PD }

  /** Each new page takes the next fresh frame. */
  ghost predicate Grown(s: Spaces, t: Spaces, pd: nat, from: nat, upto: nat)
    requires Shaped(s) && pd < Dirs(s)
  {
    && Inv(t) && t.nextTask == s.nextTask && t.kern == s.kern
    && t.userPhys == s.userPhys + (if from < upto then (upto - from) * PAGE else 0)
    && (forall i, p :: 0 <= i < Dirs(s) && 0 <= p < 0x100000 ==>
          Walk(t, i, p) ==
            if from <= p < upto && Reached(s, pd, p, i) then Some(s.userPhys + (p - from) * PAGE) else Walk(s, i, p))
  }

  predicate PoolRoom(s: Spaces, pd: nat)
    requires Shaped(s) && pd < 9
  {
    Present(s.pds[pd][1]) || s.dmaPtr + 2 * PAGE <= POOL_END
  }

  /** Slots `a` up to but not including `b` of a directory without a table. */
  function Missing(dir: seq<nat>, a: nat, b: nat): nat
    requires b <= |dir|
  {
    if b <= a then 0 else Missing(dir, a, b - 1) + if Present(dir[b - 1]) then 0 else 1
  }

  /** The pool has the page tables that mapping the range may take: one, in the heap window. */
  predicate Room(s: Spaces, pd: nat, from: nat, upto: nat)
    requires Shaped(s) && pd < 9 && upto <= 0x100000
  {
    || upto <= from
    || (0x400 <= from && upto <= 0x800 && PoolRoom(s, pd))
    || s.dmaPtr + 2 * PAGE * Missing(s.pds[pd], from / 1024, (upto - 1) / 1024 + 1) <= POOL_END
  }

  /** Page `p` can be mapped next: its table is there or the pool has room for it. */
  ghost predicate RoundOk(u: Spaces, pd: nat, p: nat) {
    && Inv(u) && pd < Dirs(u) && p < 0x100000
    && (Present(u.pds[pd][p / 1024]) || u.dmaPtr + 2 * PAGE <= POOL_END)
  }

  /** One round of the mapping loop of `sys_sbrk`: page `p` gets the next frame. */
  function Round(u: Spaces, pd: nat, p: nat): (t: Spaces)
    requires RoundOk(u, pd, p)
    ensures Inv(t) && Shaped(t) && t.nextTask == u.nextTask && t.kern == u.kern
  {
    hide Inv, MapSpec, Walk, Present, Base;
    NextFrame(u, pd, p);
    MapReaches(u.(userPhys := u.userPhys + PAGE), pd, p, u.userPhys);
    MapSpec(u.(userPhys := u.userPhys + PAGE), pd, p, u.userPhys)
  }

  lemma NextFrame(u: Spaces, pd: nat, p: nat)
    requires RoundOk(u, pd, p)
    ensures var v := u.(userPhys := u.userPhys + PAGE);
      && Inv(v) && Shaped(u) && Shaped(v) && pd < Dirs(v) == Dirs(u) <= 9 && u.userPhys % PAGE == 0 && p < 0x100000
      && (Present(v.pds[pd][p / 1024]) || v.dmaPtr + 2 * PAGE <= POOL_END)
  {
    hide Inv;
    InvFacts(u);
    FrameBump(u);
  }

  ghost predicate Growable(s: Spaces, pd: nat, from: nat, upto: nat) {
    Inv(s) && Shaped(s) && pd < Dirs(s) && upto <= 0x100000 && Room(s, pd, from, upto)
  }

  /** The whole loop, for pages `from` up to but not including `upto`. */
  function GrowSpec(s: Spaces, pd: nat, from: nat, upto: nat): (t: Spaces)
    requires Growable(s, pd, from, upto)
    ensures Inv(t) && Shaped(t) && t.nextTask == s.nextTask && t.kern == s.kern
    decreases upto, 0
  {
    hide Inv, Shaped, Dirs, Room, Round, RoundOk, Missing, Present, Walk;
    InvFacts(s);
    if upto <= from then s else
    RoomForOne(s, pd, from, upto);
    Round(GrowSpec(s, pd, from, upto - 1), pd, upto - 1)
  }

  lemma RoomForOne(s: Spaces, pd: nat, from: nat, upto: nat)
    requires Inv(s) && pd < Dirs(s) && from < upto <= 0x100000 && Room(s, pd, from, upto)
    ensures Room(s, pd, from, upto - 1)
    ensures RoundOk(GrowSpec(s, pd, from, upto - 1), pd, upto - 1)
    decreases upto - 1, 2
  {
    hide Inv, Present, Walk, Room, Missing, GrowSpec;
    InvFacts(s);
    RoomUpTo(s, pd, from, upto - 1, upto);
    TablesFit(s, pd, from, upto);
    Potential(s, pd, from, upto - 1, (upto - 1) / 1024 + 1);
    var u := GrowSpec(s, pd, from, upto - 1);
    InvFacts(u);
    LastMissing(u.pds[pd], from / 1024, (upto - 1) / 1024);
  }

  lemma LastMissing(dir: seq<nat>, a: nat, x: nat)
    requires a <= x < |dir|
    ensures !Present(dir[x]) ==> Missing(dir, a, x + 1) >= 1
  {
  }

  lemma RoomUpTo(s: Spaces, pd: nat, from: nat, mid: nat, upto: nat)
    requires Inv(s) && pd < Dirs(s) && mid <= upto <= 0x100000 && Room(s, pd, from, upto)
    ensures Room(s, pd, from, mid)
  {
    hide Inv, Present, Missing, Room;
    InvFacts(s);
    if from < mid {
      TablesFit(s, pd, from, upto);
      MissingGrows(s.pds[pd], from / 1024, (mid - 1) / 1024 + 1, (upto - 1) / 1024 + 1);
    }
    FitsIsRoom(s, pd, from, mid);
  }

  lemma FitsIsRoom(s: Spaces, pd: nat, from: nat, upto: nat)
    requires Shaped(s) && pd < 9 && upto <= 0x100000
    requires upto <= from || s.dmaPtr + 2 * PAGE * Missing(s.pds[pd], from / 1024, (upto - 1) / 1024 + 1) <= POOL_END
    ensures Room(s, pd, from, upto)
  {
  }

  /** In the heap window the room asked for is that of one table. */
  lemma TablesFit(s: Spaces, pd: nat, from: nat, upto: nat)
    requires Inv(s) && pd < Dirs(s) && from < upto <= 0x100000 && Room(s, pd, from, upto)
    ensures s.dmaPtr + 2 * PAGE * Missing(s.pds[pd], from / 1024, (upto - 1) / 1024 + 1) <= POOL_END
  {
    if 0x400 <= from && upto <= 0x800 {
      assert from / 1024 == 1 && (upto - 1) / 1024 == 1;
      assert Missing(s.pds[pd], 1, 1) == 0;
    }
  }

  lemma {:induction false} MissingGrows(dir: seq<nat>, a: nat, b: nat, c: nat)
    requires b <= c <= |dir|
    ensures Missing(dir, a, b) <= Missing(dir, a, c)
    decreases c
  {
    if b < c && a < c { MissingGrows(dir, a, b, c - 1); }
  }

  lemma {:induction false} MissingSet(dir: seq<nat>, x: nat, e: nat, a: nat, b: nat)
    requires x < |dir| && b <= |dir| && !Present(dir[x]) && Present(e)
    ensures Missing(dir[x := e], a, b) == Missing(dir, a, b) - if a <= x < b then 1 else 0
    decreases b
  {
    if a < b { MissingSet(dir, x, e, a, b - 1); }
  }

  /** Every table taken from the pool is one that was missing. */
  lemma Potential(s: Spaces, pd: nat, from: nat, upto: nat, b: nat)
    requires Inv(s) && pd < Dirs(s) && from <= upto <= 0x100000 && Room(s, pd, from, upto)
    requires b <= 1024 && (from < upto ==> (upto - 1) / 1024 < b)
    ensures var t := GrowSpec(s, pd, from, upto);
      t.dmaPtr + 2 * PAGE * Missing(t.pds[pd], from / 1024, b) <=
          s.dmaPtr + 2 * PAGE * Missing(s.pds[pd], from / 1024, b)
    decreases upto, 1
  {
    hide Inv, Walk, Round, RoundOk, Room, Missing;
    InvFacts(s);
    if from < upto {
      RoomForOne(s, pd, from, upto);
      Potential(s, pd, from, upto - 1, b);
      OneTable(GrowSpec(s, pd, from, upto - 1), pd, upto - 1, from / 1024, b);
    }
  }

  lemma OneTable(u: Spaces, pd: nat, p: nat, a: nat, b: nat)
    requires RoundOk(u, pd, p) && a <= p / 1024 < b <= 1024
    ensures pd < 9 && Shaped(u)
    ensures Round(u, pd, p).dmaPtr + 2 * PAGE * Missing(Round(u, pd, p).pds[pd], a, b) <=
        u.dmaPtr + 2 * PAGE * Missing(u.pds[pd], a, b)
  {
    hide Inv, Base, Missing;
    NextFrame(u, pd, p);
    if !Present(u.pds[pd][p / 1024]) { MissingSet(u.pds[pd], p / 1024, Entry(RoundUp(u.dmaPtr)), a, b); }
  }

  lemma GrowOne(u: Spaces, pd: nat, p: nat)
    requires RoundOk(u, pd, p)
    ensures Shaped(u) && pd < Dirs(u)
    ensures Grown(u, Round(u, pd, p), pd, p, p + 1)
  {
    hide Inv, Present, Base;
    NextFrame(u, pd, p);
    var v := u.(userPhys := u.userPhys + PAGE);
    assert forall i, q :: 0 <= i < Dirs(u) && 0 <= q < 0x100000 ==> Walk(v, i, q) == Walk(u, i, q);
    MapReaches(v, pd, p, u.userPhys);
    BaseOfFrame(u.userPhys, 0);
  }

  /** All rounds: the new pages get consecutive fresh frames, nothing else moves. */
  lemma {:induction false} GrowSpecGrows(s: Spaces, pd: nat, from: nat, upto: nat)
    requires Inv(s) && pd < Dirs(s) && upto <= 0x100000 && Room(s, pd, from, upto)
    ensures Grown(s, GrowSpec(s, pd, from, upto), pd, from, upto)
    decreases upto
  {
    hide Inv, Walk, Grown, Shaped, Round, RoundOk, Room;
    InvFacts(s);
    if from < upto {
      RoomForOne(s, pd, from, upto);
      var u := GrowSpec(s, pd, from, upto - 1);
      GrowSpecGrows(s, pd, from, upto - 1);
      GrowOne(u, pd, upto - 1);
      GrownTwice(s, u, GrowSpec(s, pd, from, upto), pd, from, upto - 1);
    } else {
      GrownNone(s, pd, from, upto);
    }
  }

  lemma GrownNone(s: Spaces, pd: nat, from: nat, upto: nat)
    requires Inv(s) && pd < Dirs(s) && upto <= from
    ensures Grown(s, s, pd, from, upto)
  {
    hide Walk;
  }

  lemma GrownTwice(s: Spaces, u: Spaces, v: Spaces, pd: nat, from: nat, p: nat)
    requires Shaped(s) && Shaped(u) && pd < Dirs(s) && s.nextTask == u.nextTask && from <= p
    requires Grown(s, u, pd, from, p) && Grown(u, v, pd, p, p + 1)
    ensures Grown(s, v, pd, from, p + 1)
  {
    hide Inv, Walk, Shaped;
    InvFacts(v);
  }

  /** Growing inside the window leaves room to grow on. */
  lemma RoomStays(s: Spaces, pd: nat, from: nat, upto: nat)
    requires Inv(s) && pd < Dirs(s) && 0x400 <= from && upto <= 0x800 && PoolRoom(s, pd)
    ensures PoolRoom(GrowSpec(s, pd, from, upto), pd)
  {
    hide Inv, Walk;
    InvFacts(s);
    WindowRoom(s, pd, from, upto);
    if from < upto {
      var t := GrowSpec(s, pd, from, upto);
      TablesFit(s, pd, from, upto);
      Potential(s, pd, from, upto, 2);
      assert from / 1024 == 1 && (upto - 1) / 1024 == 1;
      assert Missing(t.pds[pd], 1, 1) == 0 && Missing(t.pds[pd], 1, 2) == if Present(t.pds[pd][1]) then 0 else 1;
    }
  }

  lemma FrameBump(u: Spaces)
    requires Inv(u)
    ensures Inv(u.(userPhys := u.userPhys + PAGE))
  {
    var v := u.(userPhys := u.userPhys + PAGE);
    assert forall i, x :: 0 <= i < 9 && 0 <= x < 1024 ==> Owns(v, i, x) == Owns(u, i, x);
  }

  lemma BaseOfFrame(start: nat, n: nat)
    requires start % PAGE == 0
    ensures Base(start + n * PAGE) == start + n * PAGE
  {
  }

  // ---------------------------------------------------------------- the system call

  ghost predicate HeapPage(w: Tasks, i: nat, p: nat) {
    i < |w.brk| && FIRST_PAGE <= p && p * PAGE < w.brk[i]
  }

  ghost predicate TasksOk(w: Tasks) {
    && Shaped(w.sp) && |w.dir| == |w.brk|
    && w.sp.nextTask == (if |w.brk| < 8 then |w.brk| else 8)
    && (forall i :: 0 <= i < |w.dir| ==> w.dir[i] == DirOf(i))
    && (forall i :: 0 <= i < |w.brk| ==> HEAP_BASE <= w.brk[i] <= HEAP_LIMIT)
  }

  /** Every heap page of every task is mapped, and two of them to one frame only if they
      are one page of one directory. */
  ghost predicate HeapInv(w: Tasks) {
    && Inv(w.sp) && TasksOk(w)
    && (forall i: nat, p: nat :: HeapPage(w, i, p) ==> OwnFrame(w.sp, w.dir[i], p))
    && (forall i: nat, p: nat, j: nat, q: nat :: HeapPage(w, i, p) && HeapPage(w, j, q) ==>
          (Walk(w.sp, w.dir[i], p) == Walk(w.sp, w.dir[j], q) ==> w.dir[i] == w.dir[j] && p == q))
  }

  lemma DirInUse(w: Tasks, i: nat)
    requires TasksOk(w) && i < |w.dir|
    ensures w.dir[i] < Dirs(w.sp) <= 9
  {
  }

  /** Mapped, to an aligned frame that `alloc_user_page` has handed out. */
  ghost predicate OwnFrame(s: Spaces, i: nat, p: nat)
    requires Shaped(s)
  {
    && i < 9 && p < 0x100000
    && Walk(s, i, p).Some?
    && FRAMES_START <= Walk(s, i, p).value < s.userPhys && Walk(s, i, p).value % PAGE == 0
  }

  /** The limits under which the break may move: the heap window, room for one more
      page table, and frames below 4 GB. */
  predicate CanMove(w: Tasks, i: nat, inc: int)
    requires Shaped(w.sp) && i < |w.brk| && i < |w.dir| && w.dir[i] < 9
  {
    && HEAP_BASE <= w.brk[i] + inc <= HEAP_LIMIT
    && PoolRoom(w.sp, w.dir[i])
    && w.sp.userPhys + 0x400 * PAGE <= MEMORY_END
  }

  /** Number of the first page at or above an address. */
  function PageAbove(a: nat): (p: nat)
    ensures (p - 1) * PAGE < a <= p * PAGE
    ensures HEAP_BASE <= a <= HEAP_LIMIT ==> FIRST_PAGE <= p <= 0x800
  {
    RoundUp(a) / PAGE
  }

  /** `sys_sbrk(inc)` by task `i`: the new state and the returned old break. */
  function MoveBreak(w: Tasks, i: nat, inc: int): (Tasks, nat)
    requires HeapInv(w) && i < |w.brk| && w.dir[i] < 9 && CanMove(w, i, inc)
  {
    DirInUse(w, i);
    var oldBreak := w.brk[i];
    if inc == 0 then (w, oldBreak) else
    var newBreak := oldBreak + inc;
    var sp := if newBreak > oldBreak then GrowSpec(w.sp, w.dir[i], PageAbove(oldBreak), PageAbove(newBreak)) else w.sp;
    (w.(sp := sp, brk := w.brk[i := newBreak]), oldBreak)
  }

  /** `new_break` in 32 bits. */
  function NewBreak(oldBreak: nat, inc: int): nat { (oldBreak + inc) % MEMORY_END }

  /** Number of the page `(a + 4095) & 0xFFFFF000`, in 32 bits. */
  function PageFor(a: nat): (p: nat)
    ensures p < 0x100000
  {
    (a + 4095) % MEMORY_END / PAGE
  }

  /** The pool has the tables and memory the frames a call of `sys_sbrk` takes. */
  predicate Movable(w: Tasks, i: nat, inc: int)
    requires Shaped(w.sp) && i < |w.brk| && i < |w.dir| && w.dir[i] < 9
  {
    && w.brk[i] < MEMORY_END
    && (NewBreak(w.brk[i], inc) > w.brk[i] ==>
          var from, upto := PageFor(w.brk[i]), PageFor(NewBreak(w.brk[i], inc));
          Room(w.sp, w.dir[i], from, upto) && w.sp.userPhys + (upto - from) * PAGE <= MEMORY_END)
  }

  /** `sys_sbrk(inc)` by task `i`, wherever the break goes: the code knows no limit. */
  function BreakSpec(w: Tasks, i: nat, inc: int): (Tasks, nat)
    requires Inv(w.sp) && i < |w.brk| && i < |w.dir| && w.dir[i] < Dirs(w.sp) <= 9 && Movable(w, i, inc)
  {
    var oldBreak := w.brk[i];
    if inc == 0 then (w, oldBreak) else
    var newBreak := NewBreak(oldBreak, inc);
    var sp := if newBreak > oldBreak then GrowSpec(w.sp, w.dir[i], PageFor(oldBreak), PageFor(newBreak)) else w.sp;
    (w.(sp := sp, brk := w.brk[i := newBreak]), oldBreak)
  }

  /** Inside the heap window nothing wraps. */
  lemma BreakInWindow(w: Tasks, i: nat, inc: int)
    requires HeapInv(w) && i < |w.brk| && w.dir[i] < 9 && CanMove(w, i, inc)
    ensures w.dir[i] < Dirs(w.sp) <= 9 && Movable(w, i, inc)
    ensures BreakSpec(w, i, inc) == MoveBreak(w, i, inc)
  {
    hide Inv, Shaped, HeapPage, OwnFrame, Walk, PoolRoom, Room, GrowSpec, PageFor, PageAbove;
    DirInUse(w, i);
    PagesInWindow(w.brk[i]);
    PagesInWindow(w.brk[i] + inc);
    WindowRoom(w.sp, w.dir[i], PageFor(w.brk[i]), PageFor(w.brk[i] + inc));
    if inc > 0 { PagesApart(w.brk[i], w.brk[i] + inc); }
  }

  lemma WindowRoom(s: Spaces, pd: nat, from: nat, upto: nat)
    requires Shaped(s) && pd < 9 && PoolRoom(s, pd) && 0x400 <= from && upto <= 0x800
    ensures Room(s, pd, from, upto)
  {
  }

  lemma PagesInWindow(a: nat)
    requires HEAP_BASE <= a <= HEAP_LIMIT
    ensures PageFor(a) == PageAbove(a) && FIRST_PAGE <= PageFor(a) <= 0x800
  {
  }

  lemma PagesApart(a: nat, b: nat)
    requires HEAP_BASE <= a <= b <= HEAP_LIMIT
    ensures 0 <= (PageFor(b) - PageFor(a)) * PAGE <= 0x400 * PAGE
  {
    PagesInWindow(a);
    PagesInWindow(b);
  }

  /** Page `p` of directory `pd` is mapped anew when task `i` moves its break by `inc`. */
  predicate Remapped(w: Tasks, i: nat, inc: int, pd: nat, p: nat)
    requires i < |w.brk| && i < |w.dir| && w.brk[i] + inc >= 0
  {
    inc > 0 && pd == w.dir[i] && PageAbove(w.brk[i]) <= p < PageAbove(w.brk[i] + inc)
  }

  /** Growing or shrinking keeps all heaps mapped and the directories apart. Translations
      change exactly on the pages mapped anew. */
  lemma SbrkKeepsHeaps(w: Tasks, i: nat, inc: int)
    requires HeapInv(w) && i < |w.brk| && w.dir[i] < 9 && CanMove(w, i, inc)
    ensures var t := MoveBreak(w, i, inc).0;
      && HeapInv(t) && t.dir == w.dir && t.brk == w.brk[i := w.brk[i] + inc]
      && t.sp.kern == w.sp.kern && Dirs(t.sp) == Dirs(w.sp)
      && (forall d: nat, p: nat :: d < Dirs(w.sp) && p < 0x100000 && !Remapped(w, i, inc, d, p) ==>
            Walk(t.sp, d, p) == Walk(w.sp, d, p))
      && (forall j: nat, p: nat :: HeapPage(w, j, p) && p < 0x100000 && Remapped(w, i, inc, w.dir[j], p) ==>
            Walk(t.sp, w.dir[j], p) != Walk(w.sp, w.dir[j], p))
  {
    hide GrowSpec, PageAbove, Walk, Inv, Shaped, HeapPage, OwnFrame;
    if inc > 0 {
      GrowKeepsHeaps(w, i, inc);
    } else {
      ShrinkKeepsHeaps(w, i, inc);
    }
  }

  /** There is room to grow again, and a call takes four megabytes of frames at most. */
  lemma GrowRoom(w: Tasks, i: nat, inc: int)
    requires HeapInv(w) && i < |w.brk| && w.dir[i] < 9 && CanMove(w, i, inc)
    ensures var t := MoveBreak(w, i, inc).0; PoolRoom(t.sp, w.dir[i]) && t.sp.userPhys <= w.sp.userPhys + 0x400 * PAGE
  {
    hide Walk, Inv, HeapPage, Shaped, PageAbove, PoolRoom, GrowSpec, Room;
    DirInUse(w, i);
    InvFacts(w.sp);
    if inc > 0 {
      var from, upto := PageAbove(w.brk[i]), PageAbove(w.brk[i] + inc);
      WindowRoom(w.sp, w.dir[i], from, upto);
      GrowSpecGrows(w.sp, w.dir[i], from, upto);
      RoomStays(w.sp, w.dir[i], from, upto);
    }
  }

  lemma ShrinkKeepsHeaps(w: Tasks, i: nat, inc: int)
    requires HeapInv(w) && i < |w.brk| && inc <= 0 && HEAP_BASE <= w.brk[i] + inc
    ensures HeapInv(w.(brk := w.brk[i := w.brk[i] + inc]))
    ensures w.(brk := w.brk[i := w.brk[i]]) == w
  {
    hide Inv, Walk, Shaped;
    var t := w.(brk := w.brk[i := w.brk[i] + inc]);
    assert forall j: nat, p: nat :: HeapPage(t, j, p) ==> HeapPage(w, j, p);
    assert w.brk[i := w.brk[i]] == w.brk;
  }

  lemma GrowKeepsHeaps(w: Tasks, i: nat, inc: int)
    requires HeapInv(w) && i < |w.brk| && w.dir[i] < 9 && CanMove(w, i, inc) && inc > 0
    ensures w.dir[i] < Dirs(w.sp)
    ensures var from, upto := PageAbove(w.brk[i]), PageAbove(w.brk[i] + inc);
      var t := w.(sp := GrowSpec(w.sp, w.dir[i], from, upto), brk := w.brk[i := w.brk[i] + inc]);
      && HeapInv(t) && t.sp.kern == w.sp.kern && Dirs(t.sp) == Dirs(w.sp)
      && (forall d: nat, p: nat :: d < Dirs(w.sp) && p < 0x100000 && !Remapped(w, i, inc, d, p) ==>
            Walk(t.sp, d, p) == Walk(w.sp, d, p))
      && (forall j: nat, p: nat :: HeapPage(w, j, p) && p < 0x100000 && Remapped(w, i, inc, w.dir[j], p) ==>
            Walk(t.sp, w.dir[j], p) != Walk(w.sp, w.dir[j], p))
  {
    hide Inv, Walk, Shaped, GrowSpec, PageAbove;
    DirInUse(w, i);
    var from, upto := PageAbove(w.brk[i]), PageAbove(w.brk[i] + inc);
    InvFacts(w.sp);
    GrowSpecGrows(w.sp, w.dir[i], from, upto);
    var sp := GrowSpec(w.sp, w.dir[i], from, upto);
    InvFacts(sp);
    GrownKeepsHeaps(w, w.(sp := sp, brk := w.brk[i := w.brk[i] + inc]), i, from, upto);
    forall j: nat, p: nat | HeapPage(w, j, p) && p < 0x100000 && Remapped(w, i, inc, w.dir[j], p)
      ensures Walk(sp, w.dir[j], p) != Walk(w.sp, w.dir[j], p)
    {
      assert OwnFrame(w.sp, w.dir[j], p);
      FreshFrame(w.sp.userPhys, sp.userPhys, from, upto, p);
    }
  }

  lemma GrownKeepsHeaps(w: Tasks, t: Tasks, i: nat, from: nat, upto: nat)
    requires HeapInv(w) && i < |w.brk| && w.dir[i] < Dirs(w.sp) && Grown(w.sp, t.sp, w.dir[i], from, upto)
    requires t.dir == w.dir && |t.brk| == |w.brk| && w.brk[i] < t.brk[i] <= HEAP_LIMIT && t.brk == w.brk[i := t.brk[i]]
    requires from == PageAbove(w.brk[i]) && upto == PageAbove(t.brk[i])
    ensures HeapInv(t)
  {
    hide Inv, PageAbove, Walk, Shaped;
    InvFacts(w.sp);
    InvFacts(t.sp);
    forall j: nat, p: nat | HeapPage(t, j, p)
      ensures p < 0x100000 && w.dir[j] < Dirs(w.sp) <= 9
      ensures if w.dir[j] == w.dir[i] && from <= p < upto then Walk(t.sp, w.dir[j], p) ==
          Some(w.sp.userPhys + (p - from) * PAGE)
              else HeapPage(w, j, p) && Walk(t.sp, w.dir[j], p) == Walk(w.sp, w.dir[j], p)
      ensures OwnFrame(t.sp, w.dir[j], p)
    {
      DirInUse(w, j);
      if w.dir[j] == w.dir[i] && from <= p < upto {
        FreshFrame(w.sp.userPhys, t.sp.userPhys, from, upto, p);
      } else {
        assert HeapPage(w, j, p);
        assert OwnFrame(w.sp, w.dir[j], p);
      }
    }
  }

  lemma FreshFrame(start: nat, end: nat, from: nat, upto: nat, p: nat)
    requires start % PAGE == 0 && end == start + (upto - from) * PAGE && from <= p < upto
    ensures start <= start + (p - from) * PAGE < end
    ensures (start + (p - from) * PAGE) % PAGE == 0
  {
  }
}

/** Runs of task creation, heap growth and shrinking, program and library loading, and
    driver allocations from the table pool. */
module SbrkProofs {
  import opened PagingSpec
  import opened PagingProofs
  import opened SbrkSpec
  import opened ElfSpec
  import ElfProofs

  datatype Event =
    | NewTask
    | Sbrk(task: nat, inc: int)
    | LoadProgram(task: nat, base: nat, ram: seq<nat>, data: seq<nat>, phs: seq<Phdr>)  // `load_elf_segments`
    | MapPages(task: nat, from: nat, upto: nat, base: nat)                              // `map_shared_library`
    | DmaAlloc(size: nat)

  /** A byte of a task's heap. */
  ghost predicate HeapByte(w: Tasks, i: nat, va: nat) {
    i < |w.brk| && HEAP_BASE <= va < w.brk[i]
  }

  /** Page `p` of directory `pd` is no heap page of a task that runs on it. */
  ghost predicate Clear(w: Tasks, pd: nat, p: nat) {
    forall j: nat :: j < |w.dir| && w.dir[j] == pd ==> !HeapPage(w, j, p)
  }

  ghost predicate ClearRange(w: Tasks, pd: nat, from: nat, upto: nat) {
    forall p: nat :: from <= p < upto ==> Clear(w, pd, p)
  }

  ghost predicate ClearOfHeaps(w: Tasks, pd: nat, phs: seq<Phdr>) {
    forall ph :: ph in phs && ph.kind == PT_LOAD ==> ClearRange(w, pd, FirstPage(ph), EndPage(ph))
  }

  /** Pages a task may map at will: its own, clear of the heaps, and room for tables. */
  ghost predicate Mappable(w: Tasks, pd: nat, from: nat, upto: nat, base: nat)
    requires Shaped(w.sp)
  {
    && from <= upto && base % PAGE == 0 && w.sp.dmaPtr + 2 * PAGE * (upto - from) <= POOL_END
    && (forall p | from <= p < upto :: Private(w.sp, p)) && ClearRange(w, pd, from, upto)
  }

  ghost predicate Allowed(w: Tasks, e: Event)
    requires TasksOk(w)
  {
    match e
    case NewTask => true
    case Sbrk(i, inc) => i < |w.brk| && w.dir[i] < 9 && CanMove(w, i, inc)
    case LoadProgram(i, base, ram, data, phs) =>
      i < |w.brk| && Loadable(Machine(ram, w.sp), data, w.dir[i], base, phs) && ClearOfHeaps(w, w.dir[i], phs)
    case MapPages(i, from, upto, base) =>
      i < |w.brk| && Mappable(w, w.dir[i], from, upto, base)
    case DmaAlloc(size) => w.sp.dmaPtr + size + 4 <= POOL_END
  }

  function NewTaskSpec(w: Tasks): Tasks
    requires Shaped(w.sp)
  {
    var (sp, pd) := CreateDirSpec(w.sp);
    Tasks(sp, w.brk + [HEAP_BASE], w.dir + [pd])
  }

  ghost function Step(w: Tasks, e: Event): Tasks
    requires HeapInv(w)
  {
    if !Allowed(w, e) then w else
    match e
    case NewTask => NewTaskSpec(w)
    case Sbrk(i, inc) => MoveBreak(w, i, inc).0
    case LoadProgram(i, base, ram, data, phs) => w.(sp := LoadAll(Machine(ram, w.sp), data, w.dir[i], base, phs).sp)
    case MapPages(i, from, upto, base) =>
      DirInUse(w, i);
      w.(sp := MapRange(w.sp, w.dir[i], from, upto, base))
    case DmaAlloc(size) => w.(sp := DmaAllocSpec(w.sp, size))
  }

  lemma NewDirOwns(s: Spaces)
    requires Inv(s) && s.nextTask < 8
    ensures var t := CreateDirSpec(s).0;
      && Shaped(t) && Dirs(s) <= Dirs(t) <= 9
      && (forall i: nat :: i < Dirs(t) ==> t.pds[i] == if i < Dirs(s) then s.pds[i] else s.kern)
      && (forall i: nat, x: nat :: i < Dirs(t) && x < 1024 && Owns(t, i, x) ==> i < Dirs(s) && Owns(s, i, x))
  {
    hide Present, Base, Unshared;
  }

  lemma NewDirUnshared(s: Spaces)
    requires Inv(s) && s.nextTask < 8
    ensures Shaped(CreateDirSpec(s).0) && Unshared(CreateDirSpec(s).0)
  {
    hide Present, Base, Owns, CreateDirSpec;
    NewDirOwns(s);
  }

  lemma NewDirInv(s: Spaces)
    requires Inv(s) && s.nextTask < 8
    ensures Inv(CreateDirSpec(s).0)
  {
    hide Present, Base, Unshared, Owns;
    NewDirOwns(s);
    NewDirUnshared(s);
  }

  /** A new private directory repeats the kernel's and changes nobody else's. */
  lemma NewTaskKeeps(s: Spaces)
    requires Inv(s)
    ensures var t := CreateDirSpec(s).0;
      && Inv(t) && t.nextTask == (if s.nextTask < 8 then s.nextTask + 1 else 8) && t.userPhys == s.userPhys
      && (forall i, p :: 0 <= i < Dirs(s) && 0 <= p < 0x100000 ==> Walk(t, i, p) == Walk(s, i, p))
  {
    hide Present, Base, Inv;
    InvFacts(s);
    if s.nextTask < 8 { NewDirInv(s); }
  }

  lemma DmaAllocKeeps(s: Spaces, size: nat)
    requires Inv(s) && s.dmaPtr + size + 4 <= POOL_END
    ensures var t := DmaAllocSpec(s, size);
      && Inv(t) && t.nextTask == s.nextTask && t.userPhys == s.userPhys
      && (forall i, p :: 0 <= i < Dirs(s) && 0 <= p < 0x100000 ==> Walk(t, i, p) == Walk(s, i, p))
  {
    hide Present, Base;
    var t := DmaAllocSpec(s, size);
    assert forall i, x :: 0 <= i < Dirs(s) && 0 <= x < 1024 ==> Owns(t, i, x) == Owns(s, i, x);
  }

  /** `dma_alloc` hands out `size` bytes from the pointer on; it moves on to the next
      multiple of four. */
  lemma DmaAllocTakes(s: Spaces, size: nat)
    ensures var t := DmaAllocSpec(s, size);
      t.dmaPtr % 4 == 0 && s.dmaPtr + size <= t.dmaPtr < s.dmaPtr + size + 4 && t == s.(dmaPtr := t.dmaPtr)
  {
  }

  /** Heap pages lie below the first megabyte of page numbers, in a directory in use. */
  lemma HeapPageBounds(w: Tasks, i: nat, p: nat)
    requires TasksOk(w) && HeapPage(w, i, p)
    ensures p < 0x800 && w.dir[i] < Dirs(w.sp) <= 9
  {
    DirInUse(w, i);
  }

  /** `t` has the heap translations of `w`. */
  ghost predicate SameWalks(w: Tasks, t: Tasks)
    requires TasksOk(w) && Shaped(t.sp)
  {
    forall i: nat, p: nat :: HeapPage(w, i, p) && p < 0x100000 && w.dir[i] < 9 ==>
      Walk(t.sp, w.dir[i], p) == Walk(w.sp, w.dir[i], p)
  }

  /** A change that keeps every heap translation keeps the heap invariant. */
  lemma SameHeaps(w: Tasks, t: Tasks)
    requires HeapInv(w) && Inv(t.sp) && TasksOk(t) && t.sp.userPhys == w.sp.userPhys
    requires |w.brk| <= |t.brk| && forall i :: 0 <= i < |w.brk| ==> t.brk[i] == w.brk[i]
    requires forall i :: |w.brk| <= i < |t.brk| ==> t.brk[i] == HEAP_BASE
    requires SameWalks(w, t)
    ensures HeapInv(t)
  {
    hide Walk, Inv, Shaped;
    forall i: nat, p: nat | HeapPage(t, i, p)
      ensures HeapPage(w, i, p) && p < 0x800 && t.dir[i] == w.dir[i] < 9
      ensures OwnFrame(t.sp, t.dir[i], p) && Walk(t.sp, t.dir[i], p) == Walk(w.sp, w.dir[i], p)
    {
      assert HeapPage(w, i, p);
      HeapPageBounds(w, i, p);
      assert OwnFrame(w.sp, w.dir[i], p);
    }
  }

  /** Loading a program whose pages are clear of the heaps keeps them all as they are. */
  lemma LoadKeepsHeaps(w: Tasks, pd: nat, base: nat, ram: seq<nat>, data: seq<nat>, phs: seq<Phdr>)
    requires HeapInv(w) && Loadable(Machine(ram, w.sp), data, pd, base, phs) && ClearOfHeaps(w, pd, phs)
    ensures var t := w.(sp := LoadAll(Machine(ram, w.sp), data, pd, base, phs).sp);
      HeapInv(t) && SameWalks(w, t)
  {
    hide Walk, Inv, Shaped, LoadAll, Loadable;
    var m := Machine(ram, w.sp);
    var t := w.(sp := LoadAll(m, data, pd, base, phs).sp);
    ElfProofs.ShapedKept(w.sp);
    forall j: nat, p: nat | HeapPage(w, j, p) && p < 0x100000 && w.dir[j] < 9
      ensures Walk(t.sp, w.dir[j], p) == Walk(w.sp, w.dir[j], p)
    {
      HeapPageBounds(w, j, p);
      if w.dir[j] == pd {
        forall ph | ph in phs && ph.kind == PT_LOAD ensures !(FirstPage(ph) <= p < EndPage(ph)) {
          assert FirstPage(ph) <= p < EndPage(ph) ==> Clear(w, pd, p);
        }
      }
      ElfProofs.LoadTouchesOnlyImage(m, data, pd, base, phs, w.dir[j], p);
    }
    SameHeaps(w, t);
  }

  /** So does mapping any range of pages clear of the heaps. */
  lemma MapKeepsHeaps(w: Tasks, pd: nat, from: nat, upto: nat, base: nat)
    requires HeapInv(w) && pd < Dirs(w.sp) && Mappable(w, pd, from, upto, base)
    ensures var t := w.(sp := MapRange(w.sp, pd, from, upto, base));
      HeapInv(t) && SameWalks(w, t)
  {
    hide Walk, Inv, Shaped, MapRange;
    var t := w.(sp := MapRange(w.sp, pd, from, upto, base));
    ElfProofs.MapRangeWalks(w.sp, pd, from, upto, base);
    forall j: nat, p: nat | HeapPage(w, j, p) && p < 0x100000 && w.dir[j] < 9
      ensures Walk(t.sp, w.dir[j], p) == Walk(w.sp, w.dir[j], p)
    {
      HeapPageBounds(w, j, p);
      assert w.dir[j] == pd && from <= p < upto ==> Clear(w, pd, p);
    }
    SameHeaps(w, t);
  }

  lemma NewTaskKeepsHeaps(w: Tasks)
    requires HeapInv(w)
    ensures HeapInv(NewTaskSpec(w)) && SameWalks(w, NewTaskSpec(w))
  {
    hide Walk, Inv, Shaped;
    InvFacts(w.sp);
    NewTaskKeeps(w.sp);
    var t := NewTaskSpec(w);
    InvFacts(t.sp);
    forall j: nat, p: nat | HeapPage(w, j, p) ensures w.dir[j] < Dirs(w.sp) { HeapPageBounds(w, j, p); }
    SameHeaps(w, t);
  }

  lemma DmaKeepsHeaps(w: Tasks, size: nat)
    requires HeapInv(w) && w.sp.dmaPtr + size + 4 <= POOL_END
    ensures HeapInv(w.(sp := DmaAllocSpec(w.sp, size))) && SameWalks(w, w.(sp := DmaAllocSpec(w.sp, size)))
  {
    hide Walk, Inv, Shaped;
    DmaAllocKeeps(w.sp, size);
    var t := w.(sp := DmaAllocSpec(w.sp, size));
    InvFacts(t.sp);
    forall j: nat, p: nat | HeapPage(w, j, p) ensures w.dir[j] < Dirs(w.sp) { HeapPageBounds(w, j, p); }
    SameHeaps(w, t);
  }

  /** The event is a break moved by another task on the directory of task `i`. */
  predicate Disturbs(w: Tasks, e: Event, i: nat) {
    e.Sbrk? && e.task < |w.dir| && i < |w.dir| && e.task != i && w.dir[e.task] == w.dir[i]
  }

  /** Every event keeps all heaps mapped; only growth in the same directory, by another
      task, changes a heap translation. */
  lemma StepKeepsHeaps(w: Tasks, e: Event)
    requires HeapInv(w)
    ensures HeapInv(Step(w, e))
    ensures |w.brk| <= |Step(w, e).brk| && Step(w, e).dir[..|w.dir|] == w.dir
    ensures (e.Sbrk? ==> e.inc >= 0) ==> forall i :: 0 <= i < |w.brk| ==> w.brk[i] <= Step(w, e).brk[i]
    ensures forall i: nat, p: nat :: HeapPage(w, i, p) && p < 0x100000 && w.dir[i] < 9 && !Disturbs(w, e, i) ==>
      Walk(Step(w, e).sp, w.dir[i], p) == Walk(w.sp, w.dir[i], p)
  {
    hide Walk, Inv, Shaped, LoadAll, MapRange, MoveBreak, CreateDirSpec, DmaAllocSpec, ClearOfHeaps, Clear, Private,
         Loadable;
    forall i: nat, p: nat | HeapPage(w, i, p)
      ensures p < 0x800 && w.dir[i] < Dirs(w.sp) <= 9 { HeapPageBounds(w, i, p); }
    if Allowed(w, e) {
      match e
      case NewTask => NewTaskKeepsHeaps(w);
      case Sbrk(i, inc) => SbrkKeepsHeaps(w, i, inc);
      case LoadProgram(i, base, ram, data, phs) => LoadKeepsHeaps(w, w.dir[i], base, ram, data, phs);
      case MapPages(i, from, upto, base) => MapKeepsHeaps(w, w.dir[i], from, upto, base);
      case DmaAlloc(size) => DmaKeepsHeaps(w, size);
    }
  }

  ghost function Run(w: Tasks, es: seq<Event>): Tasks
    requires HeapInv(w)
    decreases |es|
  {
    if es == [] then w else
    StepKeepsHeaps(w, es[0]);
    Run(Step(w, es[0]), es[1..])
  }

  /** After any run, with any number of tasks, every heap byte of every task is mapped, and
      heap pages share a frame only as one page of one directory. */
  lemma {:induction false} RunKeepsHeaps(w: Tasks, es: seq<Event>)
    requires HeapInv(w)
    ensures HeapInv(Run(w, es))
    decreases |es|
  {
    hide Step, HeapInv;
    if es != [] {
      StepKeepsHeaps(w, es[0]);
      RunKeepsHeaps(Step(w, es[0]), es[1..]);
    }
  }

  lemma HeapShaped(w: Tasks)
    requires HeapInv(w)
    ensures TasksOk(w) && Inv(w.sp) && Shaped(w.sp) && |w.dir| == |w.brk|
  {
  }

  lemma HeapByteMapped(w: Tasks, i: nat, va: nat)
    requires HeapInv(w) && HeapByte(w, i, va)
    ensures HeapPage(w, i, va / PAGE) && w.dir[i] < 9 && va < MEMORY_END
    ensures Translate(w.sp, w.dir[i], va).Some?
  {
    assert HeapPage(w, i, va / PAGE);
    HeapPageBounds(w, i, va / PAGE);
    assert OwnFrame(w.sp, w.dir[i], va / PAGE);
  }

  /** Two tasks run on one directory exactly when they are one task or both were created
      after the eight private directories were given away. */
  lemma SharedDirectoryIff(w: Tasks, i: nat, j: nat)
    requires TasksOk(w) && i < |w.dir| && j < |w.dir|
    ensures w.dir[i] == w.dir[j] <==> i == j || (i >= 8 && j >= 8)
    ensures w.dir[i] == KERNEL_PD <==> i >= 8
  {
  }

  /** Two heap bytes of any tasks are one physical byte exactly when they have the same
      address and the tasks run on one directory; so their heaps coincide exactly when
      both were created with no private directory left. */
  lemma HeapBytesCoincideIff(w: Tasks, i: nat, a: nat, j: nat, b: nat)
    requires HeapInv(w) && HeapByte(w, i, a) && HeapByte(w, j, b)
    ensures w.dir[i] < 9 && w.dir[j] < 9 && a < MEMORY_END && b < MEMORY_END
    ensures Translate(w.sp, w.dir[i], a).Some? && Translate(w.sp, w.dir[j], b).Some?
    ensures Translate(w.sp, w.dir[i], a) == Translate(w.sp, w.dir[j], b) <==> a == b && (i == j || (i >= 8 && j >= 8))
    ensures Base(Translate(w.sp, w.dir[i], a).value) == Base(Translate(w.sp, w.dir[j], b).value) <==>
      a / PAGE == b / PAGE && (i == j || (i >= 8 && j >= 8))
  {
    HeapByteMapped(w, i, a);
    HeapByteMapped(w, j, b);
    SharedDirectoryIff(w, i, j);
    var f, g := Walk(w.sp, w.dir[i], a / PAGE).value, Walk(w.sp, w.dir[j], b / PAGE).value;
    assert OwnFrame(w.sp, w.dir[i], a / PAGE) && OwnFrame(w.sp, w.dir[j], b / PAGE);
    assert f == g <==> w.dir[i] == w.dir[j] && a / PAGE == b / PAGE;
    OffsetSplits(f, a);
    OffsetSplits(g, b);
  }

  lemma OffsetSplits(f: nat, va: nat)
    requires f % PAGE == 0
    ensures Base(f + va % PAGE) == f && (f + va % PAGE) % PAGE == va % PAGE
    ensures va == va / PAGE * PAGE + va % PAGE
  {
  }

  /** When task `i` moves its break, a heap page of task `j` turns into another frame
      exactly when both share a directory and the page lies in the range mapped. */
  lemma GrowthReplacesIff(w: Tasks, i: nat, inc: int, j: nat, p: nat)
    requires HeapInv(w) && i < |w.brk| && w.dir[i] < 9 && CanMove(w, i, inc) && HeapPage(w, j, p)
    ensures p < 0x100000 && w.dir[j] < 9
    ensures Shaped(MoveBreak(w, i, inc).0.sp)
    ensures Walk(MoveBreak(w, i, inc).0.sp, w.dir[j], p) != Walk(w.sp, w.dir[j], p) <==>
      i != j && i >= 8 && j >= 8 && inc > 0 && PageAbove(w.brk[i]) <= p < PageAbove(w.brk[i] + inc)
  {
    hide Walk, Inv, Shaped, MoveBreak, PageAbove;
    HeapPageBounds(w, j, p);
    SbrkKeepsHeaps(w, i, inc);
    SharedDirectoryIff(w, i, j);
  }

  /** Growth by anyone, new tasks, loading and driver allocations never move a heap byte
      that exists, as long as its directory is not shared with a task that grows. */
  lemma {:induction false} RunKeepsTranslations(w: Tasks, es: seq<Event>, i: nat, va: nat)
    requires HeapInv(w) && HeapByte(w, i, va) && va < MEMORY_END && w.dir[i] < 9
    requires forall e :: e in es && e.Sbrk? ==> e.inc >= 0
    requires i < 8 || forall e :: e in es && e.Sbrk? ==> e.task < 8 || e.task == i
    ensures HeapInv(Run(w, es)) && HeapByte(Run(w, es), i, va) && |w.dir| <= |Run(w, es).dir| &&
        Run(w, es).dir[i] == w.dir[i]
    ensures Translate(Run(w, es).sp, w.dir[i], va) == Translate(w.sp, w.dir[i], va)
    decreases |es|
  {
    hide Step, HeapInv, Walk, Shaped;
    HeapShaped(w);
    if es != [] {
      var t := Step(w, es[0]);
      assert es[0] in es;
      StepKeepsHeaps(w, es[0]);
      HeapByteMapped(w, i, va);
      HeapShaped(t);
      assert t.dir[i] == t.dir[..|w.dir|][i];
      if es[0].Sbrk? && es[0].task < |w.dir| { SharedDirectoryIff(w, es[0].task, i); }
      assert Walk(t.sp, w.dir[i], va / PAGE) == Walk(w.sp, w.dir[i], va / PAGE);
      RunKeepsTranslations(t, es[1..], i, va);
    }
  }

  /** Without the limit: growth by one task changes what a task on another directory sees
      exactly when the new break passes the end of the heap window, where the pages of the
      kernel heap lie. */
  lemma GrowthLeaksIff(w: Tasks, i: nat, inc: nat, j: nat)
    requires HeapInv(w) && i < |w.brk| && j < |w.brk| && w.dir[i] < 9 && w.dir[j] < 9 && w.dir[i] != w.dir[j]
    requires 0 < inc && w.brk[i] + inc + 4095 < MEMORY_END && Movable(w, i, inc)
    requires Present(w.sp.kern[2]) && Walk(w.sp, w.dir[j], 0x800) == Some(HEAP_LIMIT)
    ensures w.dir[i] < Dirs(w.sp) <= 9 && Shaped(BreakSpec(w, i, inc).0.sp)
    ensures var t := BreakSpec(w, i, inc).0;
      (exists p: nat :: p < 0x100000 && Walk(t.sp, w.dir[j], p) != Walk(w.sp, w.dir[j], p)) <==>
      w.brk[i] + inc > HEAP_LIMIT
  {
    hide Walk, Inv, Shaped, GrowSpec, Room;
    DirInUse(w, i);
    DirInUse(w, j);
    InvFacts(w.sp);
    var from, upto := PageFor(w.brk[i]), PageFor(w.brk[i] + inc);
    var t := BreakSpec(w, i, inc).0;
    GrowSpecGrows(w.sp, w.dir[i], from, upto);
    InvFacts(t.sp);
    PagesInWindow(w.brk[i]);
    if w.brk[i] + inc > HEAP_LIMIT {
      assert from <= 0x800 < upto && Reached(w.sp, w.dir[i], 0x800, w.dir[j]);
      assert Walk(t.sp, w.dir[j], 0x800) != Walk(w.sp, w.dir[j], 0x800);
    } else {
      PagesInWindow(w.brk[i] + inc);
      forall p: nat | p < 0x100000 ensures Walk(t.sp, w.dir[j], p) == Walk(w.sp, w.dir[j], p) {
        assert from <= p < upto ==> !Reached(w.sp, w.dir[i], p, w.dir[j]);
      }
    }
  }

  /** Concretely: the ninth and the tenth task each grow by a page, and the byte at the
      base of the ninth one's heap becomes the tenth one's. */
  lemma SharedDirectoryClash(w: Tasks)
    requires HeapInv(w) && |w.brk| >= 10 && w.dir[8] < 9 && w.brk[8] == w.brk[9] == HEAP_BASE && CanMove(w, 8, PAGE)
    requires TasksOk(MoveBreak(w, 8, PAGE).0) && w.dir[9] < 9 && CanMove(MoveBreak(w, 8, PAGE).0, 9, PAGE)
    ensures var u := MoveBreak(w, 8, PAGE).0;
      && HeapInv(u)
      && (var v := MoveBreak(u, 9, PAGE).0;
          && HeapInv(v) && Shaped(u.sp) && Shaped(v.sp)
          && Translate(u.sp, u.dir[8], HEAP_BASE).Some?
          && Translate(v.sp, v.dir[8], HEAP_BASE) ==
              Translate(v.sp, v.dir[9], HEAP_BASE) != Translate(u.sp, u.dir[8], HEAP_BASE))
  {
    hide Walk, Inv, Shaped, MoveBreak, HeapInv, CanMove;
    SbrkKeepsHeaps(w, 8, PAGE);
    var u := MoveBreak(w, 8, PAGE).0;
    SbrkKeepsHeaps(u, 9, PAGE);
    var v := MoveBreak(u, 9, PAGE).0;
    HeapShaped(u);
    HeapShaped(v);
    assert HeapPage(u, 8, FIRST_PAGE);
    GrowthReplacesIff(u, 9, PAGE, 8, FIRST_PAGE);
    HeapByteMapped(u, 8, HEAP_BASE);
    HeapBytesCoincideIff(v, 8, HEAP_BASE, 9, HEAP_BASE);
  }

  lemma {:induction false} RunConcat(w: Tasks, a: seq<Event>, b: seq<Event>)
    requires HeapInv(w)
    ensures HeapInv(Run(w, a)) && Run(w, a + b) == Run(Run(w, a), b)
    decreases |a|
  {
    hide Step, HeapInv;
    if a == [] {
      assert a + b == b;
    } else {
      StepKeepsHeaps(w, a[0]);
      assert (a + b)[1..] == a[1..] + b;
      RunConcat(Step(w, a[0]), a[1..], b);
    }
  }

  /** Creating tasks takes neither tables nor frames. */
  lemma {:induction false} RunNewTasks(w: Tasks, n: nat)
    requires HeapInv(w)
    ensures var t := Run(w, seq(n, _ => NewTask));
      && HeapInv(t) && |t.brk| == |w.brk| + n && t.sp.dmaPtr == w.sp.dmaPtr && t.sp.userPhys == w.sp.userPhys
      && (forall i :: 0 <= i < |w.brk| ==> t.brk[i] == w.brk[i])
      && (forall i :: |w.brk| <= i < |t.brk| ==> t.brk[i] == HEAP_BASE)
    decreases n
  {
    hide HeapInv;
    var es := seq(n, _ => NewTask);
    if n > 0 {
      assert es[1..] == seq(n - 1, _ => NewTask) && es[0] == NewTask;
      HeapShaped(w);
      NewTaskKeepsHeaps(w);
      RunNewTasks(NewTaskSpec(w), n - 1);
    }
  }

  /** So from boot ten tasks, a page for the ninth and a page for the tenth end with the
      ninth one's first heap byte replaced by the tenth one's. */
  lemma SharedDirectoryRun(boot: Spaces)
    requires Inv(boot) && boot.nextTask == 0 && boot.dmaPtr == POOL_START && boot.userPhys == FRAMES_START
    ensures HeapInv(Tasks(boot, [], []))
    ensures var b, ten := Tasks(boot, [], []), seq(10, _ => NewTask);
      var u, v := Run(b, ten + [Sbrk(8, PAGE)]), Run(b, ten + [Sbrk(8, PAGE)] + [Sbrk(9, PAGE)]);
      && Shaped(u.sp) && Shaped(v.sp) && |u.dir| == |v.dir| == 10 && v.dir[8] == u.dir[8] == v.dir[9] == KERNEL_PD
      && Translate(u.sp, KERNEL_PD, HEAP_BASE).Some?
      && Translate(v.sp, KERNEL_PD, HEAP_BASE) != Translate(u.sp, KERNEL_PD, HEAP_BASE)
  {
    hide Walk, Inv, MoveBreak, HeapInv, Run, Translate, Shaped;
    var b, ten: seq<Event> := Tasks(boot, [], []), seq(10, _ => NewTask);
    BootHeaps(boot);
    RunNewTasks(b, 10);
    var w := Run(b, ten);
    HeapShaped(w);
    var grow8, grow9 := Sbrk(8, PAGE), Sbrk(9, PAGE);
    SharedDirectoryIff(w, 8, 9);
    FreshMove(w, 8);
    RunConcat(b, ten, [grow8]);
    RunOne(w, grow8);
    var u := MoveBreak(w, 8, PAGE).0;
    SbrkKeepsHeaps(w, 8, PAGE);
    GrowRoom(w, 8, PAGE);
    HeapShaped(u);
    RunConcat(b, ten + [grow8], [grow9]);
    RunOne(u, grow9);
    SbrkKeepsHeaps(u, 9, PAGE);
    HeapShaped(MoveBreak(u, 9, PAGE).0);
    SharedDirectoryClash(w);
  }

  lemma FreshMove(w: Tasks, i: nat)
    requires TasksOk(w) && i < |w.brk| && w.dir[i] < 9 && w.brk[i] == HEAP_BASE
    requires w.sp.dmaPtr == POOL_START && w.sp.userPhys == FRAMES_START
    ensures CanMove(w, i, PAGE)
  {
  }

  lemma BootHeaps(boot: Spaces)
    requires Inv(boot) && boot.nextTask == 0
    ensures HeapInv(Tasks(boot, [], []))
  {
    hide Inv;
    InvFacts(boot);
  }

  lemma RunOne(w: Tasks, e: Event)
    requires HeapInv(w)
    ensures Run(w, [e]) == Step(w, e)
  {
    hide Step, HeapInv;
    StepKeepsHeaps(w, e);
    assert [e][1..] == [];
  }
}
