/** What a user program may store to: the present, write and user bits of both levels of
    the page tables, as the processor combines them (Intel SDM volume 3, section 4.6). */
module PageRights {
  import opened PagingSpec
  import opened PagingProofs
  import opened SbrkSpec
  import opened SbrkProofs
  import opened ElfSpec
  import ElfProofs

  /** Present, writable, user: bits 0, 1 and 2 are set. */
  predicate Granted(e: nat) { e % 8 == 7 }

  /** A store from ring 3 to page `p` goes through. */
  predicate UserStores(s: Spaces, pd: nat, p: nat)
    requires Shaped(s) && pd < 9 && p < 0x100000
  {
    var e := s.pds[pd][p / 1024];
    Granted(e) && Base(e) in s.pts && Granted(s.pts[Base(e)][p % 1024])
  }

  /** Nothing that is present is closed to user programs, but for pages of kernel tables. */
  ghost predicate Open(s: Spaces) {
    && Shaped(s)
    && (forall i: nat, x: nat :: i < 9 && x < 1024 && Present(s.pds[i][x]) ==> Granted(s.pds[i][x]))
    && (forall t: nat, y: nat :: t in s.pts && t >= POOL_START && y < 1024 && Present(s.pts[t][y]) ==>
          Granted(s.pts[t][y]))
  }

  lemma EntryGrants(base: nat)
    requires base % PAGE == 0
    ensures Granted(Entry(base))
  {
    LowBits(base / PAGE, 7);
  }

  lemma LowBits(q: nat, flags: nat)
    requires flags < 8
    ensures (PAGE * q + flags) % 8 == flags
  {
    var a := 512 * q;
    assert PAGE * q + flags == 8 * a + flags;
    LowThree(a, flags);
  }

  lemma {:induction false} LowThree(a: nat, flags: nat)
    requires flags < 8
    ensures (8 * a + flags) % 8 == flags
  {
    if a > 0 { LowThree(a - 1, flags); }
  }

  /** Mapping a page opens it to user programs and closes none. */
  lemma MapOpens(s: Spaces, pd: nat, p: nat, f: nat)
    requires Open(s) && pd < 9 && p < 0x100000
    requires Present(s.pds[pd][p / 1024]) ==> Base(s.pds[pd][p / 1024]) in s.pts
    ensures Open(MapSpec(s, pd, p, f)) && UserStores(MapSpec(s, pd, p, f), pd, p)
  {
    hide Present, Base, Granted, Entry;
    TableOpens(s, pd, p / 1024);
    var u := if Present(s.pds[pd][p / 1024]) then s else AddTable(s, pd, p / 1024);
    PteOpens(u, Base(u.pds[pd][p / 1024]), p % 1024, Base(f));
  }

  lemma TableOpens(s: Spaces, pd: nat, x: nat)
    requires Open(s) && pd < 9 && x < 1024
    ensures Open(AddTable(s, pd, x)) && Granted(AddTable(s, pd, x).pds[pd][x])
    ensures Base(AddTable(s, pd, x).pds[pd][x]) in AddTable(s, pd, x).pts
  {
    hide Granted;
    EntryGrants(RoundUp(s.dmaPtr));
  }

  lemma PteOpens(s: Spaces, table: nat, y: nat, frame: nat)
    requires Open(s) && table in s.pts && y < 1024 && frame % PAGE == 0
    ensures Open(SetPte(s, table, y, frame)) && Granted(SetPte(s, table, y, frame).pts[table][y])
  {
    hide Granted;
    EntryGrants(frame);
  }

  /** A page of a task's own that is mapped is open to it. */
  lemma MappedIsOpen(s: Spaces, pd: nat, p: nat)
    requires Inv(s) && Open(s) && pd < Dirs(s) <= 9 && p < 0x100000 && Private(s, p)
    ensures UserStores(s, pd, p) <==> Walk(s, pd, p).Some?
  {
    hide Granted, Base;
    GrantedIsPresent(s.pds[pd][p / 1024]);
    if Present(s.pds[pd][p / 1024]) {
      assert Owns(s, pd, p / 1024);
      GrantedIsPresent(s.pts[Base(s.pds[pd][p / 1024])][p % 1024]);
    }
  }

  lemma GrantedIsPresent(e: nat)
    ensures Granted(e) ==> Present(e)
  {
  }

  // ---------------------------------------------------------------- every event keeps it so

  lemma RoundOpens(u: Spaces, pd: nat, p: nat)
    requires RoundOk(u, pd, p) && Open(u)
    ensures Open(Round(u, pd, p))
  {
    hide Inv, Open, MapSpec, Present, Base, Granted;
    NextFrame(u, pd, p);
    FrameOpen(u);
    MapReaches(u.(userPhys := u.userPhys + PAGE), pd, p, u.userPhys);
    MapOpens(u.(userPhys := u.userPhys + PAGE), pd, p, u.userPhys);
  }

  lemma FrameOpen(u: Spaces)
    requires Open(u)
    ensures Open(u.(userPhys := u.userPhys + PAGE))
  {
  }

  lemma {:induction false} GrowOpens(s: Spaces, pd: nat, from: nat, upto: nat)
    requires Growable(s, pd, from, upto) && Open(s)
    ensures Open(GrowSpec(s, pd, from, upto))
    decreases upto
  {
    hide Inv, Open, Round, Room, Shaped, RoundOk;
    if from < upto {
      RoomForOne(s, pd, from, upto);
      GrowOpens(s, pd, from, upto - 1);
      RoundOpens(GrowSpec(s, pd, from, upto - 1), pd, upto - 1);
    }
  }

  lemma {:induction false} RangeOpens(s: Spaces, pd: nat, from: nat, upto: nat, base: nat)
    requires RangeOk(s, pd, from, upto) && Open(s)
    ensures Open(MapRange(s, pd, from, upto, base))
    decreases upto
  {
    hide Inv, Open, MapSpec, Walk, Present, Base, RangeOk;
    ShorterRange(s, pd, from, upto);
    if from < upto {
      RangeOpens(s, pd, from, upto - 1, base);
      var u := MapRange(s, pd, from, upto - 1, base);
      MapLast(s, u, pd, from, upto, base);
      MapOpens(u, pd, upto - 1, base + (upto - 1 - from) * PAGE);
    }
  }

  lemma {:induction false} LoadOpens(m: Machine, data: seq<nat>, pd: nat, base: nat, phs: seq<Phdr>)
    requires Loadable(m, data, pd, base, phs) && Open(m.sp)
    ensures Open(LoadAll(m, data, pd, base, phs).sp)
    decreases |phs|
  {
    hide Inv, Open, Loadable, LoadOne, Ready;
    if phs == [] {
      ElfProofs.NothingLoaded(m, data, pd, base);
    } else {
      ElfProofs.LoadStep(m, data, pd, base, phs);
      LoadOpens(m, data, pd, base, phs[..|phs| - 1]);
      if phs[|phs| - 1].kind == PT_LOAD {
        OneOpens(LoadAll(m, data, pd, base, phs[..|phs| - 1]), data, pd, base, phs[|phs| - 1]);
      }
    }
  }

  lemma OneOpens(m: Machine, data: seq<nat>, pd: nat, base: nat, ph: Phdr)
    requires Ready(m, data, pd, base, ph) && Open(m.sp)
    ensures Open(LoadOne(m, data, pd, base, ph).sp)
  {
    hide Inv, Open, MapRange, RangeOk, Ready, Fits, Overwrite, SegmentBytes;
    RangeReady(m, data, pd, base, ph);
    RangeOpens(m.sp, pd, FirstPage(ph), EndPage(ph), base);
  }

  lemma NewDirOpen(s: Spaces)
    requires Open(s)
    ensures Open(CreateDirSpec(s).0)
  {
    hide Granted, Present;
  }

  lemma DmaOpen(s: Spaces, size: nat)
    requires Open(s)
    ensures Open(DmaAllocSpec(s, size))
  {
    hide Granted, Present;
  }

  lemma MoveOpens(w: Tasks, i: nat, inc: int)
    requires HeapInv(w) && i < |w.brk| && w.dir[i] < 9 && CanMove(w, i, inc) && Open(w.sp)
    ensures Open(MoveBreak(w, i, inc).0.sp)
  {
    hide Open, Inv, Shaped, HeapPage, OwnFrame, Walk, GrowSpec, PageAbove, PoolRoom, Room;
    DirInUse(w, i);
    if inc > 0 {
      WindowRoom(w.sp, w.dir[i], PageAbove(w.brk[i]), PageAbove(w.brk[i] + inc));
      GrowOpens(w.sp, w.dir[i], PageAbove(w.brk[i]), PageAbove(w.brk[i] + inc));
    }
  }

  lemma LibraryOpens(w: Tasks, i: nat, from: nat, upto: nat, base: nat)
    requires HeapInv(w) && Shaped(w.sp) && i < Dirs(w.sp) && Mappable(w, i, from, upto, base) && Open(w.sp)
    ensures Open(MapRange(w.sp, i, from, upto, base))
  {
    hide Open, Inv, Walk, MapRange, Private;
    RangeOpens(w.sp, i, from, upto, base);
  }

  lemma StepOpens(w: Tasks, e: SbrkProofs.Event)
    requires HeapInv(w) && Open(w.sp)
    ensures Open(SbrkProofs.Step(w, e).sp)
  {
    hide Open, HeapInv, Inv, Walk, Shaped, LoadAll, MapRange, MoveBreak, CreateDirSpec, DmaAllocSpec, Mappable,
         Loadable, CanMove, ClearOfHeaps;
    HeapShaped(w);
    if Allowed(w, e) {
      match e
      case NewTask => NewDirOpen(w.sp);
      case Sbrk(i, inc) => MoveOpens(w, i, inc);
      case LoadProgram(i, base, ram, data, phs) => LoadOpens(Machine(ram, w.sp), data, w.dir[i], base, phs);
      case MapPages(i, from, upto, base) =>
        DirInUse(w, i);
        LibraryOpens(w, w.dir[i], from, upto, base);
      case DmaAlloc(size) => DmaOpen(w.sp, size);
    }
  }

  /** After any run every heap byte of every task is open to the program, and any page of
      its own that is mapped, code and library included. */
  lemma {:induction false} RunStaysOpen(w: Tasks, es: seq<SbrkProofs.Event>, i: nat, p: nat)
    requires HeapInv(w) && Open(w.sp)
    ensures var t := SbrkProofs.Run(w, es);
      && HeapInv(t) && Open(t.sp)
      && (HeapPage(t, i, p) ==> p < 0x100000 && t.dir[i] < 9 && UserStores(t.sp, t.dir[i], p))
      && (i < |t.dir| && p < 0x100000 && Private(t.sp, p) && Walk(t.sp, t.dir[i], p).Some? ==>
            t.dir[i] < 9 && UserStores(t.sp, t.dir[i], p))
    decreases |es|
  {
    hide SbrkProofs.Step, HeapInv, Open, UserStores, Walk, Shaped, Private, HeapPage;
    if es == [] {
      StaysOpenNow(w, i, p);
    } else {
      StepKeepsHeaps(w, es[0]);
      StepOpens(w, es[0]);
      RunStaysOpen(SbrkProofs.Step(w, es[0]), es[1..], i, p);
    }
  }

  lemma StaysOpenNow(w: Tasks, i: nat, p: nat)
    requires HeapInv(w) && Open(w.sp)
    ensures TasksOk(w) && Shaped(w.sp)
    ensures HeapPage(w, i, p) ==> p < 0x100000 && w.dir[i] < 9 && UserStores(w.sp, w.dir[i], p)
    ensures i < |w.dir| && p < 0x100000 && Private(w.sp, p) && w.dir[i] < 9 && Walk(w.sp, w.dir[i], p).Some? ==>
      UserStores(w.sp, w.dir[i], p)
  {
    hide Inv, Open, UserStores, Walk;
    InvFacts(w.sp);
    if HeapPage(w, i, p) {
      HeapPageBounds(w, i, p);
      assert OwnFrame(w.sp, w.dir[i], p);
      WindowIsPrivate(w.sp, p);
    }
    if i < |w.dir| && p < 0x100000 && Private(w.sp, p) {
      DirInUse(w, i);
      MappedIsOpen(w.sp, w.dir[i], p);
    }
  }

  lemma WindowIsPrivate(s: Spaces, p: nat)
    requires Inv(s) && Shaped(s) && FIRST_PAGE <= p < 0x800
    ensures Private(s, p)
  {
  }
}
