/** The program loader of src/task.c as a value: bytes of physical memory and page
    tables after `load_elf_segments` (System V gABI chapter 5, "Program Header"). */
module ElfSpec {
  import opened PagingSpec
  import opened PagingProofs

  const PT_LOAD: nat := 1
  const IMAGE: nat := 65536

  datatype Phdr = Phdr(kind: nat, offset: nat, vaddr: nat, filesz: nat, memsz: nat)

  datatype Machine = Machine(ram: seq<nat>, sp: Spaces)

  function U16(data: seq<nat>, o: nat): nat
    requires o + 2 <= |data|
  {
    data[o] + 0x100 * data[o + 1]
  }

  function U32(data: seq<nat>, o: nat): nat
    requires o + 4 <= |data|
  {
    U16(data, o) + 0x10000 * U16(data, o + 2)
  }

  /** `e_phoff` and `e_phnum`; the header table lies inside the loaded file. */
  predicate HasHeaders(data: seq<nat>) {
    |data| >= 52 && U32(data, 28) + 32 * U16(data, 44) <= |data|
  }

  function HeaderAt(data: seq<nat>, i: nat): Phdr
    requires HasHeaders(data) && i < U16(data, 44)
  {
    var o := U32(data, 28) + 32 * i;
    Phdr(U32(data, o), U32(data, o + 4), U32(data, o + 8), U32(data, o + 16), U32(data, o + 20))
  }

  function FirstPage(ph: Phdr): nat { ph.vaddr / PAGE }
  function EndPage(ph: Phdr): nat { (ph.vaddr + ph.memsz + 4095) / PAGE }

  /** What the source demands of a PT_LOAD header to place it right: the file has the
      bytes, the image fits in 64 KB, and its pages are the task's own. */
  predicate Fits(sp: Spaces, data: seq<nat>, ph: Phdr)
    requires Shaped(sp)
  {
    && ph.filesz <= ph.memsz && ph.offset + ph.filesz <= |data|
    && ph.vaddr % PAGE + ph.memsz <= IMAGE
    && ph.vaddr + ph.memsz + 4095 < MEMORY_END
    && (forall p | FirstPage(ph) <= p < EndPage(ph) :: Private(sp, p))
  }

  /** The bytes a segment shows: file contents, then zeros. */
  function SegmentBytes(data: seq<nat>, ph: Phdr): (r: seq<nat>)
    requires ph.filesz <= ph.memsz && ph.offset + ph.filesz <= |data|
    ensures |r| == ph.memsz
  {
    data[ph.offset..ph.offset + ph.filesz] + seq(ph.memsz - ph.filesz, _ => 0)
  }

  function Overwrite(ram: seq<nat>, dest: nat, bytes: seq<nat>): (r: seq<nat>)
    requires dest + |bytes| <= |ram|
    ensures |r| == |ram|
    ensures forall a :: 0 <= a < |ram| ==> r[a] == if dest <= a < dest + |bytes| then bytes[a - dest] else ram[a]
  {
    ram[..dest] + bytes + ram[dest + |bytes|..]
  }

  /** The pages are the task's own and the pool has room for their tables. */
  ghost predicate RangeOk(s: Spaces, pd: nat, from: nat, upto: nat) {
    && Inv(s) && Shaped(s) && pd < Dirs(s) && from <= upto
    && (forall p | from <= p < upto :: Private(s, p))
    && s.dmaPtr + 2 * PAGE * (upto - from) <= POOL_END
  }

  /** The mapping loop: pages `from` up to `upto` onto consecutive frames from `base`. */
  function MapRange(s: Spaces, pd: nat, from: nat, upto: nat, base: nat): (t: Spaces)
    requires RangeOk(s, pd, from, upto)
    ensures Inv(t) && Shaped(t) && t.nextTask == s.nextTask && t.kern == s.kern && t.userPhys == s.userPhys
    ensures t.dmaPtr <= s.dmaPtr + 2 * PAGE * (upto - from)
    decreases upto
  {
    hide Inv, MapSpec, Walk, Present, Base, RangeOk;
    ShorterRange(s, pd, from, upto);
    if upto == from then s else
    var u := MapRange(s, pd, from, upto - 1, base);
    MapLast(s, u, pd, from, upto, base);
    MapSpec(u, pd, upto - 1, base + (upto - 1 - from) * PAGE)
  }

  lemma ShorterRange(s: Spaces, pd: nat, from: nat, upto: nat)
    requires RangeOk(s, pd, from, upto)
    ensures Inv(s) && Shaped(s) && from <= upto && pd < 9 && Dirs(s) <= 9
    ensures from < upto ==> RangeOk(s, pd, from, upto - 1)
  {
    hide Inv, Private;
  }

  /** The last round, on the state `u` after the others. */
  lemma MapLast(s: Spaces, u: Spaces, pd: nat, from: nat, upto: nat, base: nat)
    requires RangeOk(s, pd, from, upto) && from < upto
    requires Inv(u) && Shaped(u) && u.nextTask == s.nextTask && u.kern == s.kern && u.userPhys == s.userPhys
    requires u.dmaPtr <= s.dmaPtr + 2 * PAGE * (upto - 1 - from)
    ensures upto - 1 < 0x100000 && pd < 9 && Private(u, upto - 1)
    ensures Present(u.pds[pd][(upto - 1) / 1024]) ==> Base(u.pds[pd][(upto - 1) / 1024]) in u.pts
    ensures var f := base + (upto - 1 - from) * PAGE;
      var t := MapSpec(u, pd, upto - 1, f);
      && Inv(t) && Shaped(t) && t.nextTask == s.nextTask && t.kern == s.kern && t.userPhys == s.userPhys
      && t.dmaPtr <= s.dmaPtr + 2 * PAGE * (upto - from)
      && (forall i, q :: 0 <= i < Dirs(s) && 0 <= q < 0x100000 ==>
            Walk(t, i, q) == if i == pd && q == upto - 1 then Some(Base(f)) else Walk(u, i, q))
  {
    hide Inv, Walk, Present, Base;
    assert Private(s, upto - 1);
    MapIsolated(u, pd, upto - 1, base + (upto - 1 - from) * PAGE);
  }

  const ROOM: nat := 2 * PAGE * 17      // pool bytes one segment can use up

  /** Loading keeps the tables apart and uses up no more than `room` of the pool. */
  ghost predicate Kept(m: Machine, r: Machine, room: nat) {
    && Shaped(m.sp) && Inv(r.sp) && Shaped(r.sp)
    && r.sp.nextTask == m.sp.nextTask && |r.ram| == |m.ram|
    && r.sp.kern == m.sp.kern && r.sp.userPhys == m.sp.userPhys
    && r.sp.dmaPtr <= m.sp.dmaPtr + room
  }

  /** What placing one segment needs of the machine. */
  ghost predicate Ready(m: Machine, data: seq<nat>, pd: nat, base: nat, ph: Phdr) {
    && Inv(m.sp) && Shaped(m.sp) && pd < Dirs(m.sp) && Fits(m.sp, data, ph)
    && base % PAGE == 0 && base + IMAGE <= |m.ram|
    && m.sp.dmaPtr + ROOM <= POOL_END
  }

  /** One PT_LOAD header, placed at `base + (vaddr & 0xFFF)`. */
  function LoadOne(m: Machine, data: seq<nat>, pd: nat, base: nat, ph: Phdr): (r: Machine)
    requires Ready(m, data, pd, base, ph)
    ensures Kept(m, r, ROOM)
  {
    hide Inv, Private, Ready, RangeOk, Fits;
    RangeReady(m, data, pd, base, ph);
    Machine(Overwrite(m.ram, base + ph.vaddr % PAGE, SegmentBytes(data, ph)),
            MapRange(m.sp, pd, FirstPage(ph), EndPage(ph), base))
  }

  lemma RangeReady(m: Machine, data: seq<nat>, pd: nat, base: nat, ph: Phdr)
    requires Ready(m, data, pd, base, ph)
    ensures RangeOk(m.sp, pd, FirstPage(ph), EndPage(ph)) && EndPage(ph) <= 0x100000 && Shaped(m.sp)
    ensures 2 * PAGE * (EndPage(ph) - FirstPage(ph)) <= ROOM
    ensures base + ph.vaddr % PAGE + ph.memsz <= |m.ram| && ph.filesz <= ph.memsz && ph.offset + ph.filesz <= |data|
  {
    hide Inv, Private;
    PageCount(ph);
  }

  lemma PageCount(ph: Phdr)
    requires ph.vaddr % PAGE + ph.memsz <= IMAGE
    ensures FirstPage(ph) <= EndPage(ph) <= FirstPage(ph) + 17
  {
  }

  function Loads(phs: seq<Phdr>): nat {
    if phs == [] then 0
    else Loads(phs[..|phs| - 1]) + if phs[|phs| - 1].kind == PT_LOAD then 1 else 0
  }

  ghost predicate Loadable(m: Machine, data: seq<nat>, pd: nat, base: nat, phs: seq<Phdr>) {
    && Inv(m.sp) && Shaped(m.sp) && pd < Dirs(m.sp)
    && base % PAGE == 0 && base + IMAGE <= |m.ram|
    && m.sp.dmaPtr + ROOM * Loads(phs) <= POOL_END
    && forall ph :: ph in phs && ph.kind == PT_LOAD ==> Fits(m.sp, data, ph)
  }

  /** The header loop; headers of other kinds (but PT_DYNAMIC) do nothing. */
  function LoadAll(m: Machine, data: seq<nat>, pd: nat, base: nat, phs: seq<Phdr>): (r: Machine)
    requires Loadable(m, data, pd, base, phs)
    ensures Kept(m, r, ROOM * Loads(phs))
    decreases |phs|
  {
    hide Inv, LoadOne, Loadable, Ready, Kept, Loads;
    LoadableFacts(m, data, pd, base, phs);
    if phs == [] then m else
    var n := |phs| - 1;
    LoadablePrefix(m, data, pd, base, phs);
    var u := LoadAll(m, data, pd, base, phs[..n]);
    LoadLast(m, u, data, pd, base, phs);
    if phs[n].kind == PT_LOAD then LoadOne(u, data, pd, base, phs[n]) else u
  }

  lemma LoadableFacts(m: Machine, data: seq<nat>, pd: nat, base: nat, phs: seq<Phdr>)
    requires Loadable(m, data, pd, base, phs)
    ensures phs == [] ==> Kept(m, m, ROOM * Loads(phs))
  {
    hide Inv, Fits;
  }

  /** The last header, on the machine `u` after the others. */
  lemma LoadLast(m: Machine, u: Machine, data: seq<nat>, pd: nat, base: nat, phs: seq<Phdr>)
    requires Loadable(m, data, pd, base, phs) && phs != [] && Kept(m, u, ROOM * Loads(phs[..|phs| - 1]))
    ensures var ph := phs[|phs| - 1];
      && (ph.kind == PT_LOAD ==> Ready(u, data, pd, base, ph))
      && (ph.kind == PT_LOAD ==> Kept(m, LoadOne(u, data, pd, base, ph), ROOM * Loads(phs)))
      && (ph.kind != PT_LOAD ==> Kept(m, u, ROOM * Loads(phs)))
  {
    hide Inv, LoadOne, Loadable, Ready, Kept;
    var n := |phs| - 1;
    if phs[n].kind == PT_LOAD {
      ReadyNext(m, u, data, pd, base, phs);
      KeptTwice(m, u, LoadOne(u, data, pd, base, phs[n]), Loads(phs[..n]));
    }
  }

  lemma LoadablePrefix(m: Machine, data: seq<nat>, pd: nat, base: nat, phs: seq<Phdr>)
    requires Loadable(m, data, pd, base, phs) && phs != []
    ensures Loadable(m, data, pd, base, phs[..|phs| - 1])
  {
    assert forall ph :: ph in phs[..|phs| - 1] ==> ph in phs;
  }

  lemma ReadyNext(m: Machine, u: Machine, data: seq<nat>, pd: nat, base: nat, phs: seq<Phdr>)
    requires Loadable(m, data, pd, base, phs) && phs != [] && phs[|phs| - 1].kind == PT_LOAD
    requires Kept(m, u, ROOM * Loads(phs[..|phs| - 1]))
    ensures Ready(u, data, pd, base, phs[|phs| - 1])
  {
    assert phs[|phs| - 1] in phs;
    FitsKept(m.sp, u.sp, data, phs[|phs| - 1]);
  }

  lemma KeptTwice(m: Machine, u: Machine, r: Machine, n: nat)
    requires Kept(m, u, ROOM * n) && Kept(u, r, ROOM)
    ensures Kept(m, r, ROOM * (n + 1))
  {
  }

  lemma FitsKept(s: Spaces, t: Spaces, data: seq<nat>, ph: Phdr)
    requires Shaped(s) && Shaped(t) && s.kern == t.kern && Fits(s, data, ph)
    ensures Fits(t, data, ph)
  {
    forall p | FirstPage(ph) <= p < EndPage(ph) ensures Private(t, p) { assert Private(s, p); }
  }
}

/** The loaded image, read back through the page tables. */
module ElfProofs {
  import opened PagingSpec
  import opened PagingProofs
  import opened ElfSpec

  /** The mapping loop maps its pages to consecutive frames and nothing else. */
  lemma {:induction false} MapRangeWalks(s: Spaces, pd: nat, from: nat, upto: nat, base: nat)
    requires Inv(s) && Shaped(s) && pd < Dirs(s) && from <= upto && base % PAGE == 0
    requires forall p | from <= p < upto :: Private(s, p)
    requires s.dmaPtr + 2 * PAGE * (upto - from) <= POOL_END
    ensures forall i, q :: 0 <= i < Dirs(s) && 0 <= q < 0x100000 ==>
      Walk(MapRange(s, pd, from, upto, base), i, q) ==
        if i == pd && from <= q < upto then Some(base + (q - from) * PAGE) else Walk(s, i, q)
    decreases upto
  {
    hide Inv, Walk, MapSpec, Present, Base;
    if from < upto {
      MapRangeWalks(s, pd, from, upto - 1, base);
      var u := MapRange(s, pd, from, upto - 1, base);
      assert Private(s, upto - 1);
      MapIsolated(u, pd, upto - 1, base + (upto - 1 - from) * PAGE);
      AlignedBase(base, upto - 1 - from);
    }
  }

  /** A mapped library reads as the physical copy at the same offset exactly when both
      addresses lie at the same place in their page. */
  lemma LibraryReadsIff(s: Spaces, pd: nat, vaddr: nat, paddr: nat, size: nat, j: nat)
    requires Inv(s) && Shaped(s) && pd < Dirs(s) && j < size && vaddr + size + 4095 < MEMORY_END
    requires forall p | vaddr / PAGE <= p < (vaddr + size + 4095) / PAGE :: Private(s, p)
    requires s.dmaPtr + 2 * PAGE * ((vaddr + size + 4095) / PAGE - vaddr / PAGE) <= POOL_END
    ensures pd < 9
    ensures Translate(MapRange(s, pd, vaddr / PAGE, (vaddr + size + 4095) / PAGE, Base(paddr)), pd, vaddr + j) ==
      Some(paddr + j)
      <==> paddr % PAGE == vaddr % PAGE
  {
    hide Inv, Walk, MapRange, Private;
    InvFacts(s);
    var from, upto := vaddr / PAGE, (vaddr + size + 4095) / PAGE;
    MapRangeWalks(s, pd, from, upto, Base(paddr));
    PageOffset(vaddr, paddr, size, j);
  }

  lemma PageOffset(vaddr: nat, paddr: nat, size: nat, j: nat)
    requires j < size
    ensures vaddr / PAGE <= (vaddr + j) / PAGE < (vaddr + size + 4095) / PAGE
    ensures Base(paddr) % PAGE == 0
    ensures Base(paddr) + ((vaddr + j) / PAGE - vaddr / PAGE) * PAGE + (vaddr + j) % PAGE ==
      paddr - paddr % PAGE + vaddr % PAGE + j
  {
  }

  lemma AlignedBase(base: nat, n: nat)
    requires base % PAGE == 0
    ensures Base(base + n * PAGE) == base + n * PAGE
  {
  }

  /** Byte `j` of a segment lies in its page range, at offset `j` of its place in the image. */
  lemma BytePlace(ph: Phdr, j: nat)
    requires j < ph.memsz
    ensures FirstPage(ph) <= (ph.vaddr + j) / PAGE < EndPage(ph)
    ensures ((ph.vaddr + j) / PAGE - FirstPage(ph)) * PAGE + (ph.vaddr + j) % PAGE == ph.vaddr % PAGE + j
  {
  }

  /** The pages of a placed segment map to the image, all other pages as before. */
  lemma SegmentPages(m: Machine, data: seq<nat>, pd: nat, base: nat, ph: Phdr)
    requires Ready(m, data, pd, base, ph)
    ensures var r := LoadOne(m, data, pd, base, ph);
      forall i, q :: 0 <= i < Dirs(m.sp) && 0 <= q < 0x100000 ==>
        Walk(r.sp, i, q) ==
          if i == pd && FirstPage(ph) <= q < EndPage(ph) then Some(base + (q - FirstPage(ph)) * PAGE)
              else Walk(m.sp, i, q)
  {
    hide Inv, Walk, MapRange, FirstPage, EndPage;
    PageCount(ph);
    MapRangeWalks(m.sp, pd, FirstPage(ph), EndPage(ph), base);
  }

  /** Memory after placing a segment: its bytes in the image, the rest untouched. */
  lemma SegmentMemory(m: Machine, data: seq<nat>, pd: nat, base: nat, ph: Phdr)
    requires Ready(m, data, pd, base, ph)
    ensures var r := LoadOne(m, data, pd, base, ph);
      forall a :: 0 <= a < |m.ram| ==>
        var j := a - (base + ph.vaddr % PAGE);
        r.ram[a] == if 0 <= j < ph.filesz then data[ph.offset + j] else if 0 <= j < ph.memsz then 0 else m.ram[a]
  {
    hide Inv, Walk, MapRange;
  }

  /** After placing a segment, reading through the page tables at vaddr + j gives file
      byte j, then zeros up to memsz. */
  lemma SegmentReadsBack(m: Machine, data: seq<nat>, pd: nat, base: nat, ph: Phdr)
    requires Ready(m, data, pd, base, ph)
    ensures ReadsBack(LoadOne(m, data, pd, base, ph), data, pd, base, ph)
  {
    hide Inv, Walk, MapRange, FirstPage, EndPage, LoadOne, Private;
    NextTaskBound(m.sp);
    SegmentPages(m, data, pd, base, ph);
    SegmentMemory(m, data, pd, base, ph);
    var r := LoadOne(m, data, pd, base, ph);
    ShapedKept(r.sp);
    forall j | 0 <= j < ph.memsz ensures ByteReadsBack(r, data, pd, base, ph, j) {
      BytePlace(ph, j);
    }
  }

  lemma NextTaskBound(s: Spaces)
    requires Inv(s)
    ensures s.nextTask <= 8 && Dirs(s) <= 9
  {
  }

  lemma ShapedKept(s: Spaces)
    requires Inv(s)
    ensures Shaped(s)
  {
  }

  ghost predicate ByteReadsBack(m: Machine, data: seq<nat>, pd: nat, base: nat, ph: Phdr, j: nat)
    requires Shaped(m.sp) && pd < 9
  {
    && j < ph.memsz && ph.vaddr + j < MEMORY_END && ph.offset + ph.filesz <= |data|
    && Translate(m.sp, pd, ph.vaddr + j) == Some(base + ph.vaddr % PAGE + j)
    && base + ph.vaddr % PAGE + j < |m.ram|
    && m.ram[base + ph.vaddr % PAGE + j] == if j < ph.filesz then data[ph.offset + j] else 0
  }

  ghost predicate ReadsBack(m: Machine, data: seq<nat>, pd: nat, base: nat, ph: Phdr) {
    && Shaped(m.sp) && pd < 9
    && forall j :: 0 <= j < ph.memsz ==> ByteReadsBack(m, data, pd, base, ph, j)
  }

  /** The last PT_LOAD of the list reads back, at the place it was copied to. */
  lemma {:induction false} LastLoadReadsBack(m: Machine, data: seq<nat>, pd: nat, base: nat, phs: seq<Phdr>, k: nat)
    requires Loadable(m, data, pd, base, phs)
    requires k < |phs| && phs[k].kind == PT_LOAD
    requires forall i :: k < i < |phs| ==> phs[i].kind != PT_LOAD
    ensures ReadsBack(LoadAll(m, data, pd, base, phs), data, pd, base, phs[k])
    decreases |phs|
  {
    hide Walk, Inv, FirstPage, EndPage, Loadable, LoadOne, ReadsBack;
    var n := |phs| - 1;
    LoadStep(m, data, pd, base, phs);
    if k == n {
      SegmentReadsBack(LoadAll(m, data, pd, base, phs[..n]), data, pd, base, phs[n]);
    } else {
      assert phs[..n][k] == phs[k];
      LastLoadReadsBack(m, data, pd, base, phs[..n], k);
    }
  }

  /** Page `q` of task `i` belongs to no segment of the program. */
  ghost predicate Outside(phs: seq<Phdr>, pd: nat, i: nat, q: nat) {
    i != pd || forall ph :: ph in phs && ph.kind == PT_LOAD ==> !(FirstPage(ph) <= q < EndPage(ph))
  }

  /** Loading changes no translation outside the program's own pages, and no memory
      outside its 64 KB image. */
  lemma {:induction false} LoadTouchesOnlyImage(m: Machine, data: seq<nat>, pd: nat, base: nat, phs: seq<Phdr>,
                                                i: nat, q: nat)
    requires Loadable(m, data, pd, base, phs) && i < Dirs(m.sp) && q < 0x100000 && Shaped(m.sp)
    ensures var r := LoadAll(m, data, pd, base, phs);
      && Shaped(r.sp)
      && (Outside(phs, pd, i, q) ==> Walk(r.sp, i, q) == Walk(m.sp, i, q))
      && (forall a :: 0 <= a < |m.ram| && !(base <= a < base + IMAGE) ==> r.ram[a] == m.ram[a])
    decreases |phs|
  {
    hide Walk, Inv, FirstPage, EndPage, Loadable, LoadOne;
    if phs != [] {
      var n := |phs| - 1;
      assert phs[n] in phs;
      LoadStep(m, data, pd, base, phs);
      LoadTouchesOnlyImage(m, data, pd, base, phs[..n], i, q);
      if phs[n].kind == PT_LOAD {
        var u := LoadAll(m, data, pd, base, phs[..n]);
        InImageBounds(u, data, pd, base, phs[n]);
        SegmentPages(u, data, pd, base, phs[n]);
        SegmentMemory(u, data, pd, base, phs[n]);
      }
    } else {
      NothingLoaded(m, data, pd, base);
    }
  }

  lemma InImageBounds(m: Machine, data: seq<nat>, pd: nat, base: nat, ph: Phdr)
    requires Ready(m, data, pd, base, ph)
    ensures ph.filesz <= ph.memsz && ph.vaddr % PAGE + ph.memsz <= IMAGE
  {
  }

  // ---------------------------------------------------------------- what several segments show

  /** Byte `j` of a segment: from the file, then zeros. */
  function FileByte(data: seq<nat>, ph: Phdr, j: nat): nat {
    if j < ph.filesz && ph.offset + j < |data| then data[ph.offset + j] else 0
  }

  predicate Maps(ph: Phdr, q: nat) { ph.kind == PT_LOAD && FirstPage(ph) <= q < EndPage(ph) }

  /** Every segment is placed at `vaddr & 0xFFF` of the one image, whatever its page. */
  predicate Fills(ph: Phdr, o: nat) { ph.kind == PT_LOAD && ph.vaddr % PAGE <= o < ph.vaddr % PAGE + ph.memsz }

  /** The last segment that maps page `q`. */
  function PageOwner(phs: seq<Phdr>, q: nat): (c: Option<Phdr>)
    ensures c.Some? ==> c.value in phs && Maps(c.value, q)
    ensures c.None? ==> forall ph :: ph in phs ==> !Maps(ph, q)
    decreases |phs|
  {
    if phs == [] then None
    else if Maps(phs[|phs| - 1], q) then Some(phs[|phs| - 1])
    else PageOwner(phs[..|phs| - 1], q)
  }

  /** What the last segment that fills offset `o` of the image put there. */
  function ImageByte(ram: seq<nat>, data: seq<nat>, base: nat, phs: seq<Phdr>, o: nat): nat
    decreases |phs|
  {
    if phs == [] then (if base + o < |ram| then ram[base + o] else 0) else
    var ph := phs[|phs| - 1];
    if Fills(ph, o) then FileByte(data, ph, o - ph.vaddr % PAGE) else ImageByte(ram, data, base, phs[..|phs| - 1], o)
  }

  /** Image offset of address `va` behind the segment that maps its page. */
  function OffsetIn(c: Phdr, va: nat): nat
    requires FirstPage(c) <= va / PAGE
  {
    (va / PAGE - FirstPage(c)) * PAGE + va % PAGE
  }

  /** The byte a program sees at `va`, told from the file and the headers alone (and from
      what the image held before, where no segment fills it). */
  function Seen(ram: seq<nat>, data: seq<nat>, base: nat, phs: seq<Phdr>, va: nat): Option<nat> {
    match PageOwner(phs, va / PAGE)
    case None => None
    case Some(c) => Some(ImageByte(ram, data, base, phs, OffsetIn(c, va)))
  }

  /** Reading address `va` through the tables gives `b`. */
  ghost predicate Reads(m: Machine, pd: nat, va: nat, b: nat)
    requires Shaped(m.sp)
  {
    && pd < 9 && va < MEMORY_END && Translate(m.sp, pd, va).Some?
    && Translate(m.sp, pd, va).value < |m.ram| && m.ram[Translate(m.sp, pd, va).value] == b
  }

  /** Every byte of the segment reads as it should. */
  ghost predicate LoadedRight(m: Machine, data: seq<nat>, pd: nat, ph: Phdr) {
    Shaped(m.sp) && forall j: nat :: j < ph.memsz ==> Reads(m, pd, ph.vaddr + j, FileByte(data, ph, j))
  }

  /** After loading any list of headers a page belongs to the last segment that maps it ... */
  lemma {:induction false} PageMeaning(m: Machine, data: seq<nat>, pd: nat, base: nat, phs: seq<Phdr>, q: nat)
    requires Loadable(m, data, pd, base, phs) && q < 0x100000 && Shaped(m.sp) && pd < 9
    ensures var r := LoadAll(m, data, pd, base, phs);
      && Shaped(r.sp)
      && Walk(r.sp, pd, q) == (match PageOwner(phs, q)
                               case None => Walk(m.sp, pd, q)
                               case Some(c) => Some(base + (q - FirstPage(c)) * PAGE))
    decreases |phs|
  {
    hide Walk, Inv, FirstPage, EndPage, Loadable, LoadOne;
    if phs != [] {
      var n := |phs| - 1;
      LoadStep(m, data, pd, base, phs);
      PageMeaning(m, data, pd, base, phs[..n], q);
      if phs[n].kind == PT_LOAD {
        SegmentPages(LoadAll(m, data, pd, base, phs[..n]), data, pd, base, phs[n]);
      }
    } else {
      NothingLoaded(m, data, pd, base);
    }
  }

  /** ... and a byte of the image to the last one that fills it. */
  lemma {:induction false} ByteMeaning(m: Machine, data: seq<nat>, pd: nat, base: nat, phs: seq<Phdr>, o: nat)
    requires Loadable(m, data, pd, base, phs) && o < IMAGE && base + o < |m.ram|
    ensures var r := LoadAll(m, data, pd, base, phs);
      |r.ram| == |m.ram| && r.ram[base + o] == ImageByte(m.ram, data, base, phs, o)
    decreases |phs|
  {
    hide Walk, Inv, FirstPage, EndPage, Loadable, LoadOne;
    if phs != [] {
      var n := |phs| - 1;
      LoadStep(m, data, pd, base, phs);
      ByteMeaning(m, data, pd, base, phs[..n], o);
      if phs[n].kind == PT_LOAD {
        SegmentMemory(LoadAll(m, data, pd, base, phs[..n]), data, pd, base, phs[n]);
      }
    } else {
      NothingLoaded(m, data, pd, base);
    }
  }

  lemma NothingLoaded(m: Machine, data: seq<nat>, pd: nat, base: nat)
    requires Loadable(m, data, pd, base, [])
    ensures LoadAll(m, data, pd, base, []) == m
  {
  }

  /** One round of the header loop. */
  lemma LoadStep(m: Machine, data: seq<nat>, pd: nat, base: nat, phs: seq<Phdr>)
    requires Loadable(m, data, pd, base, phs) && phs != []
    ensures Loadable(m, data, pd, base, phs[..|phs| - 1])
    ensures var u, ph := LoadAll(m, data, pd, base, phs[..|phs| - 1]), phs[|phs| - 1];
      && pd < 9 && Shaped(u.sp) && Dirs(u.sp) == Dirs(m.sp) && pd < Dirs(m.sp) && |u.ram| == |m.ram|
      && (ph.kind == PT_LOAD ==> Ready(u, data, pd, base, ph))
      && (ph.kind == PT_LOAD ==> ph.filesz <= ph.memsz && ph.offset + ph.filesz <= |data|)
      && (ph.kind == PT_LOAD ==> LoadAll(m, data, pd, base, phs) == LoadOne(u, data, pd, base, ph))
      && (ph.kind != PT_LOAD ==> LoadAll(m, data, pd, base, phs) == u)
  {
    hide Walk, Inv, FirstPage, EndPage, LoadOne;
    var n := |phs| - 1;
    assert phs[n] in phs;
    LoadablePrefix(m, data, pd, base, phs);
    NextTaskBound(m.sp);
    var u := LoadAll(m, data, pd, base, phs[..n]);
    if phs[n].kind == PT_LOAD { ReadyNext(m, u, data, pd, base, phs); }
  }

  /** Both together. */
  lemma LoadMeaning(m: Machine, data: seq<nat>, pd: nat, base: nat, phs: seq<Phdr>, q: nat, o: nat)
    requires Loadable(m, data, pd, base, phs) && q < 0x100000 && o < IMAGE && Shaped(m.sp) && pd < 9
    requires base + o < |m.ram|
    ensures var r := LoadAll(m, data, pd, base, phs);
      && Shaped(r.sp) && |r.ram| == |m.ram|
      && Walk(r.sp, pd, q) == (match PageOwner(phs, q)
                               case None => Walk(m.sp, pd, q)
                               case Some(c) => Some(base + (q - FirstPage(c)) * PAGE))
      && r.ram[base + o] == ImageByte(m.ram, data, base, phs, o)
  {
    hide Walk, Inv, LoadAll, FirstPage, EndPage, ImageByte, PageOwner, Loadable;
    PageMeaning(m, data, pd, base, phs, q);
    ByteMeaning(m, data, pd, base, phs, o);
  }

  /** What is read at an address some segment maps. */
  lemma SeenIsRead(m: Machine, data: seq<nat>, pd: nat, base: nat, phs: seq<Phdr>, va: nat, b: nat)
    requires Loadable(m, data, pd, base, phs) && va < MEMORY_END && PageOwner(phs, va / PAGE).Some?
    ensures var r := LoadAll(m, data, pd, base, phs);
      Shaped(r.sp) && (Reads(r, pd, va, b) <==> Seen(m.ram, data, base, phs, va) == Some(b))
  {
    hide Walk, Inv, LoadAll, FirstPage, EndPage, ImageByte, PageOwner;
    NextTaskBound(m.sp);
    var c := PageOwner(phs, va / PAGE).value;
    OffsetInImage(c, va);
    LoadMeaning(m, data, pd, base, phs, va / PAGE, OffsetIn(c, va));
  }

  lemma OffsetInImage(c: Phdr, va: nat)
    requires c.vaddr % PAGE + c.memsz <= IMAGE && FirstPage(c) <= va / PAGE < EndPage(c)
    ensures OffsetIn(c, va) < IMAGE
  {
  }

  /** The `k`-th segment of any header list is loaded right exactly when for each of its
      bytes the last segment on its page shows, there, a place of the image that the last
      segment to fill it filled with the same byte. */
  lemma SegmentRightIff(m: Machine, data: seq<nat>, pd: nat, base: nat, phs: seq<Phdr>, k: nat)
    requires Loadable(m, data, pd, base, phs) && k < |phs| && phs[k].kind == PT_LOAD
    ensures LoadedRight(LoadAll(m, data, pd, base, phs), data, pd, phs[k]) <==>
      forall j: nat :: j < phs[k].memsz ==>
        Seen(m.ram, data, base, phs, phs[k].vaddr + j) == Some(FileByte(data, phs[k], j))
  {
    hide Walk, Inv, LoadAll, FirstPage, EndPage, ImageByte, PageOwner, Seen, Reads, Private;
    var ph := phs[k];
    assert ph in phs && ElfSpec.Fits(m.sp, data, ph);
    ShapedKept(LoadAll(m, data, pd, base, phs).sp);
    forall j: nat | j < ph.memsz
      ensures var r := LoadAll(m, data, pd, base, phs);
        Shaped(r.sp) && (Reads(r, pd, ph.vaddr + j, FileByte(data, ph, j)) <==>
          Seen(m.ram, data, base, phs, ph.vaddr + j) == Some(FileByte(data, ph, j)))
    {
      BytePlace(ph, j);
      assert Maps(ph, (ph.vaddr + j) / PAGE);
      SeenIsRead(m, data, pd, base, phs, ph.vaddr + j, FileByte(data, ph, j));
    }
  }

  /** No later segment maps a page of the `k`-th. */
  predicate KeepsPages(phs: seq<Phdr>, k: nat)
    requires k < |phs|
  {
    forall i :: k < i < |phs| && phs[i].kind == PT_LOAD ==>
      EndPage(phs[i]) <= FirstPage(phs[k]) || EndPage(phs[k]) <= FirstPage(phs[i])
  }

  /** No later segment fills a place of the image the `k`-th fills. */
  predicate KeepsBytes(phs: seq<Phdr>, k: nat)
    requires k < |phs|
  {
    forall i :: k < i < |phs| && phs[i].kind == PT_LOAD ==>
      || phs[i].vaddr % PAGE + phs[i].memsz <= phs[k].vaddr % PAGE
      || phs[k].vaddr % PAGE + phs[k].memsz <= phs[i].vaddr % PAGE
  }

  lemma {:induction false} OwnsItsPages(phs: seq<Phdr>, k: nat, q: nat)
    requires k < |phs| && KeepsPages(phs, k) && Maps(phs[k], q)
    ensures PageOwner(phs, q) == Some(phs[k])
    decreases |phs|
  {
    hide FirstPage, EndPage;
    var n := |phs| - 1;
    if k < n {
      assert phs[..n][k] == phs[k];
      OwnsItsPages(phs[..n], k, q);
    }
  }

  lemma {:induction false} OwnsItsBytes(ram: seq<nat>, data: seq<nat>, base: nat, phs: seq<Phdr>, k: nat, o: nat)
    requires k < |phs| && KeepsBytes(phs, k) && Fills(phs[k], o)
    ensures ImageByte(ram, data, base, phs, o) == FileByte(data, phs[k], o - phs[k].vaddr % PAGE)
    decreases |phs|
  {
    var n := |phs| - 1;
    if k < n {
      assert phs[..n][k] == phs[k];
      OwnsItsBytes(ram, data, base, phs[..n], k, o);
    }
  }

  lemma SeenOnOwnPage(ram: seq<nat>, data: seq<nat>, base: nat, phs: seq<Phdr>, k: nat, j: nat)
    requires k < |phs| && phs[k].kind == PT_LOAD && KeepsPages(phs, k) && j < phs[k].memsz
    ensures Fills(phs[k], phs[k].vaddr % PAGE + j)
    ensures Seen(ram, data, base, phs, phs[k].vaddr + j) ==
      Some(ImageByte(ram, data, base, phs, phs[k].vaddr % PAGE + j))
  {
    hide ImageByte, PageOwner, FirstPage, EndPage, KeepsPages;
    BytePlace(phs[k], j);
    OwnsItsPages(phs, k, (phs[k].vaddr + j) / PAGE);
    assert OffsetIn(phs[k], phs[k].vaddr + j) == phs[k].vaddr % PAGE + j;
  }

  /** If later segments keep off its pages, it is loaded right exactly when the last one
      to fill each of its places in the image put the same byte there. */
  lemma OwnPagesRightIff(m: Machine, data: seq<nat>, pd: nat, base: nat, phs: seq<Phdr>, k: nat)
    requires Loadable(m, data, pd, base, phs) && k < |phs| && phs[k].kind == PT_LOAD && KeepsPages(phs, k)
    ensures LoadedRight(LoadAll(m, data, pd, base, phs), data, pd, phs[k]) <==>
      forall o: nat :: Fills(phs[k], o) ==>
        ImageByte(m.ram, data, base, phs, o) == FileByte(data, phs[k], o - phs[k].vaddr % PAGE)
  {
    hide Walk, Inv, LoadAll, ImageByte, PageOwner, LoadedRight, Loadable, FileByte, FirstPage, EndPage, KeepsPages,
         Seen;
    SegmentRightIff(m, data, pd, base, phs, k);
    var ph := phs[k];
    if forall o: nat :: Fills(ph, o) ==>
        ImageByte(m.ram, data, base, phs, o) == FileByte(data, ph, o - ph.vaddr % PAGE) {
      forall j: nat | j < ph.memsz ensures Seen(m.ram, data, base, phs, ph.vaddr + j) == Some(FileByte(data, ph, j)) {
        SeenOnOwnPage(m.ram, data, base, phs, k, j);
      }
    }
    if forall j: nat :: j < ph.memsz ==> Seen(m.ram, data, base, phs, ph.vaddr + j) == Some(FileByte(data, ph, j)) {
      forall o: nat | Fills(ph, o)
        ensures ImageByte(m.ram, data, base, phs, o) == FileByte(data, ph, o - ph.vaddr % PAGE)
      {
        var j: nat := o - ph.vaddr % PAGE;
        SeenOnOwnPage(m.ram, data, base, phs, k, j);
        assert Seen(m.ram, data, base, phs, ph.vaddr + j) == Some(FileByte(data, ph, j));
      }
    }
  }

  /** So segments whose pages and places in the image no later one touches are right. */
  lemma DisjointSegmentsRight(m: Machine, data: seq<nat>, pd: nat, base: nat, phs: seq<Phdr>, k: nat)
    requires Loadable(m, data, pd, base, phs) && k < |phs| && phs[k].kind == PT_LOAD
    requires KeepsPages(phs, k) && KeepsBytes(phs, k)
    ensures LoadedRight(LoadAll(m, data, pd, base, phs), data, pd, phs[k])
  {
    hide Walk, Inv, LoadAll, ImageByte, PageOwner, LoadedRight, FileByte, KeepsPages, KeepsBytes, Private;
    assert phs[k] in phs && ElfSpec.Fits(m.sp, data, phs[k]);
    OwnPagesRightIff(m, data, pd, base, phs, k);
    forall o: nat | Fills(phs[k], o)
      ensures ImageByte(m.ram, data, base, phs, o) == FileByte(data, phs[k], o - phs[k].vaddr % PAGE)
    {
      OwnsItsBytes(m.ram, data, base, phs, k, o);
    }
  }

  /** Two segments on pages of their own: the first is right exactly when both have the
      same byte wherever they fill the same place of the image. */
  lemma TwoSegmentsRightIff(m: Machine, data: seq<nat>, pd: nat, base: nat, a: Phdr, b: Phdr)
    requires Loadable(m, data, pd, base, [a, b]) && a.kind == b.kind == PT_LOAD
    requires EndPage(a) <= FirstPage(b) || EndPage(b) <= FirstPage(a)
    ensures LoadedRight(LoadAll(m, data, pd, base, [a, b]), data, pd, a) <==>
      forall o: nat :: Fills(a, o) && Fills(b, o) ==>
        FileByte(data, a, o - a.vaddr % PAGE) == FileByte(data, b, o - b.vaddr % PAGE)
  {
    hide Walk, Inv, LoadAll, LoadedRight, FileByte, Private, PageOwner;
    var phs := [a, b];
    assert a in phs && ElfSpec.Fits(m.sp, data, a);
    OwnPagesRightIff(m, data, pd, base, phs, 0);
    assert phs[..1] == [a] && [a][..0] == [];
    forall o: nat | Fills(a, o)
      ensures ImageByte(m.ram, data, base, phs, o) ==
        if Fills(b, o) then FileByte(data, b, o - b.vaddr % PAGE) else FileByte(data, a, o - a.vaddr % PAGE)
    {
      assert ImageByte(m.ram, data, base, [a], o) == FileByte(data, a, o - a.vaddr % PAGE);
    }
  }

  /** In particular two segments with equal page offset clash in their first byte. */
  lemma TwoSegmentsClash(m: Machine, data: seq<nat>, pd: nat, base: nat, a: Phdr, b: Phdr)
    requires Loadable(m, data, pd, base, [a, b]) && a.kind == b.kind == PT_LOAD
    requires a.filesz > 0 && b.filesz > 0 && a.vaddr % PAGE == b.vaddr % PAGE
    requires EndPage(a) <= FirstPage(b) || EndPage(b) <= FirstPage(a)
    ensures var r := LoadAll(m, data, pd, base, [a, b]);
      && Shaped(r.sp) && pd < 9 && a.vaddr < MEMORY_END
      && Translate(r.sp, pd, a.vaddr) == Translate(r.sp, pd, b.vaddr) == Some(base + a.vaddr % PAGE)
      && r.ram[base + a.vaddr % PAGE] == data[b.offset]
      && (LoadedRight(r, data, pd, a) ==> data[a.offset] == data[b.offset])
  {
    hide Walk, Inv, LoadAll, Private, FirstPage, EndPage, LoadedRight;
    var phs := [a, b];
    assert a in phs && b in phs && ElfSpec.Fits(m.sp, data, a) && ElfSpec.Fits(m.sp, data, b);
    NextTaskBound(m.sp);
    ShapedKept(LoadAll(m, data, pd, base, phs).sp);
    BytePlace(a, 0);
    BytePlace(b, 0);
    OwnsItsPages(phs, 0, FirstPage(a));
    LoadMeaning(m, data, pd, base, phs, FirstPage(a), a.vaddr % PAGE);
    LoadMeaning(m, data, pd, base, phs, FirstPage(b), a.vaddr % PAGE);
    TwoSegmentsRightIff(m, data, pd, base, a, b);
    assert Fills(a, a.vaddr % PAGE) && Fills(b, a.vaddr % PAGE);
    assert FileByte(data, a, 0) == data[a.offset] && FileByte(data, b, 0) == data[b.offset];
  }
}
