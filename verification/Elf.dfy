/** `load_elf_segments` of src/task.c on a byte array and the page tables. */
module Elf {
  import opened PagingSpec
  import opened PagingProofs
  import opened SbrkSpec
  import opened SbrkProofs
  import opened ElfSpec
  import opened Paging

  const PT_DYNAMIC: nat := 2

  function Headers(data: seq<nat>): (phs: seq<Phdr>)
    requires HasHeaders(data)
    ensures |phs| == U16(data, 44)
  {
    seq(U16(data, 44), i requires 0 <= i < U16(data, 44) => HeaderAt(data, i))
  }

  class Loader {
    const spaces: AddressSpaces
    const ram: array<nat>            // physical memory, identity mapped for the kernel

    constructor (spaces: AddressSpaces, ram: array<nat>)
      ensures this.spaces == spaces && this.ram == ram
    {
      this.spaces := spaces;
      this.ram := ram;
    }

    ghost function View(): Machine
      reads this, spaces, ram
    {
      Machine(ram[..], spaces.View())
    }

    /** Loads a program without PT_DYNAMIC headers; 0 when the magic byte is missing. */
    method LoadElfSegments(data: seq<nat>, pd: nat, physBase: nat) returns (entry: nat)
      requires HasHeaders(data) && Loadable(View(), data, pd, physBase, Headers(data))
      requires forall ph :: ph in Headers(data) ==> ph.kind != PT_DYNAMIC
      modifies ram, spaces`pds, spaces`pts, spaces`dmaMemoryPointer
      ensures data[0] != 0x7F ==> entry == 0 && View() == old(View())
      ensures data[0] == 0x7F ==>
        && entry == U32(data, 24)
        && View() == LoadAll(old(View()), data, pd, physBase, Headers(data))
      ensures old(spaces.Valid() && ClearOfHeaps(spaces.Heaps(), pd, Headers(data))) ==> spaces.Valid()
    {
      hide Inv, Shaped, HeapInv, ClearOfHeaps;
      if data[0] != 0x7F { return 0; }
      ghost var phs := Headers(data);
      ghost var m := View();
      var phnum := U16(data, 44);
      for i := 0 to phnum
        invariant PrefixLoadable(m, data, pd, physBase, phs, i)
        invariant View() == LoadAll(m, data, pd, physBase, phs[..i])
      {
        var ph := HeaderAt(data, i);
        NextHeader(m, View(), data, pd, physBase, phs, i);
        if ph.kind == PT_LOAD {
          LoadSegment(data, pd, physBase, ph);
        }
      }
      assert phs[..phnum] == phs;
      if old(spaces.Valid() && ClearOfHeaps(spaces.Heaps(), pd, phs)) {
        LoadKeepsHeaps(old(spaces.Heaps()), pd, physBase, m.ram, data, phs);
      }
      entry := U32(data, 24);
    }

    /** The PT_LOAD branch: two byte loops, then the mapping loop. */
    method LoadSegment(data: seq<nat>, pd: nat, physBase: nat, ph: Phdr)
      requires Ready(View(), data, pd, physBase, ph)
      modifies ram, spaces`pds, spaces`pts, spaces`dmaMemoryPointer
      ensures View() == LoadOne(old(View()), data, pd, physBase, ph)
      ensures old(spaces.Valid() && ClearRange(spaces.Heaps(), pd, FirstPage(ph), EndPage(ph))) ==> spaces.Valid()
    {
      hide Inv, Private, MapRange, Overwrite, SegmentBytes, PagingSpec.Shaped;
      RangeReady(View(), data, pd, physBase, ph);
      PageAddresses(ph);
      CopySegment(data, physBase + ph.vaddr % PAGE, ph);
      MapPages(pd, ph.vaddr / PAGE * PAGE, (ph.vaddr + ph.memsz + 4095) / PAGE * PAGE, physBase);
    }

    method CopySegment(data: seq<nat>, dest: nat, ph: Phdr)
      requires ph.filesz <= ph.memsz && ph.offset + ph.filesz <= |data| && dest + ph.memsz <= ram.Length
      modifies ram
      ensures ram[..] == Overwrite(old(ram[..]), dest, SegmentBytes(data, ph))
    {
      var j := 0;
      while j < ph.filesz
        invariant j <= ph.filesz
        invariant forall a :: 0 <= a < ram.Length ==>
          ram[a] == if dest <= a < dest + j then data[ph.offset + (a - dest)] else old(ram[a])
      {
        ram[dest + j] := data[ph.offset + j];
        j := j + 1;
      }
      while j < ph.memsz
        invariant ph.filesz <= j <= ph.memsz
        invariant forall a :: 0 <= a < ram.Length ==>
          ram[a] == if dest <= a < dest + ph.filesz then data[ph.offset + (a - dest)]
                    else if dest <= a < dest + j then 0 else old(ram[a])
      {
        ram[dest + j] := 0;
        j := j + 1;
      }
    }

    method MapPages(pd: nat, pageStart: nat, pageEnd: nat, physBase: nat)
      requires pageStart % PAGE == 0 && pageEnd % PAGE == 0 && pageStart <= pageEnd < MEMORY_END
      requires Inv(spaces.View()) && Shaped(spaces.View()) && pd < Dirs(spaces.View())
      requires forall p | pageStart / PAGE <= p < pageEnd / PAGE :: Private(spaces.View(), p)
      requires spaces.dmaMemoryPointer + 2 * PAGE * (pageEnd / PAGE - pageStart / PAGE) <= POOL_END
      modifies spaces`pds, spaces`pts, spaces`dmaMemoryPointer
      ensures spaces.View() == MapRange(old(spaces.View()), pd, pageStart / PAGE, pageEnd / PAGE, physBase)
      ensures old(spaces.Valid() && ClearRange(spaces.Heaps(), pd, pageStart / PAGE, pageEnd / PAGE)) ==>
        (physBase % PAGE == 0 ==> spaces.Valid())
    {
      hide Inv, Private, MapSpec, Walk, HeapInv, ClearRange;
      ghost var s := spaces.View();
      var curV := pageStart;
      while curV < pageEnd
        invariant pageStart <= curV <= pageEnd && curV % PAGE == 0
        invariant spaces.View() == MapRange(s, pd, pageStart / PAGE, curV / PAGE, physBase)
      {
        var diff := curV - pageStart;
        var paddr := physBase + diff;
        MapNext(s, spaces.View(), pd, pageStart / PAGE, curV / PAGE, physBase);
        spaces.MapVaddrToPaddr(pd, curV, paddr);
        curV := curV + 4096;
      }
      if physBase % PAGE == 0 &&
          old(spaces.Valid() && ClearRange(spaces.Heaps(), pd, pageStart / PAGE, pageEnd / PAGE)) {
        MapKeepsHeaps(old(spaces.Heaps()), pd, pageStart / PAGE, pageEnd / PAGE, physBase);
      }
    }

    /** `map_shared_library`: the same physical copy in any number of tasks. */
    method MapSharedLibrary(pd: nat, vaddr: nat, paddr: nat, size: nat)
      requires vaddr + size + 4095 < MEMORY_END
      requires Inv(spaces.View()) && Shaped(spaces.View()) && pd < Dirs(spaces.View())
      requires forall p | vaddr / PAGE <= p < (vaddr + size + 4095) / PAGE :: Private(spaces.View(), p)
      requires spaces.dmaMemoryPointer + 2 * PAGE * ((vaddr + size + 4095) / PAGE - vaddr / PAGE) <= POOL_END
      modifies spaces`pds, spaces`pts, spaces`dmaMemoryPointer
      ensures spaces.View() == MapRange(old(spaces.View()), pd, vaddr / PAGE, (vaddr + size + 4095) / PAGE, Base(paddr))
      ensures old(spaces.Valid() && ClearRange(spaces.Heaps(), pd, vaddr / PAGE, (vaddr + size + 4095) / PAGE)) ==>
        spaces.Valid()
    {
      hide Inv, Private, Shaped, HeapInv, ClearRange, MapRange;
      WholePages(vaddr);
      WholePages(vaddr + size + 4095);
      MapPages(pd, vaddr / PAGE * PAGE, (vaddr + size + 4095) / PAGE * PAGE, Base(paddr));
    }
  }

  lemma WholePages(a: nat)
    ensures a / PAGE * PAGE <= a && a / PAGE * PAGE % PAGE == 0 && a / PAGE * PAGE / PAGE == a / PAGE
  {
  }

  lemma PageAddresses(ph: Phdr)
    ensures ph.vaddr / PAGE * PAGE / PAGE == FirstPage(ph)
    ensures (ph.vaddr + ph.memsz + 4095) / PAGE * PAGE / PAGE == EndPage(ph)
  {
  }

  ghost predicate PrefixLoadable(m: Machine, data: seq<nat>, pd: nat, base: nat, phs: seq<Phdr>, i: nat) {
    i <= |phs| && Loadable(m, data, pd, base, phs) && Loadable(m, data, pd, base, phs[..i])
  }

  lemma NextHeader(m: Machine, u: Machine, data: seq<nat>, pd: nat, base: nat, phs: seq<Phdr>, i: nat)
    requires i < |phs| && PrefixLoadable(m, data, pd, base, phs, i)
    requires u == LoadAll(m, data, pd, base, phs[..i])
    ensures PrefixLoadable(m, data, pd, base, phs, i + 1)
    ensures phs[i].kind == PT_LOAD ==> Ready(u, data, pd, base, phs[i])
    ensures LoadAll(m, data, pd, base, phs[..i + 1]) ==
      if phs[i].kind == PT_LOAD then LoadOne(u, data, pd, base, phs[i]) else u
  {
    hide Inv, Shaped, ElfSpec.Fits;
    var longer := phs[..i + 1];
    LoadsGrow(phs, i + 1);
    assert forall ph :: ph in longer ==> ph in phs;
    assert longer[..i] == phs[..i] && longer[i] == phs[i];
    if phs[i].kind == PT_LOAD { ReadyNext(m, u, data, pd, base, longer); }
  }

  lemma {:induction false} LoadsGrow(phs: seq<Phdr>, i: nat)
    requires i <= |phs|
    ensures Loads(phs[..i]) <= Loads(phs)
    decreases |phs|
  {
    if i < |phs| {
      var shorter := phs[..|phs| - 1];
      assert shorter[..i] == phs[..i];
      LoadsGrow(shorter, i);
    } else {
      assert phs[..i] == phs;
    }
  }

  lemma MapNext(s: Spaces, u: Spaces, pd: nat, from: nat, p: nat, base: nat)
    requires Inv(s) && Shaped(s) && pd < Dirs(s) && from <= p < 0x100000
    requires forall k | from <= k <= p :: Private(s, k)
    requires s.dmaPtr + 2 * PAGE * (p + 1 - from) <= POOL_END
    requires u == MapRange(s, pd, from, p, base)
    ensures Shaped(u) && pd < 9
    ensures Present(u.pds[pd][p / 1024]) ==> Base(u.pds[pd][p / 1024]) in u.pts
    ensures MapRange(s, pd, from, p + 1, base) == MapSpec(u, pd, p, base + (p - from) * PAGE)
  {
    hide Walk;
    assert Private(s, p) && Private(u, p);
    MapIsolated(u, pd, p, base + (p - from) * PAGE);
  }
}
