/** Starting one program and what the others see of it: the launch of src/kernel.c, the
    page directory and the loader of src/task.c together. */
module ExecLoad {
  import opened PagingSpec
  import opened ElfSpec
  import opened ElfProofs
  import HeapSpec
  import HeapProofs
  import LaunchSpec
  import LaunchProofs
  import SbrkProofs

  /** Where a launch puts the image of the new program. */
  function NewImage(k: LaunchSpec.KState): nat
    requires HeapSpec.Inv(k.heap) && LaunchSpec.CanLaunch(k.heap)
  {
    LaunchSpec.Launched(k).procs[k.nextPid].memory.appBase
  }

  predicate InImage(base: nat, a: nat) { base <= a < base + IMAGE }

  /** The directory the next program runs on. */
  function NextDir(s: Spaces): nat { if s.nextTask < 8 then s.nextTask else KERNEL_PD }

  /** That directory and the program loaded into it. */
  ghost predicate Startable(m: Machine, data: seq<nat>, base: nat, phs: seq<Phdr>) {
    && Shaped(m.sp)
    && Loadable(m.(sp := CreateDirSpec(m.sp).0), data, NextDir(m.sp), base, phs)
  }

  ghost function Started(m: Machine, data: seq<nat>, base: nat, phs: seq<Phdr>): Machine
    requires Startable(m, data, base, phs)
  {
    LoadAll(m.(sp := CreateDirSpec(m.sp).0), data, NextDir(m.sp), base, phs)
  }

  /** In any other directory an address keeps its translation, and reads as before exactly
      when it does not lead into the new image or the loader put the same byte there. */
  lemma OthersReadIff(m: Machine, data: seq<nat>, base: nat, phs: seq<Phdr>, i: nat, va: nat)
    requires Inv(m.sp) && Startable(m, data, base, phs) && va < MEMORY_END
    requires i < Dirs(m.sp) && i != NextDir(m.sp) && Translate(m.sp, i, va).Some?
    ensures var a, r := Translate(m.sp, i, va).value, Started(m, data, base, phs);
      && Shaped(r.sp) && |r.ram| == |m.ram| && Translate(r.sp, i, va) == Some(a)
      && (a < |m.ram| ==>
          (r.ram[a] == m.ram[a] <==> !InImage(base, a) || ImageByte(m.ram, data, base, phs, a - base) == m.ram[a]))
  {
    hide Walk, Inv, LoadAll, ImageByte, Loadable, CreateDirSpec;
    InvFacts(m.sp);
    SbrkProofs.NewTaskKeeps(m.sp);
    var n := m.(sp := CreateDirSpec(m.sp).0);
    ShapedKept(n.sp);
    NextTaskBound(n.sp);
    LoadableBase(n, data, NextDir(m.sp), base, phs);
    LoadTouchesOnlyImage(n, data, NextDir(m.sp), base, phs, i, va / PAGE);
    var a := Translate(m.sp, i, va).value;
    if InImage(base, a) { LoadMeaning(n, data, NextDir(m.sp), base, phs, 0, a - base); }
  }

  lemma LoadableBase(m: Machine, data: seq<nat>, pd: nat, base: nat, phs: seq<Phdr>)
    requires Loadable(m, data, pd, base, phs)
    ensures base + IMAGE <= |m.ram| && Shaped(m.sp)
    ensures |LoadAll(m, data, pd, base, phs).ram| == |m.ram|
  {
    hide Inv, LoadAll;
  }

  /** What a program holds of the heap: the block of its image. */
  function ImageCell(p: LaunchSpec.Proc): (int, nat) { (p.raw - HeapSpec.HEADER, p.rawSize) }

  lemma ImageInCell(k: LaunchSpec.KState, p: LaunchSpec.Proc)
    requires LaunchSpec.Holds(k, p)
    ensures ImageCell(p).0 >= 0 && ImageCell(p) in LaunchSpec.Cells(p) &&
        ImageCell(p) in HeapSpec.Allocated(k.heap.blocks)
    ensures ImageCell(p).0 + HeapSpec.HEADER <= p.memory.appBase
    ensures p.memory.appBase + IMAGE <= ImageCell(p).0 + HeapSpec.HEADER + ImageCell(p).1
  {
    hide HeapSpec.Allocated;
    assert ImageCell(p) in LaunchSpec.Cells(p);
  }

  lemma HeapOf(k: LaunchSpec.KState)
    requires LaunchSpec.WF(k)
    ensures HeapSpec.Inv(k.heap)
  {
  }

  lemma TwoCells(k: LaunchSpec.KState, id: nat)
    requires LaunchSpec.WF(k) && LaunchSpec.CanLaunch(k.heap) && id in k.procs
    ensures var t, q := LaunchSpec.Launched(k), k.procs[id];
      && k.nextPid in t.procs && LaunchSpec.Holds(t, t.procs[k.nextPid]) && LaunchSpec.Holds(k, q)
      && HeapSpec.Tiles(t.heap.blocks) && ImageCell(q) in HeapSpec.Allocated(t.heap.blocks)
      && ImageCell(q) != ImageCell(t.procs[k.nextPid])
  {
    hide LaunchSpec.Launched, LaunchSpec.CanLaunch, HeapSpec.Allocated, LaunchSpec.Holds, HeapSpec.Tiles,
         LaunchSpec.Cells, HeapSpec.WordSized, HeapSpec.Coalesced, HeapSpec.UsedBytes, LaunchSpec.Rest;
    LaunchProofs.LaunchKeepsWF(k);
    var t := LaunchSpec.Launched(k);
    ImageInCell(k, k.procs[id]);
    ImageInCell(t, t.procs[k.nextPid]);
  }

  /** The image of a new program lies apart from that of every running one and below the
      frames of user heaps. */
  lemma NewImageApart(k: LaunchSpec.KState, id: nat, a: nat)
    requires LaunchSpec.WF(k) && LaunchSpec.CanLaunch(k.heap) && id in k.procs
    requires InImage(k.procs[id].memory.appBase, a) || a >= FRAMES_START
    ensures !InImage(NewImage(k), a)
  {
    hide LaunchSpec.Launched, LaunchSpec.CanLaunch, LaunchSpec.WF, HeapSpec.Allocated, HeapSpec.Tiles, LaunchSpec.Holds,
         LaunchSpec.Cells, ImageCell;
    HeapOf(k);
    TwoCells(k, id);
    var t := LaunchSpec.Launched(k);
    var x, y := ImageCell(t.procs[k.nextPid]), ImageCell(k.procs[id]);
    ImageInCell(t, t.procs[k.nextPid]);
    ImageInCell(k, k.procs[id]);
    if InImage(k.procs[id].memory.appBase, a) {
      LaunchProofs.ImagesApart(t.heap.blocks, y, x, a);
    } else {
      BlockInHeap(t.heap.blocks, x);
    }
  }

  lemma BlockInHeap(bs: seq<HeapSpec.Block>, x: (nat, nat))
    requires HeapSpec.Tiles(bs) && x in HeapSpec.Allocated(bs)
    ensures x.0 + HeapSpec.HEADER + x.1 <= HeapSpec.HEAP_END
  {
    var i := HeapProofs.AllocatedAt(bs, x);
    if i + 1 < |bs| { HeapProofs.Ascending(bs, i, |bs| - 1); }
  }

  /** So starting a program changes nothing that a running one on another directory reads
      in its own image or in its heap. */
  lemma ExecKeepsOthers(k: LaunchSpec.KState, m: Machine, data: seq<nat>, phs: seq<Phdr>, id: nat, i: nat, va: nat,
                        b: nat)
    requires LaunchSpec.WF(k) && LaunchSpec.CanLaunch(k.heap) && id in k.procs
    requires Inv(m.sp) && Startable(m, data, NewImage(k), phs) && va < MEMORY_END
    requires i < Dirs(m.sp) && i != NextDir(m.sp) && Translate(m.sp, i, va).Some?
    requires var a := Translate(m.sp, i, va).value; InImage(k.procs[id].memory.appBase, a) || a >= FRAMES_START
    ensures Shaped(m.sp) && Shaped(Started(m, data, NewImage(k), phs).sp)
    ensures Reads(Started(m, data, NewImage(k), phs), i, va, b) <==> Reads(m, i, va, b)
  {
    hide Walk, Inv, LaunchSpec.WF, LaunchSpec.CanLaunch, Startable, Started, InImage, NewImage;
    InvFacts(m.sp);
    HeapOf(k);
    NewImageApart(k, id, Translate(m.sp, i, va).value);
    OthersReadIff(m, data, NewImage(k), phs, i, va);
  }

  // ---------------------------------------------------------------- after the eighth task

  /** Programs after the eighth share the kernel's own directory. There a page changes its
      translation exactly when a segment of the new program lies on it and puts it
      somewhere else. */
  lemma SharedPageIff(m: Machine, data: seq<nat>, base: nat, phs: seq<Phdr>, q: nat)
    requires Inv(m.sp) && Startable(m, data, base, phs) && m.sp.nextTask == 8 && q < 0x100000
    ensures Shaped(Started(m, data, base, phs).sp)
    ensures var c := PageOwner(phs, q);
      Walk(Started(m, data, base, phs).sp, KERNEL_PD, q) != Walk(m.sp, KERNEL_PD, q) <==>
        c.Some? && Walk(m.sp, KERNEL_PD, q) != Some(base + (q - FirstPage(c.value)) * PAGE)
  {
    hide Walk, Inv, LoadAll, Loadable, PageOwner, FirstPage, EndPage;
    PageMeaning(m, data, KERNEL_PD, base, phs, q);
  }

  /** Page `q` there shows the image of a running program: it is replaced exactly when the
      new program has a segment on it, as all programs linked at one address have. */
  lemma LaterProgramReplacesIff(k: LaunchSpec.KState, m: Machine, data: seq<nat>, phs: seq<Phdr>, id: nat, q: nat)
    requires LaunchSpec.WF(k) && LaunchSpec.CanLaunch(k.heap) && id in k.procs
    requires Inv(m.sp) && Startable(m, data, NewImage(k), phs) && m.sp.nextTask == 8 && q < 0x100000
    requires var f := Walk(m.sp, KERNEL_PD, q); f.Some? && InImage(k.procs[id].memory.appBase, f.value)
    ensures Shaped(Started(m, data, NewImage(k), phs).sp)
    ensures Walk(Started(m, data, NewImage(k), phs).sp, KERNEL_PD, q) != Walk(m.sp, KERNEL_PD, q) <==>
      PageOwner(phs, q).Some?
  {
    hide Walk, Inv, LaunchSpec.WF, LaunchSpec.CanLaunch, Started, NewImage, FirstPage, EndPage;
    HeapOf(k);
    var base := NewImage(k);
    SharedPageIff(m, data, base, phs, q);
    NewImageApart(k, id, Walk(m.sp, KERNEL_PD, q).value);
    if PageOwner(phs, q).Some? { OwnedPlace(m, data, base, phs, q); }
  }

  lemma OwnedPlace(m: Machine, data: seq<nat>, base: nat, phs: seq<Phdr>, q: nat)
    requires Startable(m, data, base, phs) && PageOwner(phs, q).Some?
    ensures InImage(base, base + (q - FirstPage(PageOwner(phs, q).value)) * PAGE)
  {
    hide Walk, Inv, FirstPage, EndPage, CreateDirSpec, Private;
    var c := PageOwner(phs, q).value;
    assert c in phs && c.kind == PT_LOAD;
    OffsetInImage(c, q * PAGE);
  }
}
