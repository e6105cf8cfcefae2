/** malloc and free of sdk/libc.c in one task: block headers in that task's heap. */
module UserAlloc {
  import opened HeapSpec
  import opened PagingSpec
  import opened SbrkSpec
  import SbrkProofs
  import opened UserHeapSpec
  import opened UserHeapProofs
  import opened KernelHeap
  import opened Paging

  class UserHeap {
    const spaces: AddressSpaces
    const task: nat
    var hdr: map<nat, Header>        // struct malloc_block by virtual address
    var userHeapHead: nat
    ghost var blocks: seq<Block>

    /** The headers spell out the list. */
    ghost predicate Walkable()
      reads this, spaces
    {
      && spaces.Valid() && task < |spaces.vHeapEnd| && task < 8
      && ListLinked()
    }

    ghost predicate ListLinked()
      reads this
    {
      && Linked(hdr, blocks) && (forall k :: 0 <= k < |blocks| ==> HEAP_BASE <= blocks[k].addr)
      && userHeapHead == if blocks == [] then 0 else blocks[0].addr
    }

    /** And its blocks lie apart, below the break. */
    ghost predicate Valid()
      reads this, spaces
    {
      Walkable() && Placed(blocks, spaces.vHeapEnd[task])
    }

    /** A new program: `user_heap_head` is null. */
    constructor (spaces: AddressSpaces, task: nat)
      requires spaces.Valid() && task < |spaces.vHeapEnd| && task < 8
      ensures Valid() && blocks == [] && this.spaces == spaces && this.task == task
    {
      this.spaces := spaces;
      this.task := task;
      hdr := map[];
      userHeapHead := 0;
      blocks := [];
    }

    /** A sound request keeps the heap valid, an unsound one leaves a list that still reads
        but overlaps. The request after that can get the last block again, which is then
        linked to itself. */
    method Malloc(size: nat) returns (ptr: nat)
      requires Walkable() && size < WORD && spaces.taskDir[task] < 9 && CanServe(blocks, spaces.Heaps(), task, size)
      modifies this, spaces
      ensures spaces.Valid() && Served(blocks, spaces.Heaps(), ptr) == old(Serve(blocks, spaces.Heaps(), task, size))
      ensures old(Valid()) ==> Walkable()
      ensures old(Valid()) ==> (Valid() <==> size == 0 || old(Sound(blocks, spaces.vHeapEnd[task], size)))
      ensures |blocks| > |old(blocks)| > 0 && ptr == old(blocks)[|old(blocks)| - 1].addr + HEADER ==>
        ptr - HEADER in hdr && hdr[ptr - HEADER].next == ptr - HEADER
    {
      hide HeapInv, MoveBreak, Shaped, CanMove, Increment, Placed;
      if size == 0 { return 0; }
      ghost var bs, brk := blocks, spaces.vHeapEnd[task];
      SbrkProofs.HeapShaped(spaces.Heaps());
      MovedBounds(spaces.Heaps(), task);
      var n := Align4(size);
      var curr, last, k := FindFree(n);
      if curr != 0 {
        Reuse(curr, k);
        if Placed(bs, brk) {
          PlacedDistinct(bs, brk, n);
          ReusePlaced(bs, brk, k);
        }
        return curr + HEADER;
      }
      ptr := Extend(last, n);
    }

    /** A block at the break, wherever that moves. */
    method Extend(last: nat, n: nat) returns (ptr: nat)
      requires Walkable() && n < WORD && spaces.taskDir[task] < 9 && CanMove(spaces.Heaps(), task, Increment(n))
      requires last == if blocks == [] then 0 else blocks[|blocks| - 1].addr
      modifies this, spaces
      ensures spaces.Valid() && old(task < |spaces.vHeapEnd|)
      ensures (spaces.Heaps(), ptr - HEADER) == old(MoveBreak(spaces.Heaps(), task, Increment(n)))
      ensures blocks == old(blocks) + [Block(ptr - HEADER, n, false)]
      ensures old(Valid()) ==> Walkable()
      ensures old(Valid()) ==> (Valid() <==> old(HEADER + n < WORD - (spaces.vHeapEnd[task] - HEAP_BASE)))
      ensures ptr - HEADER in hdr && (ptr - HEADER == last ==> hdr[last].next == last)
    {
      hide HeapInv, MoveBreak, Shaped, CanMove, Increment, Placed, Distinct, Linked, PagingSpec.Inv, BreakSpec, Movable,
           TasksOk;
      ghost var bs, brk := blocks, spaces.vHeapEnd[task];
      SbrkProofs.HeapShaped(spaces.Heaps());
      MovedBounds(spaces.Heaps(), task);
      Moved(spaces.Heaps(), task, Increment(n));
      BreakInWindow(spaces.Heaps(), task, Increment(n));
      var newBlock := spaces.SysSbrk(task, Increment(n));
      Append(last, newBlock, n);
      MovedBounds(spaces.Heaps(), task);
      if Placed(bs, brk) {
        PlacedDistinct(bs, brk, n);
        AppendPlacedIff(bs, brk, n, spaces.vHeapEnd[task]);
        IncrementIff(n, brk);
      }
      ptr := newBlock + HEADER;
    }

    /** The search loop: the first free block that fits, or null and the last block. */
    method FindFree(n: nat) returns (curr: nat, last: nat, ghost k: nat)
      requires ListLinked()
      ensures k == FirstFitFrom(blocks, 0, n)
      ensures if k < |blocks| then curr == blocks[k].addr && curr != 0 else curr == 0
      ensures last == if k == 0 then userHeapHead else blocks[k - 1].addr
    {
      curr, last, k := userHeapHead, userHeapHead, 0;
      while curr != 0
        invariant k <= |blocks| && (k < |blocks| ==> curr == blocks[k].addr) && (k == |blocks| ==> curr == 0)
        invariant FirstFitFrom(blocks, 0, n) == FirstFitFrom(blocks, k, n)
        invariant last == if k == 0 then userHeapHead else blocks[k - 1].addr
        decreases |blocks| - k
      {
        assert HeaderAt(hdr, blocks, k);
        if hdr[curr].isFree && hdr[curr].size >= n { return; }
        last := curr;
        curr := hdr[curr].next;
        k := k + 1;
      }
    }

    method Reuse(curr: nat, ghost k: nat)
      requires ListLinked() && k < |blocks| && curr == blocks[k].addr
      modifies this`hdr, this`blocks
      ensures blocks == old(blocks)[k := old(blocks)[k].(free := false)]
      ensures Distinct(old(blocks)) ==> ListLinked()
    {
      ghost var bs := blocks;
      assert HeaderAt(hdr, bs, k);
      hdr := hdr[curr := hdr[curr].(isFree := false)];
      blocks := blocks[k := blocks[k].(free := false)];
      if Distinct(bs) {
        forall j | 0 <= j < |blocks| ensures HeaderAt(hdr, blocks, j) {
          assert HeaderAt(old(hdr), bs, j);
        }
      }
    }

    /** Fills in the header of a block got from `sbrk` and hangs it at the end. */
    method Append(last: nat, newBlock: nat, n: nat)
      requires ListLinked() && newBlock >= HEAP_BASE
      requires last == if blocks == [] then 0 else blocks[|blocks| - 1].addr
      modifies this`hdr, this`blocks, this`userHeapHead
      ensures blocks == old(blocks) + [Block(newBlock, n, false)]
      ensures Distinct(blocks) ==> ListLinked()
      ensures newBlock in hdr && (newBlock == last ==> hdr[newBlock].next == newBlock)
    {
      ghost var bs := blocks;
      ghost var m := |bs|;
      if m > 0 { assert HeaderAt(hdr, bs, m - 1) && HeaderAt(hdr, bs, 0); }
      hdr := hdr[newBlock := Header(n, false, 0)];
      if userHeapHead == 0 {
        userHeapHead := newBlock;
      } else {
        hdr := hdr[last := hdr[last].(next := newBlock)];
      }
      blocks := bs + [Block(newBlock, n, false)];
      if Distinct(blocks) {
        assert blocks[m].addr == newBlock && (m > 0 ==> blocks[m - 1].addr == last != newBlock);
        forall j | 0 <= j < |blocks| ensures HeaderAt(hdr, blocks, j) {
          if j < m {
            assert HeaderAt(old(hdr), bs, j) && blocks[j].addr == bs[j].addr && blocks[m - 1].addr == last;
            assert blocks[j].addr != blocks[m].addr && (j < m - 1 ==> blocks[j].addr != blocks[m - 1].addr);
            assert NextAddr(blocks, j) == if j < m - 1 then NextAddr(bs, j) else newBlock;
          }
        }
      }
    }

    method Free(ptr: nat)
      requires Valid()
      requires ptr == 0 || exists k :: 0 <= k < |blocks| && ptr == blocks[k].addr + HEADER
      modifies this`hdr, this`blocks
      ensures Valid()
      ensures blocks == if ptr == 0 then old(blocks) else MarkFree(old(blocks), ptr)
    {
      hide Placed, HeapInv, Distinct;
      if ptr == 0 { return; }
      ghost var bs := blocks;
      ghost var k :| 0 <= k < |bs| && ptr == bs[k].addr + HEADER;
      var block := ptr - HEADER;
      assert HeaderAt(hdr, bs, k);
      PlacedDistinct(bs, spaces.vHeapEnd[task], 0);
      FreeLinked(hdr, bs, k);
      MarkPlaced(bs, spaces.vHeapEnd[task], ptr);
      hdr := hdr[block := hdr[block].(isFree := true)];
      blocks := MarkFree(bs, ptr);
    }
  }

  /** No two headers at one address. */
  ghost predicate Distinct(bs: seq<Block>) {
    forall i, j :: 0 <= i < j < |bs| ==> bs[i].addr != bs[j].addr
  }

  lemma PlacedDistinct(bs: seq<Block>, brk: nat, n: nat)
    requires Placed(bs, brk)
    ensures Distinct(bs) && Distinct(bs + [Block(brk, n, false)])
  {
    var t := bs + [Block(brk, n, false)];
    forall i, j | 0 <= i < j < |t| ensures t[i].addr != t[j].addr { assert BlockEnd(bs[i]) > bs[i].addr; }
  }

  lemma FreeLinked(hdr: map<nat, Header>, bs: seq<Block>, k: nat)
    requires Distinct(bs) && Linked(hdr, bs) && k < |bs|
    ensures bs[k].addr in hdr
    ensures Linked(hdr[bs[k].addr := hdr[bs[k].addr].(isFree := true)], MarkFree(bs, bs[k].addr + HEADER))
  {
    assert HeaderAt(hdr, bs, k);
    var h, t := hdr[bs[k].addr := hdr[bs[k].addr].(isFree := true)], MarkFree(bs, bs[k].addr + HEADER);
    forall j | 0 <= j < |t| ensures HeaderAt(h, t, j) {
      assert HeaderAt(hdr, bs, j);
    }
  }

  /** Where a walk along `next` stands after `steps` headers; it stops at null. */
  function Follow(hdr: map<nat, Header>, at: nat, steps: nat): nat
    decreases steps
  {
    if steps == 0 || at !in hdr then at else Follow(hdr, hdr[at].next, steps - 1)
  }

  /** A walk that comes to a block linked to itself never reaches the end of the list. */
  lemma {:induction false} SelfLinkNeverEnds(hdr: map<nat, Header>, block: nat, steps: nat)
    requires block in hdr && hdr[block].next == block
    ensures Follow(hdr, block, steps) == block
  {
    if steps > 0 { SelfLinkNeverEnds(hdr, block, steps - 1); }
  }
}
