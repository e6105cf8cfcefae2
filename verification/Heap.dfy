/** The kernel heap of src/memory.c: linked block headers changed in place. */
module KernelHeap {
  import opened HeapSpec
  import opened HeapProofs

  /** `struct block_header`; `next` is an address, 0 at the end of the list. */
  datatype Header = Header(size: nat, isFree: bool, next: nat)

  ghost function NextAddr(bs: seq<Block>, i: nat): nat
    requires i < |bs|
  {
    if i + 1 < |bs| then bs[i + 1].addr else 0
  }

  ghost predicate HeaderAt(hdr: map<nat, Header>, bs: seq<Block>, i: nat)
    requires i < |bs|
  {
    bs[i].addr in hdr && hdr[bs[i].addr] == Header(bs[i].size, bs[i].free, NextAddr(bs, i))
  }

  /** Following `next` through the headers spells out exactly the list `bs`. */
  ghost predicate Linked(hdr: map<nat, Header>, bs: seq<Block>) {
    forall i :: 0 <= i < |bs| ==> HeaderAt(hdr, bs, i)
  }

  class Heap {
    var hdr: map<nat, Header>     // headers by address; a merged-away header stays behind as junk
    var heapHead: nat
    var nextFitPtr: nat
    var totalUsed: nat
    ghost var state: State        // the value the fields stand for

    ghost predicate Valid()
      reads this
    {
      && Inv(state)
      && heapHead == HEAP_START
      && nextFitPtr == state.blocks[state.cursor].addr
      && totalUsed == state.used
      && Linked(hdr, state.blocks)
    }

    /** `init_heap` */
    constructor ()
      ensures Valid() && state == Init()
    {
      hdr := map[HEAP_START := Header(HEAP_SIZE - HEADER, true, 0)];
      heapHead := HEAP_START;
      nextFitPtr := HEAP_START;
      totalUsed := 0;
      state := Init();
    }

    method Malloc(size: nat) returns (ptr: nat)
      requires Valid() && size < WORD
      modifies this
      ensures Valid()
      ensures (state, ptr) == MallocSpec(old(state), size)
    {
      if size == 0 { return 0; }
      var n := Align4(size);
      var current, i := Search(n);
      if current == 0 { return 0; }
      NextFitIsCyclicFirst(state.blocks, state.cursor, n);
      Claim(i, n, current);
      ptr := current + HEADER;
    }

    /** The search loop of `malloc`: null when it has been round once without a fit. */
    method Search(n: nat) returns (current: nat, ghost i: nat)
      requires Valid()
      ensures i == NextFit(state.blocks, state.cursor, n)
      ensures i < |state.blocks| ==> current == state.blocks[i].addr && current != 0
      ensures i == |state.blocks| ==> current == 0
    {
      ghost var bs, start := state.blocks, state.cursor;
      current := nextFitPtr;
      var startSearch := current;
      var wrapped := false;
      i := start;
      InRange(bs, i);
      while current != 0
        invariant i < |bs| && current == bs[i].addr && current != 0
        invariant if wrapped then i < start && FirstFitFrom(bs, start, n) == |bs| else start <= i
        invariant FirstFitFrom(bs, if wrapped then 0 else start, n) == FirstFitFrom(bs, i, n)
        decreases !wrapped, |bs| - i
      {
        assert HeaderAt(hdr, bs, i);
        if hdr[current].isFree && hdr[current].size >= n { return; }
        current := hdr[current].next;
        i := i + 1;
        if i < |bs| { InRange(bs, i); }
        if current == 0 && !wrapped {
          current := heapHead;
          wrapped := true;
          i := 0;
        }
        if wrapped && current == startSearch {
          SameAddress(bs, i, start);
          break;
        }
        if i < start { Ascending(bs, i, start); }
      }
      NextFitIsCyclicFirst(bs, start, n);
      current := 0;
      i := |bs|;
    }

    /** The branch of `malloc` that takes the block it has found. */
    method Claim(ghost i: nat, n: nat, current: nat)
      requires Valid() && i < |state.blocks| && Fits(state.blocks[i], n) && n % 4 == 0
      requires current == state.blocks[i].addr
      modifies this
      ensures Valid()
      ensures state == Claimed(old(state), i, n)
    {
      assert HeaderAt(hdr, state.blocks, i);
      ghost var after := Claimed(state, i, n);
      ClaimFacts(hdr, state, i, n);
      if hdr[current].size > n + HEADER + 4 {
        var newBlock := current + HEADER + n;
        hdr := hdr[newBlock := Header(hdr[current].size - n - HEADER, true, hdr[current].next)];
        hdr := hdr[current := Header(n, hdr[current].isFree, newBlock)];
      }
      hdr := hdr[current := hdr[current].(isFree := false)];
      assert hdr == ClaimedHeaders(old(hdr), state.blocks, i, n);
      nextFitPtr := hdr[current].next;
      if nextFitPtr == 0 { nextFitPtr := heapHead; }
      totalUsed := (totalUsed + hdr[current].size) % WORD;
      state := after;
    }

    /** `free`; the pointer is null or was handed out and not freed since. */
    method Free(ptr: nat)
      requires Valid() && (ptr == 0 || Live(state.blocks, ptr))
      modifies this
      ensures Valid()
      ensures state == FreeSpec(old(state), ptr)
    {
      if ptr == 0 { return; }
      var block := ptr - HEADER;
      ghost var after := FreeSpec(state, ptr);
      FreeFacts(hdr, state, ptr);
      hdr := hdr[block := hdr[block].(isFree := true)];
      totalUsed := (totalUsed - hdr[block].size) % WORD;
      Coalesce(MarkFree(state.blocks, ptr));
      nextFitPtr := heapHead;
      state := after;
    }

    /** The merging loop of `free`, on headers that spell out `marked`. */
    method Coalesce(ghost marked: seq<Block>)
      requires Tiles(marked) && Linked(hdr, marked) && heapHead == HEAP_START
      modifies this`hdr
      ensures Linked(hdr, Merge(marked))
    {
      var current := heapHead;
      ghost var k: nat := 0;
      ghost var bs := marked;
      assert bs[..0] + Merge(bs[0..]) == Merge(marked) by { assert bs[0..] == bs; }
      assert HeaderAt(hdr, bs, 0);
      while current != 0 && hdr[current].next != 0
        invariant k < |bs| && current == bs[k].addr && Tiles(bs) && Linked(hdr, bs)
        invariant HeaderAt(hdr, bs, k)
        invariant bs[..k] + Merge(bs[k..]) == Merge(marked)
        decreases |bs| - k
      {
        assert k + 1 < |bs| && HeaderAt(hdr, bs, k + 1);
        var next := hdr[current].next;
        if hdr[current].isFree && hdr[next].isFree {
          JoinLinked(hdr, bs, k);
          InRange(bs, k);
          ghost var was := hdr;
          hdr := hdr[current := hdr[current].(size := hdr[current].size + (hdr[next].size + HEADER))];
          hdr := hdr[current := hdr[current].(next := hdr[next].next)];
          assert hdr == was[current := Header(bs[k].size + HEADER + bs[k + 1].size, true, NextAddr(bs, k + 1))];
          bs := JoinAt(bs, k);
        } else {
          MergeAdvance(bs, k);
          current := next;
          k := k + 1;
        }
        assert HeaderAt(hdr, bs, k);
      }
      InRange(bs, k);
      assert bs == bs[..k] + bs[k..];
    }
  }

  // ---------------------------------------------------------------- header updates

  ghost function ClaimedHeaders(hdr: map<nat, Header>, bs: seq<Block>, i: nat, n: nat): map<nat, Header>
    requires i < |bs| && Fits(bs[i], n)
  {
    var b := bs[i];
    if Splits(b, n)
    then hdr[b.addr + HEADER + n := Header(b.size - n - HEADER, true, NextAddr(bs, i))]
            [b.addr := Header(n, false, b.addr + HEADER + n)]
    else hdr[b.addr := Header(b.size, false, NextAddr(bs, i))]
  }

  lemma ClaimLinked(hdr: map<nat, Header>, bs: seq<Block>, i: nat, n: nat)
    requires Tiles(bs) && Linked(hdr, bs) && i < |bs| && Fits(bs[i], n)
    ensures Linked(ClaimedHeaders(hdr, bs, i, n), Take(bs, i, n))
  {
    var h, t := ClaimedHeaders(hdr, bs, i, n), Take(bs, i, n);
    forall k | 0 <= k < |t| ensures HeaderAt(h, t, k) {
      ClaimHeaderAt(hdr, bs, i, n, k);
    }
  }

  lemma TakeAt(bs: seq<Block>, i: nat, n: nat, k: nat)
    requires i < |bs| && Fits(bs[i], n) && k < |Take(bs, i, n)|
    ensures var t, cut := Take(bs, i, n), Cut(bs[i], n);
      && |t| == |bs| + |cut| - 1
      && t[k] == if k < i then bs[k] else if k < i + |cut| then cut[k - i] else bs[k - |cut| + 1]
  {
  }

  lemma ClaimHeaderAt(hdr: map<nat, Header>, bs: seq<Block>, i: nat, n: nat, k: nat)
    requires Tiles(bs) && Linked(hdr, bs) && i < |bs| && Fits(bs[i], n) && k < |Take(bs, i, n)|
    ensures HeaderAt(ClaimedHeaders(hdr, bs, i, n), Take(bs, i, n), k)
  {
    hide Take, Tiles;
    var t, cut := Take(bs, i, n), Cut(bs[i], n);
    var shift := |cut| - 1;
    TakeAt(bs, i, n, k);
    if k + 1 < |t| { TakeAt(bs, i, n, k + 1); }
    if k < i {
      assert HeaderAt(hdr, bs, k);
      Ascending(bs, k, i);
    } else if k >= i + |cut| {
      assert HeaderAt(hdr, bs, k - shift);
      Ascending(bs, i, k - shift);
    }
  }

  ghost function Claimed(s: State, i: nat, n: nat): State
    requires i < |s.blocks| && Fits(s.blocks[i], n)
  {
    var t := Take(s.blocks, i, n);
    TakeEnds(s.blocks, i, n);
    State(t, if i + 1 < |t| then i + 1 else 0, s.used + t[i].size)
  }

  lemma ClaimFacts(hdr: map<nat, Header>, s: State, i: nat, n: nat)
    requires Inv(s) && Linked(hdr, s.blocks) && i < |s.blocks| && Fits(s.blocks[i], n) && n % 4 == 0
    ensures var c, h, b := Claimed(s, i, n), ClaimedHeaders(hdr, s.blocks, i, n), s.blocks[i];
      && Inv(c) && Linked(h, c.blocks)
      && c.used == (s.used + h[b.addr].size) % WORD
      && c.blocks[c.cursor].addr == (if h[b.addr].next == 0 then HEAP_START else h[b.addr].next)
  {
    var t := Take(s.blocks, i, n);
    TakeKeepsLayout(s.blocks, i, n);
    TakeEnds(s.blocks, i, n);
    ClaimLinked(hdr, s.blocks, i, n);
    UsedBytesFits(t);
    assert HeaderAt(ClaimedHeaders(hdr, s.blocks, i, n), t, i);
    if i + 1 < |t| { InRange(t, i + 1); }
  }

  lemma MarkLinked(hdr: map<nat, Header>, bs: seq<Block>, i: nat)
    requires Tiles(bs) && Linked(hdr, bs) && i < |bs|
    ensures Linked(hdr[bs[i].addr := Header(bs[i].size, true, NextAddr(bs, i))], bs[i := bs[i].(free := true)])
  {
    var h, m := hdr[bs[i].addr := Header(bs[i].size, true, NextAddr(bs, i))], bs[i := bs[i].(free := true)];
    forall k | 0 <= k < |m| ensures HeaderAt(h, m, k) {
      assert HeaderAt(hdr, bs, k);
      if k != i && bs[k].addr == bs[i].addr { SameAddress(bs, i, k); }
    }
  }

  lemma FreeFacts(hdr: map<nat, Header>, s: State, ptr: nat)
    requires Inv(s) && Linked(hdr, s.blocks) && Live(s.blocks, ptr)
    ensures ptr - HEADER in hdr && hdr[ptr - HEADER].size == SizeAt(s.blocks, ptr)
    ensures Tiles(MarkFree(s.blocks, ptr)) && Inv(FreeSpec(s, ptr))
    ensures Linked(hdr[ptr - HEADER := hdr[ptr - HEADER].(isFree := true)], MarkFree(s.blocks, ptr))
    ensures FreeSpec(s, ptr).blocks[0].addr == HEAP_START
  {
    var i := LiveIndex(s.blocks, ptr);
    assert HeaderAt(hdr, s.blocks, i);
    SizeAtIs(s.blocks, i);
    MarkLinked(hdr, s.blocks, i);
    MarkFreeEffect(s.blocks, ptr);
    FreeKeepsInv(s, ptr);
  }

  lemma MergeAdvance(bs: seq<Block>, k: nat)
    requires k + 1 < |bs| && !(bs[k].free && bs[k + 1].free)
    ensures bs[..k] + Merge(bs[k..]) == bs[..k + 1] + Merge(bs[k + 1..])
  {
    assert bs[k..][1..] == bs[k + 1..];
    assert bs[..k] + [bs[k]] == bs[..k + 1];
  }

  ghost function JoinAt(bs: seq<Block>, k: nat): seq<Block>
    requires k + 1 < |bs|
  {
    bs[..k] + [Join(bs[k], bs[k + 1])] + bs[k + 2..]
  }

  lemma JoinLinked(hdr: map<nat, Header>, bs: seq<Block>, k: nat)
    requires Tiles(bs) && Linked(hdr, bs) && k + 1 < |bs| && bs[k].free && bs[k + 1].free
    ensures var t := JoinAt(bs, k);
      && Tiles(t)
      && t[..k] + Merge(t[k..]) == bs[..k] + Merge(bs[k..])
      && Linked(hdr[bs[k].addr := Header(bs[k].size + HEADER + bs[k + 1].size, true, NextAddr(bs, k + 1))], t)
  {
    var t := JoinAt(bs, k);
    var h := hdr[bs[k].addr := Header(bs[k].size + HEADER + bs[k + 1].size, true, NextAddr(bs, k + 1))];
    JoinTiles(bs, k);
    forall j | 0 <= j < |t| ensures HeaderAt(h, t, j) {
      JoinHeaderAt(hdr, bs, k, j);
    }
  }

  lemma JoinTiles(bs: seq<Block>, k: nat)
    requires Tiles(bs) && k + 1 < |bs| && bs[k].free && bs[k + 1].free
    ensures var t := JoinAt(bs, k);
      Tiles(t) && t[..k] + Merge(t[k..]) == bs[..k] + Merge(bs[k..])
  {
    var t := JoinAt(bs, k);
    assert t[k..] == [Join(bs[k..][0], bs[k..][1])] + bs[k..][2..];
    assert t[..k] == bs[..k];
  }

  lemma JoinHeaderAt(hdr: map<nat, Header>, bs: seq<Block>, k: nat, j: nat)
    requires Tiles(bs) && Linked(hdr, bs) && k + 1 < |bs| && j < |bs| - 1 && bs[k].free
    ensures HeaderAt(hdr[bs[k].addr := Header(bs[k].size + HEADER + bs[k + 1].size, true, NextAddr(bs, k + 1))],
        JoinAt(bs, k), j)
  {
    hide Tiles;
    if j < k { assert HeaderAt(hdr, bs, j); Ascending(bs, j, k); }
    if j == k { assert HeaderAt(hdr, bs, k + 1); }
    if j > k { assert HeaderAt(hdr, bs, j + 1); Ascending(bs, k, j + 1); }
  }
}
