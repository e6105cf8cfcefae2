/** What one call, and every run of calls, keeps of the kernel heap. */
module HeapProofs {
  import opened HeapSpec

  // ---------------------------------------------------------------- concatenation

  lemma AbutConcat(a: seq<Block>, b: seq<Block>)
    ensures Abut(a + b) <==>
      Abut(a) && Abut(b) && (a != [] && b != [] ==> b[0].addr == BlockEnd(a[|a| - 1]))
  {
    var c := a + b;
    if Abut(c) {
      forall i, j | 0 <= i < j < |b| && j == i + 1 ensures b[j].addr == BlockEnd(b[i]) {
        assert c[|a| + i] == b[i] && c[|a| + j] == b[j];
      }
      forall i, j | 0 <= i < j < |a| && j == i + 1 ensures a[j].addr == BlockEnd(a[i]) {
        assert c[i] == a[i] && c[j] == a[j];
      }
      if a != [] && b != [] { assert c[|a| - 1] == a[|a| - 1] && c[|a|] == b[0]; }
    }
  }

  lemma CoalescedConcat(a: seq<Block>, b: seq<Block>)
    ensures Coalesced(a + b) <==>
      Coalesced(a) && Coalesced(b) && !(a != [] && b != [] && a[|a| - 1].free && b[0].free)
  {
    var c := a + b;
    if Coalesced(c) {
      forall i, j | 0 <= i < j < |b| && j == i + 1 ensures !(b[i].free && b[j].free) {
        assert c[|a| + i] == b[i] && c[|a| + j] == b[j];
      }
      forall i, j | 0 <= i < j < |a| && j == i + 1 ensures !(a[i].free && a[j].free) {
        assert c[i] == a[i] && c[j] == a[j];
      }
      if a != [] && b != [] { assert c[|a| - 1] == a[|a| - 1] && c[|a|] == b[0]; }
    }
  }

  lemma {:induction false} UsedBytesConcat(a: seq<Block>, b: seq<Block>)
    ensures UsedBytes(a + b) == UsedBytes(a) + UsedBytes(b)
  {
    if a == [] {
      assert a + b == b;
    } else {
      assert (a + b)[1..] == a[1..] + b;
      UsedBytesConcat(a[1..], b);
    }
  }

  lemma AllocatedConcat(a: seq<Block>, b: seq<Block>)
    ensures Allocated(a + b) == Allocated(a) + Allocated(b)
  {
    var c := a + b;
    forall p | p in Allocated(c) ensures p in Allocated(a) + Allocated(b) {
      var i := AllocatedAt(c, p);
      assert c[i] == if i < |a| then a[i] else b[i - |a|];
    }
    forall p | p in Allocated(a) ensures p in Allocated(c) {
      var i := AllocatedAt(a, p);
      assert c[i] == a[i];
    }
    forall p | p in Allocated(b) ensures p in Allocated(c) {
      var i := AllocatedAt(b, p);
      assert c[|a| + i] == b[i];
    }
  }

  lemma AllocatedAt(bs: seq<Block>, p: (nat, nat)) returns (i: nat)
    requires p in Allocated(bs)
    ensures i < |bs| && !bs[i].free && p == (bs[i].addr, bs[i].size)
  {
    i :| 0 <= i < |bs| && !bs[i].free && p == (bs[i].addr, bs[i].size);
  }

  // ---------------------------------------------------------------- the list as an address map

  lemma {:induction false} Ascending(bs: seq<Block>, i: nat, j: nat)
    requires Tiles(bs) && i < j < |bs|
    ensures BlockEnd(bs[i]) <= bs[j].addr
    decreases j
  {
    if i + 1 < j {
      Ascending(bs, i, j - 1);
    }
  }

  lemma InRange(bs: seq<Block>, i: nat)
    requires Tiles(bs) && i < |bs|
    ensures HEAP_START <= bs[i].addr && BlockEnd(bs[i]) <= HEAP_END
  {
    if i > 0 { Ascending(bs, 0, i); }
    if i < |bs| - 1 { Ascending(bs, i, |bs| - 1); }
  }

  lemma SameAddress(bs: seq<Block>, i: nat, j: nat)
    requires Tiles(bs) && i < |bs| && j < |bs| && bs[i].addr == bs[j].addr
    ensures i == j
  {
    if i < j { Ascending(bs, i, j); }
    if j < i { Ascending(bs, j, i); }
  }

  /** Two different live pointers never share a byte, and all bytes are in the heap. */
  lemma PayloadsDisjoint(bs: seq<Block>, i: nat, j: nat, x: nat)
    requires Tiles(bs) && i < |bs| && j < |bs|
    requires bs[i].addr + HEADER <= x < BlockEnd(bs[i])
    ensures HEAP_START <= x < HEAP_END
    ensures bs[j].addr <= x < BlockEnd(bs[j]) ==> i == j
  {
    InRange(bs, i);
    if i < j { Ascending(bs, i, j); }
    if j < i { Ascending(bs, j, i); }
  }

  lemma {:induction false} UsedBytesBound(bs: seq<Block>, from: nat)
    requires Tiles(bs) && from < |bs|
    ensures UsedBytes(bs[from..]) <= HEAP_END - bs[from].addr
    decreases |bs| - from
  {
    assert bs[from..][1..] == bs[from + 1..];
    if from + 1 < |bs| {
      UsedBytesBound(bs, from + 1);
    }
  }

  lemma UsedBytesFits(bs: seq<Block>)
    requires Tiles(bs)
    ensures UsedBytes(bs) <= HEAP_SIZE
  {
    UsedBytesBound(bs, 0);
    assert bs[0..] == bs;
  }

  // ---------------------------------------------------------------- malloc

  /** The search is complete, and takes the first fit in cyclic order. */
  lemma NextFitIsCyclicFirst(bs: seq<Block>, cursor: nat, n: nat)
    requires cursor < |bs|
    ensures var i := NextFit(bs, cursor, n);
      && (i == |bs| <==> forall k :: 0 <= k < |bs| ==> !Fits(bs[k], n))
      && (i < |bs| ==> Fits(bs[i], n))
      && (cursor <= i < |bs| ==> forall k :: cursor <= k < i ==> !Fits(bs[k], n))
      && (i < cursor ==> forall k :: 0 <= k < i || cursor <= k < |bs| ==> !Fits(bs[k], n))
  {
    var j := FirstFitFrom(bs, cursor, n);
    if j == |bs| {
      var z := FirstFitFrom(bs, 0, n);
    }
  }

  /** malloc answers null exactly for size 0 or when no free block is large enough,
      and what it hands out is a block it just allocated. */
  lemma MallocComplete(s: State, size: nat)
    requires Inv(s) && size < WORD
    ensures var (t, ptr) := MallocSpec(s, size);
      && (ptr == 0 <==> size == 0 || forall k :: 0 <= k < |s.blocks| ==> !Fits(s.blocks[k], Align4(size)))
      && (ptr == 0 ==> t == s)
      && (ptr != 0 ==> Live(t.blocks, ptr))
  {
    var n := Align4(size);
    var i := NextFit(s.blocks, s.cursor, n);
    NextFitIsCyclicFirst(s.blocks, s.cursor, n);
    if size != 0 && i < |s.blocks| {
      var t := Take(s.blocks, i, n);
      assert t[i] == Cut(s.blocks[i], n)[0];
    }
  }

  lemma CutUsed(b: Block, n: nat)
    requires Fits(b, n)
    ensures UsedBytes(Cut(b, n)) == Cut(b, n)[0].size
  {
    var cut := Cut(b, n);
    if Splits(b, n) {
      assert cut[1..] == [cut[1]];
      assert UsedBytes([cut[1]]) == 0;
    } else {
      assert cut[1..] == [];
    }
  }

  /** Replacing one free block by the pieces malloc cuts it into. */
  lemma ReplaceByCut(pre: seq<Block>, b: Block, post: seq<Block>, n: nat)
    requires Fits(b, n) && Abut(pre + [b] + post) && Coalesced(pre + [b] + post)
    ensures Abut(pre + Cut(b, n) + post) && Coalesced(pre + Cut(b, n) + post)
  {
    var cut := Cut(b, n);
    AbutConcat(pre + [b], post); AbutConcat(pre, [b]);
    CoalescedConcat(pre + [b], post); CoalescedConcat(pre, [b]);
    AbutConcat(pre, cut); CoalescedConcat(pre, cut);
    assert (pre + cut)[|pre + cut| - 1] == cut[|cut| - 1];
    AbutConcat(pre + cut, post); CoalescedConcat(pre + cut, post);
  }

  lemma CutCounts(pre: seq<Block>, b: Block, post: seq<Block>, n: nat)
    requires Fits(b, n)
    ensures var r := pre + Cut(b, n) + post;
      && UsedBytes(r) == UsedBytes(pre + [b] + post) + Cut(b, n)[0].size
      && Allocated(r) == Allocated(pre + [b] + post) + {(b.addr, Cut(b, n)[0].size)}
  {
    var cut := Cut(b, n);
    UsedBytesConcat(pre + [b], post); UsedBytesConcat(pre, [b]);
    AllocatedConcat(pre + [b], post); AllocatedConcat(pre, [b]);
    UsedBytesConcat(pre, cut); UsedBytesConcat(pre + cut, post);
    AllocatedConcat(pre, cut); AllocatedConcat(pre + cut, post);
    CutUsed(b, n);
    assert Allocated(cut) == {(b.addr, cut[0].size)} by {
      assert cut[0] in cut && (cut[0].addr, cut[0].size) in Allocated(cut);
    }
    assert Allocated([b]) == {};
  }

  lemma TakeKeepsLayout(bs: seq<Block>, i: nat, n: nat)
    requires Tiles(bs) && WordSized(bs) && Coalesced(bs) && i < |bs| && Fits(bs[i], n) && n % 4 == 0
    ensures var t := Take(bs, i, n);
      && Tiles(t) && WordSized(t) && Coalesced(t)
      && i < |t| && !t[i].free && t[i].addr == bs[i].addr && t[i].size >= n
      && UsedBytes(t) == UsedBytes(bs) + t[i].size
      && Allocated(t) == Allocated(bs) + {(bs[i].addr, t[i].size)}
      && (Positive(bs) && n > 0 ==> Positive(t))
  {
    assert bs == bs[..i] + [bs[i]] + bs[i + 1..];
    ReplaceByCut(bs[..i], bs[i], bs[i + 1..], n);
    CutCounts(bs[..i], bs[i], bs[i + 1..], n);
    TakeSizes(bs, i, n);
    TakeEnds(bs, i, n);
  }

  lemma TakeSizes(bs: seq<Block>, i: nat, n: nat)
    requires WordSized(bs) && i < |bs| && Fits(bs[i], n) && n % 4 == 0
    ensures WordSized(Take(bs, i, n))
    ensures Positive(bs) && n > 0 ==> Positive(Take(bs, i, n))
  {
    var t := Take(bs, i, n);
    var cut := Cut(bs[i], n);
    forall k | 0 <= k < |t| ensures t[k].size % 4 == 0 && (Positive(bs) && n > 0 ==> t[k].size > 0) {
      if k < i { assert t[k] == bs[k]; }
      else if k < i + |cut| { assert t[k] == cut[k - i]; }
      else { assert t[k] == bs[k - |cut| + 1]; }
    }
  }

  lemma TakeEnds(bs: seq<Block>, i: nat, n: nat)
    requires i < |bs| && Fits(bs[i], n)
    ensures var t := Take(bs, i, n);
      && i < |t| && t[i] == Cut(bs[i], n)[0]
      && t[0].addr == bs[0].addr && BlockEnd(t[|t| - 1]) == BlockEnd(bs[|bs| - 1])
  {
    var t := Take(bs, i, n);
    var cut := Cut(bs[i], n);
    assert t[i] == cut[0];
    if i > 0 { assert t[0] == bs[0]; }
    if i + 1 < |bs| { assert t[|t| - 1] == bs[|bs| - 1]; } else { assert t[|t| - 1] == cut[|cut| - 1]; }
  }

  /** Every malloc keeps the heap invariant, whatever 32-bit size is asked for. */
  lemma MallocKeepsInv(s: State, size: nat)
    requires Inv(s) && size < WORD
    ensures Inv(MallocSpec(s, size).0)
    ensures Positive(s.blocks) && size < WORD - 3 ==> Positive(MallocSpec(s, size).0.blocks)
  {
    var n := Align4(size);
    var i := NextFit(s.blocks, s.cursor, n);
    NextFitIsCyclicFirst(s.blocks, s.cursor, n);
    if size != 0 && i < |s.blocks| {
      TakeKeepsLayout(s.blocks, i, n);
    }
  }

  /** The block handed out is at least as big as the request exactly when rounding
      the request up to 4 does not wrap. */
  lemma MallocBigEnoughIff(s: State, size: nat)
    requires Inv(s) && 0 < size < WORD && MallocSpec(s, size).1 != 0
    ensures SizeAt(MallocSpec(s, size).0.blocks, MallocSpec(s, size).1) >= size <==> size < WORD - 3
  {
    var n := Align4(size);
    var i := NextFit(s.blocks, s.cursor, n);
    NextFitIsCyclicFirst(s.blocks, s.cursor, n);
    TakeKeepsLayout(s.blocks, i, n);
    var t := Take(s.blocks, i, n);
    SizeAtIs(t, i);
    UsedBytesFits(t);
    InRange(t, i);
  }

  /** A concrete wrapped request: the fresh heap answers it with an empty block. */
  lemma WrappedRequestExample()
    ensures MallocSpec(Init(), WORD - 1) ==
      (State([Block(HEAP_START, 0, false), Block(HEAP_START + HEADER, HEAP_SIZE - 2 * HEADER, true)], 1, 0),
       HEAP_START + HEADER)
  {
    var b := Init().blocks;
    assert FirstFitFrom(b, 0, 0) == 0;
    assert Take(b, 0, 0) == Cut(b[0], 0);
  }

  lemma {:induction false} SizeAtIs(bs: seq<Block>, i: nat)
    requires Tiles(bs) && i < |bs|
    ensures SizeAt(bs, bs[i].addr + HEADER) == bs[i].size
  {
    SizeAtFrom(bs, 0, i);
    assert bs[0..] == bs;
  }

  lemma {:induction false} SizeAtFrom(bs: seq<Block>, from: nat, i: nat)
    requires Tiles(bs) && from <= i < |bs|
    ensures SizeAt(bs[from..], bs[i].addr + HEADER) == bs[i].size
    decreases i - from
  {
    if from < i {
      Ascending(bs, from, i);
      assert bs[from..][1..] == bs[from + 1..];
      SizeAtFrom(bs, from + 1, i);
    }
  }

  // ---------------------------------------------------------------- free

  /** Merging keeps the tiling: same start, same end, no gap. */
  lemma {:induction false} MergeAbuts(bs: seq<Block>)
    requires |bs| > 0 && Abut(bs)
    ensures var m := Merge(bs);
      && |m| > 0 && m[0].addr == bs[0].addr && Abut(m)
      && BlockEnd(m[|m| - 1]) == BlockEnd(bs[|bs| - 1])
    decreases |bs|
  {
    hide Abut;
    if |bs| < 2 {
    } else if bs[0].free && bs[1].free {
      JoinFront(bs);
      MergeAbuts([Join(bs[0], bs[1])] + bs[2..]);
    } else {
      DropFront(bs);
      MergeAbuts(bs[1..]);
      PushFront(bs, Merge(bs[1..]));
    }
  }

  lemma JoinFront(bs: seq<Block>)
    requires |bs| >= 2 && Abut(bs)
    ensures var r := [Join(bs[0], bs[1])] + bs[2..];
      Abut(r) && BlockEnd(r[|r| - 1]) == BlockEnd(bs[|bs| - 1])
  {
    var r := [Join(bs[0], bs[1])] + bs[2..];
    forall i, j | 0 <= i < j < |r| && j == i + 1 ensures r[j].addr == BlockEnd(r[i]) {
      assert bs[j + 1].addr == BlockEnd(bs[i + 1]);
      assert bs[1].addr == BlockEnd(bs[0]);
    }
    assert bs[1].addr == BlockEnd(bs[0]);
  }

  lemma DropFront(bs: seq<Block>)
    requires |bs| >= 2 && Abut(bs)
    ensures Abut(bs[1..]) && bs[1].addr == BlockEnd(bs[0])
  {
  }

  lemma PushFront(bs: seq<Block>, m: seq<Block>)
    requires |bs| >= 2 && |m| > 0 && Abut(m) && m[0].addr == bs[1].addr == BlockEnd(bs[0])
    ensures Abut([bs[0]] + m)
  {
  }

  /** After merging no two neighbours are free. */
  lemma {:induction false} MergeCoalesces(bs: seq<Block>)
    ensures Coalesced(Merge(bs))
    ensures bs != [] ==> Merge(bs) != [] && Merge(bs)[0].free == bs[0].free
    decreases |bs|
  {
    if |bs| < 2 {
    } else if bs[0].free && bs[1].free {
      MergeCoalesces([Join(bs[0], bs[1])] + bs[2..]);
    } else {
      MergeCoalesces(bs[1..]);
      CoalescedConcat([bs[0]], Merge(bs[1..]));
    }
  }

  /** Merging touches free blocks only. */
  lemma {:induction false} MergeKeepsAllocated(bs: seq<Block>)
    ensures UsedBytes(Merge(bs)) == UsedBytes(bs) && Allocated(Merge(bs)) == Allocated(bs)
    decreases |bs|
  {
    if |bs| < 2 {
    } else if bs[0].free && bs[1].free {
      var two, one, rest := [bs[0], bs[1]], [Join(bs[0], bs[1])], bs[2..];
      assert bs == two + rest;
      UsedBytesConcat(two, rest); UsedBytesConcat(one, rest);
      AllocatedConcat(two, rest); AllocatedConcat(one, rest);
      assert UsedBytes(two) == 0 == UsedBytes(one) by { assert two[1..] == [bs[1]]; }
      assert Allocated(two) == {} == Allocated(one);
      MergeKeepsAllocated(one + rest);
    } else {
      var one, rest := [bs[0]], bs[1..];
      assert bs == one + rest;
      UsedBytesConcat(one, rest); UsedBytesConcat(one, Merge(rest));
      AllocatedConcat(one, rest); AllocatedConcat(one, Merge(rest));
      MergeKeepsAllocated(rest);
    }
  }

  lemma {:induction false} MergeKeepsWordSized(bs: seq<Block>)
    requires WordSized(bs)
    ensures WordSized(Merge(bs))
    decreases |bs|
  {
    if |bs| >= 2 {
      if bs[0].free && bs[1].free {
        assert Join(bs[0], bs[1]).size % 4 == 0;
        MergeKeepsWordSized([Join(bs[0], bs[1])] + bs[2..]);
      } else {
        MergeKeepsWordSized(bs[1..]);
      }
    }
  }

  lemma {:induction false} MergeKeepsPositive(bs: seq<Block>)
    requires Positive(bs)
    ensures Positive(Merge(bs))
    decreases |bs|
  {
    if |bs| >= 2 {
      if bs[0].free && bs[1].free {
        MergeKeepsPositive([Join(bs[0], bs[1])] + bs[2..]);
      } else {
        MergeKeepsPositive(bs[1..]);
      }
    }
  }

  lemma LiveIndex(bs: seq<Block>, ptr: nat) returns (i: nat)
    requires Tiles(bs) && Live(bs, ptr)
    ensures i < |bs| && !bs[i].free && ptr == bs[i].addr + HEADER
    ensures forall j :: 0 <= j < |bs| && bs[j].addr + HEADER == ptr ==> j == i
    ensures MarkFree(bs, ptr) == bs[i := bs[i].(free := true)]
  {
    i :| 0 <= i < |bs| && !bs[i].free && ptr == bs[i].addr + HEADER;
    forall j | 0 <= j < |bs| && bs[j].addr + HEADER == ptr ensures j == i { SameAddress(bs, i, j); }
  }

  lemma TilesAbut(bs: seq<Block>)
    requires Tiles(bs)
    ensures Abut(bs)
  {
  }

  lemma MarkFreeUsed(bs: seq<Block>, m: seq<Block>, i: nat)
    requires i < |bs| == |m| && !bs[i].free && m[i].free && m == bs[i := m[i]]
    ensures UsedBytes(m) == UsedBytes(bs) - bs[i].size
  {
    assert bs == bs[..i] + [bs[i]] + bs[i + 1..];
    assert m == bs[..i] + [m[i]] + bs[i + 1..];
    UsedBytesConcat(bs[..i] + [bs[i]], bs[i + 1..]);
    UsedBytesConcat(bs[..i], [bs[i]]);
    UsedBytesConcat(bs[..i] + [m[i]], bs[i + 1..]);
    UsedBytesConcat(bs[..i], [m[i]]);
  }

  lemma MarkFreeEffect(bs: seq<Block>, ptr: nat)
    requires Tiles(bs) && Live(bs, ptr)
    ensures var m := MarkFree(bs, ptr);
      && Abut(m)
      && UsedBytes(m) == UsedBytes(bs) - SizeAt(bs, ptr)
      && Allocated(m) == Allocated(bs) - {(ptr - HEADER, SizeAt(bs, ptr))}
  {
    hide Tiles, UsedBytes, SizeAt;
    var i := LiveIndex(bs, ptr);
    SizeAtIs(bs, i);
    var m := MarkFree(bs, ptr);
    MarkFreeUsed(bs, m, i);
    TilesAbut(bs);
    forall p | p in Allocated(bs) && p != (bs[i].addr, bs[i].size) ensures p in Allocated(m) {
      var k :| 0 <= k < |bs| && !bs[k].free && p == (bs[k].addr, bs[k].size);
      assert m[k] == bs[k];
    }
    forall p | p in Allocated(m) ensures p in Allocated(bs) && p != (bs[i].addr, bs[i].size) {
      var k :| 0 <= k < |m| && !m[k].free && p == (m[k].addr, m[k].size);
      assert m[k] == bs[k];
    }
  }

  /** Every free of a live pointer keeps the heap invariant and releases that block only. */
  lemma FreeKeepsInv(s: State, ptr: nat)
    requires Inv(s) && Live(s.blocks, ptr)
    ensures Inv(FreeSpec(s, ptr))
    ensures Positive(s.blocks) ==> Positive(FreeSpec(s, ptr).blocks)
    ensures FreeSpec(s, ptr).used == s.used - SizeAt(s.blocks, ptr)
    ensures Allocated(FreeSpec(s, ptr).blocks) == Allocated(s.blocks) - {(ptr - HEADER, SizeAt(s.blocks, ptr))}
  {
    hide Merge, UsedBytes, Allocated, SizeAt, Abut, Coalesced;
    MarkFreeEffect(s.blocks, ptr);
    var m := MarkFree(s.blocks, ptr);
    var i := LiveIndex(s.blocks, ptr);
    MergeAbuts(m);
    MergeCoalesces(m);
    MergeKeepsAllocated(m);
    MergeKeepsWordSized(m);
    if Positive(s.blocks) { MergeKeepsPositive(m); }
    UsedBytesFits(s.blocks);
  }

  /** malloc adds exactly the block it hands out to the allocated set. */
  lemma MallocAllocated(s: State, size: nat)
    requires Inv(s) && size < WORD && MallocSpec(s, size).1 != 0
    ensures var (t, ptr) := MallocSpec(s, size);
      && ptr >= HEADER
      && Allocated(t.blocks) == Allocated(s.blocks) + {(ptr - HEADER, SizeAt(t.blocks, ptr))}
      && (forall p :: p in Allocated(s.blocks) ==> p.0 != ptr - HEADER)
      && (size < WORD - 3 ==> SizeAt(t.blocks, ptr) >= size)
  {
    var n := Align4(size);
    var i := NextFit(s.blocks, s.cursor, n);
    NextFitIsCyclicFirst(s.blocks, s.cursor, n);
    TakeKeepsLayout(s.blocks, i, n);
    SizeAtIs(Take(s.blocks, i, n), i);
    forall p | p in Allocated(s.blocks) ensures p.0 != s.blocks[i].addr {
      var k := AllocatedAt(s.blocks, p);
      if p.0 == s.blocks[i].addr { SameAddress(s.blocks, i, k); }
    }
  }

  // ---------------------------------------------------------------- free undoes malloc

  lemma {:induction false} MergeCoalesced(bs: seq<Block>)
    requires Coalesced(bs)
    ensures Merge(bs) == bs
  {
    if |bs| >= 2 {
      MergeCoalesced(bs[1..]);
    }
  }

  /** A split block, freed again at any place in a coalesced list, merges back. */
  lemma {:induction false} MergeSplit(pre: seq<Block>, a: Block, b: Block, post: seq<Block>)
    requires a.free && b.free && Coalesced(pre + [Join(a, b)] + post)
    ensures Merge(pre + [a, b] + post) == pre + [Join(a, b)] + post
    decreases |pre|
  {
    if pre == [] {
      assert [Join(a, b)] + (pre + [a, b] + post)[2..] == pre + [Join(a, b)] + post;
      MergeCoalesced(pre + [Join(a, b)] + post);
    } else {
      MergeSplitStep(pre, a, b, post);
      MergeSplit(pre[1..], a, b, post);
    }
  }

  lemma MergeSplitStep(pre: seq<Block>, a: Block, b: Block, post: seq<Block>)
    requires pre != [] && a.free && b.free && Coalesced(pre + [Join(a, b)] + post)
    ensures Coalesced(pre[1..] + [Join(a, b)] + post)
    ensures Merge(pre + [a, b] + post) == [pre[0]] + Merge(pre[1..] + [a, b] + post)
    ensures pre + [Join(a, b)] + post == [pre[0]] + (pre[1..] + [Join(a, b)] + post)
  {
    var apart, rest := pre + [a, b] + post, pre[1..] + [Join(a, b)] + post;
    assert pre + [Join(a, b)] + post == [pre[0]] + rest;
    CoalescedConcat([pre[0]], rest);
    assert apart[1..] == pre[1..] + [a, b] + post;
    assert apart[1].free == rest[0].free;
  }

  lemma MarkTaken(bs: seq<Block>, i: nat, n: nat)
    requires Tiles(bs) && i < |bs| && Fits(bs[i], n) && Tiles(Take(bs, i, n))
    ensures var cut := Cut(bs[i], n);
      MarkFree(Take(bs, i, n), bs[i].addr + HEADER) == bs[..i] + [cut[0].(free := true)] + cut[1..] + bs[i + 1..]
  {
    TakeEnds(bs, i, n);
    var t := Take(bs, i, n);
    assert Live(t, t[i].addr + HEADER);
    var k := LiveIndex(t, t[i].addr + HEADER);
  }

  lemma TakeUndone(bs: seq<Block>, i: nat, n: nat)
    requires Tiles(bs) && Coalesced(bs) && i < |bs| && Fits(bs[i], n) && Tiles(Take(bs, i, n))
    ensures Merge(MarkFree(Take(bs, i, n), bs[i].addr + HEADER)) == bs
  {
    MarkTaken(bs, i, n);
    var pre, post, cut := bs[..i], bs[i + 1..], Cut(bs[i], n);
    var marked := cut[0].(free := true);
    assert bs == pre + [bs[i]] + post;
    if Splits(bs[i], n) {
      assert Join(marked, cut[1]) == bs[i];
      assert [marked] + cut[1..] == [marked, cut[1]];
      assert pre + [marked] + cut[1..] + post == pre + [marked, cut[1]] + post;
      MergeSplit(pre, marked, cut[1], post);
    } else {
      assert pre + [marked] + cut[1..] + post == bs;
      MergeCoalesced(bs);
    }
  }

  /** Freeing a fresh allocation at once restores the block list and the running total. */
  lemma FreeUndoesMalloc(s: State, size: nat)
    requires Inv(s) && size < WORD && MallocSpec(s, size).1 != 0
    ensures var r := MallocSpec(s, size);
      FreeSpec(r.0, r.1).blocks == s.blocks && FreeSpec(r.0, r.1).used == s.used
  {
    hide Merge, SizeAt, UsedBytes, Coalesced, WordSized;
    var n := Align4(size);
    var i := NextFit(s.blocks, s.cursor, n);
    NextFitIsCyclicFirst(s.blocks, s.cursor, n);
    var t := Take(s.blocks, i, n);
    var ptr := s.blocks[i].addr + HEADER;
    assert Tiles(t) && t[i].addr == s.blocks[i].addr by { TakeKeepsLayout(s.blocks, i, n); }
    assert Merge(MarkFree(t, ptr)) == s.blocks by { TakeUndone(s.blocks, i, n); }
    assert SizeAt(t, ptr) == t[i].size by { SizeAtIs(t, i); }
    assert s.used <= HEAP_SIZE by { UsedBytesFits(s.blocks); }
    assert MallocSpec(s, size).0.blocks == t && MallocSpec(s, size).1 == ptr;
  }

  // ---------------------------------------------------------------- canonical form

  /** Where two coalesced lists agree so far and the left one has an allocated
      block next, the right one has the same block next. */
  lemma NextAllocatedAgrees(a: seq<Block>, b: seq<Block>, k: nat)
    requires Tiles(a) && Tiles(b) && Allocated(a) <= Allocated(b)
    requires k < |a| && k < |b| && a[k].addr == b[k].addr && !a[k].free
    ensures a[k] == b[k]
  {
    assert (a[k].addr, a[k].size) in Allocated(a);
    var j := AllocatedAt(b, (a[k].addr, a[k].size));
    SameAddress(b, j, k);
  }

  /** A free block of one list cannot end before the matching one of the other. */
  lemma FreeNotShorter(a: seq<Block>, b: seq<Block>, k: nat)
    requires Tiles(a) && Tiles(b) && Coalesced(a) && Allocated(a) <= Allocated(b)
    requires k < |a| && k < |b| && a[k].addr == b[k].addr && a[k].free && b[k].free
    ensures a[k].size >= b[k].size
  {
    if a[k].size < b[k].size {
      InRange(b, k);
      assert k + 1 < |a|;
      var next := a[k + 1];
      assert (a[k + 1].addr, a[k + 1].size) in Allocated(a);
      var j := AllocatedAt(b, (a[k + 1].addr, a[k + 1].size));
      if k < j { Ascending(b, k, j); }
      if j < k { Ascending(b, j, k); }
      assert false;
    }
  }

  lemma {:induction false} CanonicalPrefix(a: seq<Block>, b: seq<Block>, k: nat)
    requires Tiles(a) && Tiles(b) && Coalesced(a) && Coalesced(b) && Allocated(a) == Allocated(b)
    requires k <= |a|
    ensures k <= |b| && a[..k] == b[..k]
  {
    if k > 0 {
      CanonicalPrefix(a, b, k - 1);
      if k - 1 > 0 {
        assert a[k - 2] == a[..k - 1][k - 2] == b[..k - 1][k - 2] == b[k - 2];
        InRange(a, k - 1);
        assert k - 1 < |b|;
      }
      assert a[k - 1].addr == b[k - 1].addr;
      if !a[k - 1].free {
        NextAllocatedAgrees(a, b, k - 1);
      } else if !b[k - 1].free {
        NextAllocatedAgrees(b, a, k - 1);
      } else {
        FreeNotShorter(a, b, k - 1);
        FreeNotShorter(b, a, k - 1);
      }
      assert a[..k] == a[..k - 1] + [a[k - 1]];
      assert b[..k] == b[..k - 1] + [b[k - 1]];
    }
  }

  /** The allocated blocks determine the whole list. */
  lemma Canonical(a: seq<Block>, b: seq<Block>)
    requires Tiles(a) && Tiles(b) && Coalesced(a) && Coalesced(b) && Allocated(a) == Allocated(b)
    ensures a == b
  {
    CanonicalPrefix(a, b, |a|);
    CanonicalPrefix(b, a, |b|);
    assert a[..|a|] == a && b[..|b|] == b;
  }

  // ---------------------------------------------------------------- every run

  datatype Op = Malloc(size: nat) | Free(ptr: nat)

  /** Callers only free what is still allocated (or null). */
  ghost predicate Allowed(s: State, op: Op) {
    match op
    case Malloc(size) => size < WORD
    case Free(ptr) => ptr == 0 || Live(s.blocks, ptr)
  }

  ghost function Step(s: State, op: Op): State
    requires s.cursor < |s.blocks|
  {
    if !Allowed(s, op) then s else
    match op
    case Malloc(size) => MallocSpec(s, size).0
    case Free(ptr) => FreeSpec(s, ptr)
  }

  lemma StepKeepsInv(s: State, op: Op)
    requires Inv(s)
    ensures Inv(Step(s, op))
    ensures Positive(s.blocks) && (op.Malloc? ==> op.size < WORD - 3) ==> Positive(Step(s, op).blocks)
  {
    if Allowed(s, op) {
      match op
      case Malloc(size) => MallocKeepsInv(s, size);
      case Free(ptr) => if ptr != 0 { FreeKeepsInv(s, ptr); }
    }
  }

  ghost function Run(s: State, ops: seq<Op>): State
    requires Inv(s)
    decreases |ops|
  {
    if ops == [] then s else
    StepKeepsInv(s, ops[0]);
    Run(Step(s, ops[0]), ops[1..])
  }

  lemma {:induction false} RunKeepsInv(s: State, ops: seq<Op>)
    requires Inv(s)
    ensures Inv(Run(s, ops))
    ensures Positive(s.blocks) && (forall op :: op in ops && op.Malloc? ==> op.size < WORD - 3)
      ==> Positive(Run(s, ops).blocks)
    decreases |ops|
  {
    if ops != [] {
      StepKeepsInv(s, ops[0]);
      RunKeepsInv(Step(s, ops[0]), ops[1..]);
    }
  }

  /** After any run from boot the list tiles the 4 MB, is coalesced and the running
      total is the sum of the allocated sizes; and two runs that leave the same
      blocks allocated leave the same list. */
  lemma AnyRunFromBoot(ops: seq<Op>, ops': seq<Op>)
    ensures Inv(Init())
    ensures Inv(Run(Init(), ops))
    ensures Allocated(Run(Init(), ops).blocks) == Allocated(Run(Init(), ops').blocks)
      ==> Run(Init(), ops).blocks == Run(Init(), ops').blocks && Run(Init(), ops).used == Run(Init(), ops').used
  {
    RunKeepsInv(Init(), ops);
    RunKeepsInv(Init(), ops');
    if Allocated(Run(Init(), ops).blocks) == Allocated(Run(Init(), ops').blocks) {
      Canonical(Run(Init(), ops).blocks, Run(Init(), ops').blocks);
    }
  }

  // ---------------------------------------------------------------- exactly what a call leaves

  /** Block `i`, free and at least `n` bytes, was taken: whole if no more than sixteen
      bytes were to spare, else `n` bytes of it, with a free block behind them. The next
      search begins behind it. */
  predicate TakenAt(s: State, t: State, i: nat, n: nat, ptr: nat) {
    && i < |s.blocks| && s.blocks[i].free && s.blocks[i].size >= n
    && var b := s.blocks[i];
       && ptr == b.addr + 12
       && (b.size <= n + 16 ==>
             && t.blocks == s.blocks[i := Block(b.addr, b.size, false)]
             && t.cursor == (if i + 1 == |s.blocks| then 0 else i + 1) && t.used == s.used + b.size)
       && (b.size > n + 16 ==>
             && t.blocks == s.blocks[..i] + [Block(b.addr, n, false), Block(b.addr + 12 + n, b.size - n - 12, true)]
                              + s.blocks[i + 1..]
             && t.cursor == i + 1 && t.used == s.used + n)
  }

  lemma MallocTakes(s: State, size: nat)
    requires Inv(s) && 0 < size < WORD && MallocSpec(s, size).1 != 0
    ensures var (t, ptr) := MallocSpec(s, size); exists i: nat :: TakenAt(s, t, i, Align4(size), ptr)
  {
    hide Tiles, WordSized, Coalesced, UsedBytes;
    var n := Align4(size);
    var i := NextFit(s.blocks, s.cursor, n);
    NextFitIsCyclicFirst(s.blocks, s.cursor, n);
    var (t, ptr) := MallocSpec(s, size);
    var b := s.blocks[i];
    if b.size <= n + 16 {
      assert s.blocks[..i] + [Block(b.addr, b.size, false)] + s.blocks[i + 1..]
          == s.blocks[i := Block(b.addr, b.size, false)];
    }
    assert TakenAt(s, t, i, n, ptr);
  }

  /** So no block is more than nineteen bytes larger than what was asked for. */
  lemma MallocWastesLittle(s: State, size: nat)
    requires Inv(s) && 0 < size < WORD - 3 && MallocSpec(s, size).1 != 0
    ensures size <= SizeAt(MallocSpec(s, size).0.blocks, MallocSpec(s, size).1) <= size + 19
  {
    hide MallocSpec, WordSized, Coalesced, UsedBytes;
    var (t, ptr) := MallocSpec(s, size);
    MallocTakes(s, size);
    var i: nat :| TakenAt(s, t, i, Align4(size), ptr);
    MallocKeepsInv(s, size);
    SizeAtIs(t.blocks, i);
  }

  /** Freeing null does nothing. After any other free the search begins at the lowest
      address: the next request gets the lowest block that fits. */
  lemma MallocAfterFree(s: State, ptr: nat, size: nat)
    requires Inv(s) && Live(s.blocks, ptr) && 0 < size < WORD
    ensures FreeSpec(s, 0) == s
    ensures var t := FreeSpec(s, ptr);
      && t.cursor < |t.blocks|
      && var q := MallocSpec(t, size).1;
         q != 0 ==> forall b :: b in t.blocks && b.free && b.size >= Align4(size) ==> q <= b.addr + 12
  {
    hide Tiles, WordSized, Coalesced, UsedBytes, Merge, MarkFree, SizeAt, Align4, Allocated, Positive;
    FreeKeepsInv(s, ptr);
    LowestFit(FreeSpec(s, ptr).blocks, Align4(size));
  }

  lemma LowestFit(bs: seq<Block>, n: nat)
    requires Tiles(bs)
    ensures var i := FirstFitFrom(bs, 0, n);
      i < |bs| ==> forall b :: b in bs && b.free && b.size >= n ==> bs[i].addr <= b.addr
  {
    var i := FirstFitFrom(bs, 0, n);
    if i < |bs| {
      forall b | b in bs && b.free && b.size >= n ensures bs[i].addr <= b.addr {
        var k :| 0 <= k < |bs| && bs[k] == b;
        if i < k { Ascending(bs, i, k); }
      }
    }
  }

  /** Merging keeps room: every free block ends up in one at least as large. */
  lemma {:induction false} MergeKeepsRoom(bs: seq<Block>, b: Block)
    requires b in bs && b.free
    ensures exists c :: c in Merge(bs) && c.free && c.size >= b.size
    decreases |bs|
  {
    if |bs| < 2 {
    } else if bs[0].free && bs[1].free {
      var j := Join(bs[0], bs[1]);
      assert j in [j] + bs[2..];
      if b in bs[2..] {
        assert b in [j] + bs[2..];
        MergeKeepsRoom([j] + bs[2..], b);
      } else {
        MergeKeepsRoom([j] + bs[2..], j);
      }
    } else if b == bs[0] {
      assert bs[0] in [bs[0]] + Merge(bs[1..]);
    } else {
      MergeKeepsRoom(bs[1..], b);
      var c :| c in Merge(bs[1..]) && c.free && c.size >= b.size;
      assert c in [bs[0]] + Merge(bs[1..]);
    }
  }

  /** What was freed can be had again: a request of no more than that size succeeds. */
  lemma FreedCanBeHad(s: State, ptr: nat, size: nat)
    requires Inv(s) && Live(s.blocks, ptr) && 0 < size < WORD && Align4(size) <= SizeAt(s.blocks, ptr)
    ensures FreeSpec(s, ptr).cursor < |FreeSpec(s, ptr).blocks|
    ensures MallocSpec(FreeSpec(s, ptr), size).1 != 0
  {
    hide Merge;
    FreeKeepsInv(s, ptr);
    var i := LiveIndex(s.blocks, ptr);
    SizeAtIs(s.blocks, i);
    var m, t := MarkFree(s.blocks, ptr), FreeSpec(s, ptr);
    assert m[i] in m;
    MergeKeepsRoom(m, m[i]);
    var c :| c in t.blocks && c.free && c.size >= m[i].size;
    var k :| 0 <= k < |t.blocks| && t.blocks[k] == c;
    assert Fits(t.blocks[k], Align4(size));
    MallocComplete(t, size);
  }
}
