/** The kernel heap as a value: the block list of src/memory.c together with the
    position of `next_fit_ptr` and the running total `total_used_memory`.

    `MallocSpec` and `FreeSpec` say what one call does to that value; the class in
    Heap.dfy proves that the in-place list code computes them. */
module HeapSpec {
  const HEAP_START: nat := 0x800000
  const HEAP_SIZE: nat := 4194304
  const HEAP_END: nat := HEAP_START + HEAP_SIZE
  const HEADER: nat := 12             // sizeof(struct block_header) on i386
  const WORD: nat := 0x1_0000_0000

  /** `size` counts payload bytes only; the header sits in front of them. */
  datatype Block = Block(addr: nat, size: nat, free: bool)

  /** `cursor` is the index of the block `next_fit_ptr` points at. */
  datatype State = State(blocks: seq<Block>, cursor: nat, used: nat)

  function BlockEnd(b: Block): nat { b.addr + HEADER + b.size }

  /** `(size + 3) & ~3` in 32-bit arithmetic: the last three sizes wrap to 0. */
  function Align4(size: nat): (n: nat)
    requires size < WORD
    ensures n % 4 == 0
    ensures size <= n <==> size < WORD - 3
    ensures size >= WORD - 3 ==> n == 0
    ensures size < WORD - 3 ==> n < size + 4
  {
    var sum := (size + 3) % WORD;
    sum - sum % 4
  }

  // ---------------------------------------------------------------- invariant

  /** Each block starts where the one before it ends. */
  ghost predicate Abut(bs: seq<Block>) {
    forall i, j :: 0 <= i < j < |bs| && j == i + 1 ==> bs[j].addr == BlockEnd(bs[i])
  }

  /** The blocks follow one another without gap or overlap and fill the range. */
  ghost predicate Tiles(bs: seq<Block>) {
    && |bs| > 0
    && bs[0].addr == HEAP_START
    && BlockEnd(bs[|bs| - 1]) == HEAP_END
    && Abut(bs)
  }

  ghost predicate WordSized(bs: seq<Block>) {
    forall i :: 0 <= i < |bs| ==> bs[i].size % 4 == 0
  }

  ghost predicate Positive(bs: seq<Block>) {
    forall i :: 0 <= i < |bs| ==> bs[i].size > 0
  }

  ghost predicate Coalesced(bs: seq<Block>) {
    forall i, j :: 0 <= i < j < |bs| && j == i + 1 ==> !(bs[i].free && bs[j].free)
  }

  function UsedBytes(bs: seq<Block>): nat {
    if bs == [] then 0
    else (if bs[0].free then 0 else bs[0].size) + UsedBytes(bs[1..])
  }

  ghost predicate Inv(s: State) {
    && Tiles(s.blocks) && WordSized(s.blocks) && Coalesced(s.blocks)
    && s.cursor < |s.blocks|
    && s.used == UsedBytes(s.blocks)
  }

  /** The allocated blocks, as (address, size) pairs. */
  ghost function Allocated(bs: seq<Block>): set<(nat, nat)> {
    set i | 0 <= i < |bs| && !bs[i].free :: (bs[i].addr, bs[i].size)
  }

  /** `ptr` is what malloc returned for a block that is still allocated. */
  ghost predicate Live(bs: seq<Block>, ptr: nat) {
    exists i :: 0 <= i < |bs| && !bs[i].free && ptr == bs[i].addr + HEADER
  }

  // ---------------------------------------------------------------- malloc

  predicate Fits(b: Block, n: nat) { b.free && b.size >= n }

  /** The first block at or after `from` that fits, or the list length. */
  function FirstFitFrom(bs: seq<Block>, from: nat, n: nat): (i: nat)
    requires from <= |bs|
    ensures from <= i <= |bs|
    ensures i < |bs| ==> Fits(bs[i], n)
    ensures forall k :: from <= k < i ==> !Fits(bs[k], n)
    decreases |bs| - from
  {
    if from == |bs| || Fits(bs[from], n) then from else FirstFitFrom(bs, from + 1, n)
  }

  /** The first fit in cyclic order from `cursor`, or the list length. */
  function NextFit(bs: seq<Block>, cursor: nat, n: nat): (i: nat)
    requires cursor < |bs|
    ensures i <= |bs|
  {
    var i := FirstFitFrom(bs, cursor, n);
    if i < |bs| then i else FirstFitFrom(bs, 0, n)
  }

  predicate Splits(b: Block, n: nat) { b.size > n + HEADER + 4 }

  /** What the chosen block becomes: one allocated block, or that and a free rest. */
  function Cut(b: Block, n: nat): (r: seq<Block>)
    requires Fits(b, n)
    ensures 1 <= |r| <= 2
  {
    if Splits(b, n)
    then [Block(b.addr, n, false), Block(b.addr + HEADER + n, b.size - n - HEADER, true)]
    else [Block(b.addr, b.size, false)]
  }

  function Take(bs: seq<Block>, i: nat, n: nat): seq<Block>
    requires i < |bs| && Fits(bs[i], n)
  {
    bs[..i] + Cut(bs[i], n) + bs[i + 1..]
  }

  /** The new state and the returned pointer (0 is the null pointer). */
  function MallocSpec(s: State, size: nat): (State, nat)
    requires s.cursor < |s.blocks| && size < WORD
  {
    if size == 0 then (s, 0) else
    var n := Align4(size);
    var i := NextFit(s.blocks, s.cursor, n);
    if i == |s.blocks| then (s, 0) else
    var bs := Take(s.blocks, i, n);
    (State(bs, if i + 1 < |bs| then i + 1 else 0, s.used + bs[i].size), bs[i].addr + HEADER)
  }

  // ---------------------------------------------------------------- free

  function MarkFree(bs: seq<Block>, ptr: nat): (r: seq<Block>)
    ensures |r| == |bs|
  {
    seq(|bs|, k requires 0 <= k < |bs| => if bs[k].addr + HEADER == ptr then bs[k].(free := true) else bs[k])
  }

  function Join(a: Block, b: Block): Block { Block(a.addr, a.size + HEADER + b.size, a.free) }

  /** One left-to-right pass that merges neighbouring free blocks. */
  function Merge(bs: seq<Block>): (r: seq<Block>)
    decreases |bs|
  {
    if |bs| < 2 then bs
    else if bs[0].free && bs[1].free then Merge([Join(bs[0], bs[1])] + bs[2..])
    else [bs[0]] + Merge(bs[1..])
  }

  function SizeAt(bs: seq<Block>, ptr: nat): nat {
    if bs == [] then 0 else if bs[0].addr + HEADER == ptr then bs[0].size else SizeAt(bs[1..], ptr)
  }

  function FreeSpec(s: State, ptr: nat): State
  {
    if ptr == 0 then s
    else State(Merge(MarkFree(s.blocks, ptr)), 0, (s.used - SizeAt(s.blocks, ptr)) % WORD)
  }

  /** The state `init_heap` builds. */
  function Init(): State { State([Block(HEAP_START, HEAP_SIZE - HEADER, true)], 0, 0) }
}
