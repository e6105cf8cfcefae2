/** Named pipes of src/disk.c as values: a pipe holds a sequence of at most 512
    bytes, and the pool maps names to sixteen slots. */
module PipeSpec {
  const CAPACITY: nat := 512
  const SLOTS: nat := 16
  const NAME: nat := 8

  function Min(a: int, b: int): int { if a < b then a else b }

  /** Bytes a write of `count` bytes is able to place. */
  function Room(held: seq<nat>, count: int): (n: nat)
    requires |held| <= CAPACITY
  {
    if count < 0 then 0 else Min(count, CAPACITY - |held|)
  }

  function WriteSpec(held: seq<nat>, data: seq<nat>): (r: seq<nat>)
    requires |held| <= CAPACITY
    ensures |r| <= CAPACITY
  {
    held + data[..Room(held, |data|)]
  }

  function Taken(held: seq<nat>, count: int): nat {
    if count < 0 then 0 else Min(count, |held|)
  }

  // ---------------------------------------------------------------- interleavings

  datatype Op = Write(data: seq<nat>) | Read(count: int)

  function Step(held: seq<nat>, op: Op): (r: seq<nat>)
    requires |held| <= CAPACITY
    ensures |r| <= CAPACITY
  {
    match op
    case Write(data) => WriteSpec(held, data)
    case Read(count) => held[Taken(held, count)..]
  }

  function Got(held: seq<nat>, op: Op): seq<nat> {
    if op.Read? then held[..Taken(held, op.count)] else []
  }

  function Took(held: seq<nat>, op: Op): seq<nat>
    requires |held| <= CAPACITY
  {
    if op.Write? then op.data[..Room(held, |op.data|)] else []
  }

  /** What the readers got, in order. */
  function Output(held: seq<nat>, ops: seq<Op>): seq<nat>
    requires |held| <= CAPACITY
    decreases |ops|
  {
    if ops == [] then [] else
    Got(held, ops[0]) + Output(Step(held, ops[0]), ops[1..])
  }

  /** What the writers were told was written, in order. */
  function Accepted(held: seq<nat>, ops: seq<Op>): seq<nat>
    requires |held| <= CAPACITY
    decreases |ops|
  {
    if ops == [] then [] else
    Took(held, ops[0]) + Accepted(Step(held, ops[0]), ops[1..])
  }

  function Run(held: seq<nat>, ops: seq<Op>): (r: seq<nat>)
    requires |held| <= CAPACITY
    ensures |r| <= CAPACITY
    decreases |ops|
  {
    if ops == [] then held else Run(Step(held, ops[0]), ops[1..])
  }

  /** A pipe is a FIFO over any interleaving of readers and writers: nothing is lost,
      reordered or made up between acceptance and delivery. */
  lemma {:induction false} RunIsFifo(held: seq<nat>, ops: seq<Op>)
    requires |held| <= CAPACITY
    ensures held + Accepted(held, ops) == Output(held, ops) + Run(held, ops)
    decreases |ops|
  {
    if ops != [] {
      var next := Step(held, ops[0]);
      StepIsFifo(held, ops[0]);
      RunIsFifo(next, ops[1..]);
      Regroup(held, Took(held, ops[0]), Got(held, ops[0]), next,
              Accepted(next, ops[1..]), Output(next, ops[1..]), Run(next, ops[1..]));
    }
  }

  lemma StepIsFifo(held: seq<nat>, op: Op)
    requires |held| <= CAPACITY
    ensures held + Took(held, op) == Got(held, op) + Step(held, op)
  {
  }

  lemma Regroup(held: seq<nat>, took: seq<nat>, got: seq<nat>, next: seq<nat>, acc: seq<nat>, out: seq<nat>,
                end: seq<nat>)
    requires held + took == got + next && next + acc == out + end
    ensures held + (took + acc) == (got + out) + end
  {
    assert held + (took + acc) == (held + took) + acc;
    assert (got + next) + acc == got + (next + acc);
    assert got + (out + end) == (got + out) + end;
  }

  // ---------------------------------------------------------------- how much goes through

  /** A read delivers exactly what was asked for if that much is held, else all of it. */
  lemma ReadDelivers(held: seq<nat>, count: int)
    requires |held| <= CAPACITY
    ensures var got, left := Got(held, Read(count)), Step(held, Read(count));
      && got + left == held
      && (count <= 0 ==> got == [])
      && (0 <= count <= |held| ==> |got| == count)
      && (count >= |held| ==> got == held && left == [])
  {
  }

  /** A write is accepted whole if it fits, else it fills the ring to 512 bytes. */
  lemma WriteAccepts(held: seq<nat>, data: seq<nat>)
    requires |held| <= CAPACITY
    ensures var took, after := Took(held, Write(data)), Step(held, Write(data));
      && after == held + took && took <= data
      && (|held| + |data| <= 512 ==> took == data)
      && (|held| + |data| >= 512 ==> |after| == 512)
  {
  }

  lemma {:induction false} RunSplits(held: seq<nat>, ops: seq<Op>, op: Op)
    requires |held| <= CAPACITY
    ensures Run(held, ops + [op]) == Step(Run(held, ops), op)
    ensures Output(held, ops + [op]) == Output(held, ops) + Got(Run(held, ops), op)
    decreases |ops|
  {
    var all := ops + [op];
    if ops == [] {
      assert all[1..] == [];
    } else {
      assert all[0] == ops[0] && all[1..] == ops[1..] + [op];
      RunSplits(Step(held, ops[0]), ops[1..], op);
    }
  }

  /** A run that ends with a read of at least what is held empties the pipe, and the
      readers have got everything that was accepted. */
  lemma DrainedRun(held: seq<nat>, ops: seq<Op>, count: int)
    requires |held| <= CAPACITY && count >= |Run(held, ops)|
    ensures Run(held, ops + [Read(count)]) == []
    ensures Output(held, ops + [Read(count)]) == held + Accepted(held, ops)
  {
    RunSplits(held, ops, Read(count));
    ReadDelivers(Run(held, ops), count);
    RunIsFifo(held, ops);
  }

  // ---------------------------------------------------------------- the pool

  datatype Slot = Closed | Open(name: string)

  /** First eight characters of a C string. */
  function Key(s: string): (k: string)
    ensures |k| <= NAME
  {
    if |s| <= NAME then s else s[..NAME]
  }

  predicate CString(s: string) { forall i :: 0 <= i < |s| ==> s[i] != '\0' }

  /** `strncmp(a, b, n) == 0` on NUL-terminated strings. */
  predicate SamePrefix(a: string, b: string, n: nat)
    decreases n
  {
    if n == 0 then true
    else if a == [] || b == [] then a == [] && b == []
    else a[0] == b[0] && SamePrefix(a[1..], b[1..], n - 1)
  }

  lemma {:induction false} SamePrefixIsSameKey(a: string, b: string, n: nat)
    ensures SamePrefix(a, b, n) <==>
      (if |a| <= n then a else a[..n]) == (if |b| <= n then b else b[..n])
    decreases n
  {
    if n > 0 && a != [] && b != [] {
      SamePrefixIsSameKey(a[1..], b[1..], n - 1);
      var x, y := (if |a| <= n then a else a[..n]), (if |b| <= n then b else b[..n]);
      assert x == [a[0]] + (if |a[1..]| <= n - 1 then a[1..] else a[1..][..n - 1]);
      assert y == [b[0]] + (if |b[1..]| <= n - 1 then b[1..] else b[1..][..n - 1]);
      assert x == y ==> x[0] == y[0] && x[1..] == y[1..];
    }
  }

  /** First slot at or after `i` that is open under this name, or the pool size. */
  function FindName(pool: seq<Slot>, name: string, i: nat): (k: nat)
    requires i <= |pool|
    ensures i <= k <= |pool|
    ensures k < |pool| ==> pool[k].Open? && SamePrefix(pool[k].name, name, NAME)
    ensures forall j :: i <= j < k ==> !(pool[j].Open? && SamePrefix(pool[j].name, name, NAME))
    decreases |pool| - i
  {
    if i == |pool| || (pool[i].Open? && SamePrefix(pool[i].name, name, NAME)) then i else FindName(pool, name, i + 1)
  }

  function FindClosed(pool: seq<Slot>, i: nat): (k: nat)
    requires i <= |pool|
    ensures i <= k <= |pool|
    ensures k < |pool| ==> pool[k].Closed?
    ensures forall j :: i <= j < k ==> pool[j].Open?
    decreases |pool| - i
  {
    if i == |pool| || pool[i].Closed? then i else FindClosed(pool, i + 1)
  }

  /** The FIFO branch of `vfs_open`: the new pool and the pipe, or -1. */
  function OpenSpec(pool: seq<Slot>, name: string): (seq<Slot>, int) {
    var k := FindName(pool, name, 0);
    if k < |pool| then (pool, k) else
    var c: int := FindClosed(pool, 0);
    if c < |pool| then (pool[c := Open(Key(name))], c) else (pool, -1)
  }

  ghost predicate Distinct(pool: seq<Slot>) {
    && (forall i :: 0 <= i < |pool| && pool[i].Open? ==> |pool[i].name| <= NAME)
    && (forall i, j :: 0 <= i < j < |pool| && pool[i].Open? && pool[j].Open? ==> pool[i].name != pool[j].name)
  }

  /** Opening keeps the open names distinct, never renames or closes an open pipe,
      reaches a pipe whose name is the first eight characters asked for, and fails
      exactly when there is no such pipe and no free slot. */
  lemma OpenKeepsDistinct(pool: seq<Slot>, name: string)
    requires Distinct(pool)
    ensures var (after, k) := OpenSpec(pool, name);
      && Distinct(after) && |after| == |pool|
      && (forall i :: 0 <= i < |pool| && pool[i].Open? ==> after[i] == pool[i])
      && (k >= 0 ==> k < |pool| && after[k] == Open(Key(name)))
      && (k < 0 ==> k == -1 && after == pool)
      && (k < 0 <==> (forall i :: 0 <= i < |pool| ==> pool[i].Open? && pool[i].name != Key(name)))
  {
    forall i | 0 <= i < |pool| && pool[i].Open?
      ensures SamePrefix(pool[i].name, name, NAME) <==> pool[i].name == Key(name)
    {
      SamePrefixIsSameKey(pool[i].name, name, NAME);
    }
  }

  function OpenAll(pool: seq<Slot>, names: seq<string>): seq<Slot>
    decreases |names|
  {
    if names == [] then pool else OpenAll(OpenSpec(pool, names[0]).0, names[1..])
  }

  lemma {:induction false} OpenAllKeeps(pool: seq<Slot>, names: seq<string>)
    requires Distinct(pool)
    ensures var after := OpenAll(pool, names);
      && Distinct(after) && |after| == |pool|
      && (forall i :: 0 <= i < |pool| && pool[i].Open? ==> after[i] == pool[i])
    decreases |names|
  {
    if names != [] {
      OpenKeepsDistinct(pool, names[0]);
      OpenAllKeeps(OpenSpec(pool, names[0]).0, names[1..]);
    }
  }

  /** Names have one key exactly when `strncmp` over eight characters finds them equal. */
  lemma SameKeyIff(a: string, b: string)
    ensures Key(a) == Key(b) <==> SamePrefix(a, b, 8)
  {
    SamePrefixIsSameKey(a, b, 8);
  }

  /** Two opens, with any opens before and between them, reach the same pipe exactly
      when the names agree in their first eight characters. */
  lemma SamePipeIff(pool: seq<Slot>, a: string, between: seq<string>, b: string)
    requires Distinct(pool)
    ensures var (p, i) := OpenSpec(pool, a);
      var (q, j) := OpenSpec(OpenAll(p, between), b);
      i >= 0 && j >= 0 ==> (i == j <==> SamePrefix(a, b, 8))
  {
    hide SamePrefix;
    SameKeyIff(a, b);
    var (p, i) := OpenSpec(pool, a);
    OpenKeepsDistinct(pool, a);
    OpenAllKeeps(p, between);
    var m := OpenAll(p, between);
    OpenKeepsDistinct(m, b);
    var (q, j) := OpenSpec(m, b);
    if i >= 0 && j >= 0 {
      assert m[i] == Open(Key(a)) && q[i] == Open(Key(a)) && q[j] == Open(Key(b));
    }
  }

  // ---------------------------------------------------------------- traffic over the whole pool

  /** Names and contents of all slots. */
  datatype Pool = Pool(slots: seq<Slot>, held: seq<seq<nat>>)

  ghost predicate PoolOk(p: Pool) {
    && |p.slots| == |p.held| && Distinct(p.slots)
    && (forall i :: 0 <= i < |p.held| ==> |p.held[i]| <= CAPACITY)
    && (forall i :: 0 <= i < |p.held| && p.slots[i].Closed? ==> p.held[i] == [])
  }

  /** A descriptor holds the number of its pipe. */
  datatype PoolOp = OpenName(name: string) | On(id: int, op: Op)

  predicate Reaches(p: Pool, id: int) { 0 <= id < |p.slots| && p.slots[id].Open? }

  /** A call on a pipe that is not open fails and changes nothing. */
  ghost function PoolStep(p: Pool, e: PoolOp): (q: Pool)
    requires PoolOk(p)
    ensures PoolOk(q) && |q.slots| == |p.slots|
  {
    match e
    case OpenName(name) =>
      OpenKeepsDistinct(p.slots, name);
      p.(slots := OpenSpec(p.slots, name).0)
    case On(id, op) => if Reaches(p, id) then p.(held := p.held[id := Step(p.held[id], op)]) else p
  }

  ghost function PoolRun(p: Pool, es: seq<PoolOp>): (q: Pool)
    requires PoolOk(p)
    ensures PoolOk(q) && |q.slots| == |p.slots|
    decreases |es|
  {
    if es == [] then p else PoolRun(PoolStep(p, es[0]), es[1..])
  }

  /** The reads and writes of a run that reach pipe `id`, in order. */
  ghost function Traffic(p: Pool, es: seq<PoolOp>, id: nat): seq<Op>
    requires PoolOk(p)
    decreases |es|
  {
    if es == [] then [] else
    (if es[0].On? && es[0].id == id && Reaches(p, id) then [es[0].op]
        else []) + Traffic(PoolStep(p, es[0]), es[1..], id)
  }

  /** One pipe of the pool only sees its own traffic. */
  lemma {:induction false} PoolProjects(p: Pool, es: seq<PoolOp>, id: nat)
    requires PoolOk(p) && id < |p.slots|
    ensures PoolRun(p, es).held[id] == Run(p.held[id], Traffic(p, es, id))
    ensures p.slots[id].Open? ==> PoolRun(p, es).slots[id] == p.slots[id]
    decreases |es|
  {
    hide PoolOk;
    PoolShape(p);
    if es != [] {
      var q := PoolStep(p, es[0]);
      StepProjects(p, es[0], id);
      PoolProjects(q, es[1..], id);
      var ops := Traffic(q, es[1..], id);
      if es[0].On? && es[0].id == id && Reaches(p, id) {
        var all := [es[0].op] + ops;
        assert Traffic(p, es, id) == all && all[0] == es[0].op && all[1..] == ops;
        assert Run(p.held[id], all) == Run(Step(p.held[id], all[0]), all[1..]);
      } else {
        assert [] + ops == ops;
      }
    }
  }

  lemma PoolShape(p: Pool)
    requires PoolOk(p)
    ensures |p.slots| == |p.held| && forall i :: 0 <= i < |p.held| ==> |p.held[i]| <= CAPACITY
  {
  }

  lemma StepProjects(p: Pool, e: PoolOp, id: nat)
    requires PoolOk(p) && id < |p.slots|
    ensures |p.held| == |PoolStep(p, e).held| == |p.slots| && |p.held[id]| <= CAPACITY
    ensures PoolStep(p, e).held[id] == if e.On? && e.id == id && Reaches(p, id)
        then Step(p.held[id], e.op) else p.held[id]
    ensures p.slots[id].Open? ==> PoolStep(p, e).slots[id] == p.slots[id]
  {
    if e.OpenName? { OpenKeepsDistinct(p.slots, e.name); }
  }

  /** Every pipe of the pool is a FIFO, whatever is opened, written and read on any of
      the sixteen in any order. */
  lemma PoolIsFifo(p: Pool, es: seq<PoolOp>, id: nat)
    requires PoolOk(p) && id < |p.slots|
    ensures |p.held[id]| <= CAPACITY
    ensures var ops := Traffic(p, es, id);
      p.held[id] + Accepted(p.held[id], ops) == Output(p.held[id], ops) + PoolRun(p, es).held[id]
  {
    PoolProjects(p, es, id);
    RunIsFifo(p.held[id], Traffic(p, es, id));
  }

  /** Two opens with any traffic and opens in between reach one pipe exactly when the
      first eight characters agree; so readers and writers meet by name. */
  lemma SamePipeInTrafficIff(p: Pool, a: string, es: seq<PoolOp>, b: string)
    requires PoolOk(p)
    ensures var q, i := PoolStep(p, OpenName(a)), OpenSpec(p.slots, a).1;
      var j := OpenSpec(PoolRun(q, es).slots, b).1;
      i >= 0 && j >= 0 ==> (i == j <==> SamePrefix(a, b, 8))
  {
    hide OpenSpec, SamePrefix;
    SameKeyIff(a, b);
    var q, i := PoolStep(p, OpenName(a)), OpenSpec(p.slots, a).1;
    OpenKeepsDistinct(p.slots, a);
    var m := PoolRun(q, es);
    OpenKeepsDistinct(m.slots, b);
    var (after, j) := OpenSpec(m.slots, b);
    if i >= 0 && j >= 0 {
      PoolProjects(q, es, i);
      assert m.slots[i] == Open(Key(a)) && after[i] == Open(Key(a)) && after[j] == Open(Key(b));
    }
  }
}
