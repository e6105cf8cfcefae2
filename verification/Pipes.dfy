/** The pipe ring buffers and their pool, as src/disk.c keeps them. */
module Pipes {
  import opened PipeSpec

  class Pipe {
    const buffer: array<nat>
    var name: string
    var active: bool
    var head: nat
    var tail: nat
    var count: nat

    constructor ()
      ensures fresh(buffer) && Valid() && !active && Held() == []
    {
      buffer := new nat[512](_ => 0);
      name, active := "", false;
      head, tail, count := 0, 0, 0;
    }

    ghost predicate Valid()
      reads this
    {
      && buffer.Length == CAPACITY && tail < CAPACITY && count <= CAPACITY
      && head == (tail + count) % CAPACITY
    }

    /** The bytes in the ring, oldest first. */
    ghost function Held(): (h: seq<nat>)
      reads this, buffer
      requires Valid()
      ensures |h| == count
    {
      seq(count, i requires 0 <= i < count && Valid() reads this, buffer => buffer[(tail + i) % CAPACITY])
    }

    function Slot(): Slot
      reads this
    {
      if active then Open(name) else Closed
    }

    /** One round of the write loop. */
    method Push(x: nat)
      requires Valid() && count < CAPACITY
      modifies this`head, this`count, buffer
      ensures Valid() && count == old(count) + 1
      ensures Held() == old(Held()) + [x]
    {
      ghost var was := Held();
      buffer[head] := x;
      head := (head + 1) % 512;
      count := count + 1;
      assert Held() == was + [x];
    }

    /** What opening a pipe under a new name does to it. */
    method Reopen(key: string)
      requires Valid()
      modifies this
      ensures Valid() && Slot() == Open(key) && active && count == 0
    {
      active, name := true, key;
      head, tail, count := 0, 0, 0;
    }

    static lemma NextSlot(t: nat, i: nat)
      ensures ((t + 1) % CAPACITY + i) % CAPACITY == (t + (i + 1)) % CAPACITY
    {
    }

    /** One round of the read loop. */
    method Pop() returns (x: nat)
      requires Valid() && count > 0
      modifies this`tail, this`count
      ensures Valid() && count == old(count) - 1
      ensures [x] + Held() == old(Held())
    {
      ghost var was, first := Held(), tail;
      x := buffer[tail];
      assert was[0] == x;
      tail := (tail + 1) % 512;
      count := count - 1;
      NextSlot(first, count);
      forall i | 0 <= i < count ensures Held()[i] == was[i + 1] { NextSlot(first, i); }
    }

    /** The pipe branch of `vfs_write`. */
    method Write(data: seq<nat>) returns (written: nat)
      requires Valid()
      modifies this`head, this`count, buffer
      ensures Valid()
      ensures written == Room(old(Held()), |data|)
      ensures Held() == WriteSpec(old(Held()), data)
    {
      written := 0;
      ghost var was := Held();
      while written < |data| && count < 512
        invariant Valid() && written <= |data| && count == |was| + written
        invariant Held() == was + data[..written]
        decreases |data| - written
      {
        Push(data[written]);
        assert data[..written + 1] == data[..written] + [data[written]];
        written := written + 1;
      }
    }

    /** The pipe branch of `vfs_read`. */
    method Read(target: array<nat>, wanted: int) returns (readBytes: nat)
      requires Valid() && target != buffer && wanted <= target.Length
      modifies this`tail, this`count, target
      ensures Valid()
      ensures readBytes == Taken(old(Held()), wanted)
      ensures forall i :: 0 <= i < target.Length ==>
        target[i] == if i < readBytes then old(Held())[i] else old(target[i])
      ensures Held() == old(Held())[readBytes..]
    {
      readBytes := 0;
      ghost var was := Held();
      while readBytes < wanted && count > 0
        invariant Valid() && readBytes <= |was| && count == |was| - readBytes
        invariant readBytes <= if wanted < 0 then 0 else wanted
        invariant forall i :: 0 <= i < target.Length ==> target[i] == if i < readBytes then was[i] else old(target[i])
        invariant Held() == was[readBytes..]
        decreases count
      {
        ghost var before := Held();
        var x := Pop();
        assert before[0] == x && before[1..] == Held();
        target[readBytes] := x;
        readBytes := readBytes + 1;
      }
    }
  }

  class PipePool {
    const pipes: seq<Pipe>

    /** Sixteen pipes with sixteen buffers. */
    ghost predicate Shaped()
      reads this, pipes
    {
      && |pipes| == SLOTS
      && (forall i :: 0 <= i < SLOTS ==> pipes[i].Valid())
      && (forall i, j :: 0 <= i < j < SLOTS ==> pipes[i] != pipes[j] && pipes[i].buffer != pipes[j].buffer)
    }

    ghost function Buffers(): set<object>
      reads this, pipes
    {
      set i | 0 <= i < |pipes| :: pipes[i].buffer as object
    }

    ghost predicate Valid()
      reads this, pipes, Buffers()
    {
      Shaped() && PoolOk(View())
    }

    ghost function View(): (p: Pool)
      requires Shaped()
      reads this, pipes, Buffers()
      ensures |p.slots| == |p.held| == SLOTS
      ensures forall i :: 0 <= i < SLOTS ==> p.slots[i] == pipes[i].Slot() && p.held[i] == pipes[i].Held()
    {
      Pool(seq(SLOTS, i requires 0 <= i < SLOTS && Shaped() reads this, pipes => pipes[i].Slot()),
           seq(SLOTS, i requires 0 <= i < SLOTS && Shaped() reads this, pipes, Buffers() => pipes[i].Held()))
    }

    /** `system_pipes`, all zero at boot. */
    constructor ()
      ensures Valid() && fresh(pipes) && fresh(Buffers())
      ensures View() == Pool(seq(SLOTS, _ => Closed), seq(SLOTS, _ => []))
    {
      var made: seq<Pipe> := [];
      while |made| < SLOTS
        invariant |made| <= SLOTS
        invariant forall i :: 0 <= i < |made| ==>
          fresh(made[i]) && fresh(made[i].buffer) && made[i].Valid() && !made[i].active && made[i].Held() == []
        invariant forall i, j :: 0 <= i < j < |made| ==> made[i] != made[j] && made[i].buffer != made[j].buffer
      {
        var pipe := new Pipe();
        made := made + [pipe];
      }
      pipes := made;
      new;
      assert View().slots == seq(SLOTS, _ => Closed);
      assert View().held == seq(SLOTS, _ => []);
    }

    /** The FIFO branch of `vfs_open`; a newly opened pipe is empty. */
    method OpenFifo(filename: string) returns (pId: int)
      requires Valid() && CString(filename)
      modifies pipes
      ensures Valid() && View() == PoolStep(old(View()), OpenName(filename))
      ensures pId == OpenSpec(old(View()).slots, filename).1
    {
      hide Distinct, PoolOk;
      ghost var pool := View();
      PoolSound(pool);
      OpenKeepsDistinct(pool.slots, filename);
      pId := -1;
      var i := 0;
      while i < 16
        invariant i <= 16 && FindName(pool.slots, filename, 0) == FindName(pool.slots, filename, i)
      {
        if pipes[i].active && SamePrefix(pipes[i].name, filename, 8) {
          return i;
        }
        i := i + 1;
      }
      i := 0;
      while i < 16
        invariant i <= 16 && FindClosed(pool.slots, 0) == FindClosed(pool.slots, i)
      {
        if !pipes[i].active {
          pipes[i].Reopen(Key(filename));
          assert View().slots == pool.slots[i := Open(Key(filename))];
          assert View().held == pool.held;
          assert View() == PoolStep(pool, OpenName(filename));
          return i;
        }
        i := i + 1;
      }
    }

    /** `vfs_write` on a descriptor of pipe `id`; -1 if that pipe is not open. */
    method WriteTo(id: int, data: seq<nat>) returns (written: int)
      requires Valid()
      modifies pipes, Buffers()
      ensures Valid() && View() == PoolStep(old(View()), On(id, Op.Write(data)))
      ensures written == if Reaches(old(View()), id) then Room(old(View()).held[id], |data|) else -1
    {
      hide PoolOk, WriteSpec;
      ghost var pool := View();
      PoolSound(pool);
      if id < 0 || id >= 16 || !pipes[id].active { return -1; }
      written := pipes[id].Write(data);
      assert View().slots == pool.slots;
      assert View().held == pool.held[id := WriteSpec(pool.held[id], data)];
      assert View() == PoolStep(pool, On(id, Op.Write(data)));
    }

    /** `vfs_read` on a descriptor of pipe `id`. */
    method ReadFrom(id: int, target: array<nat>, wanted: int) returns (readBytes: int)
      requires Valid() && target !in Buffers() && wanted <= target.Length
      modifies pipes, target
      ensures Valid() && View() == PoolStep(old(View()), On(id, Op.Read(wanted)))
      ensures readBytes == if Reaches(old(View()), id) then Taken(old(View()).held[id], wanted) else -1
      ensures forall i :: 0 <= i < target.Length ==>
        target[i] == if i < readBytes then old(View()).held[id][i] else old(target[i])
    {
      hide PoolOk;
      ghost var pool := View();
      PoolSound(pool);
      if id < 0 || id >= 16 || !pipes[id].active { return -1; }
      assert pipes[id].buffer in Buffers();
      readBytes := pipes[id].Read(target, wanted);
      assert View().slots == pool.slots;
      assert View().held == pool.held[id := pool.held[id][readBytes..]];
      assert View() == PoolStep(pool, On(id, Op.Read(wanted)));
    }
  }

  lemma PoolSound(p: Pool)
    requires PoolOk(p)
    ensures Distinct(p.slots) && |p.slots| == |p.held|
    ensures forall i :: 0 <= i < |p.held| ==> |p.held[i]| <= CAPACITY
    ensures forall i :: 0 <= i < |p.held| && p.slots[i].Closed? ==> p.held[i] == []
  {
  }
}
