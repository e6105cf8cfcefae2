/** Main results on the store: crash ordering, and the invariant over any run. */
module FatInvariant {
  import opened Bytes
  import opened FatCodec
  import opened FatVolume
  import opened FatDisk
  import opened FatFiles
  import opened FatProofs

  // ---------------------------------------------------------------- crash ordering

  lemma ClaimedIsSafe(v: Volume, name: seq<byte>, ext: seq<byte>, size: nat)
    requires NameOk(name, ext) && |v.fat| >= 2 && CrashSafe(v)
    ensures var t := WriteTarget(v, name, ext, size);
      t.Target? ==> CrashSafe(Claimed(v, t))
  {
    hide WriteTarget, CrashSafe;
    var t := WriteTarget(v, name, ext, size);
    if t.Target? && t.claim { ClaimIsSafe(v, t.e.cluster); }
  }

  lemma WrittenIsSafe(v: Volume, name: seq<byte>, ext: seq<byte>, size: nat)
    requires NameOk(name, ext) && |v.fat| >= 2 && CrashSafe(v)
    ensures CrashSafe(Written(v, WriteTarget(v, name, ext, size)))
    ensures Tight(v) ==> Tight(Written(v, WriteTarget(v, name, ext, size)))
  {
    hide WriteTarget, CrashSafe, Tight;
    var t := WriteTarget(v, name, ext, size);
    if t.Target? && t.claim {
      PlacedIsSafe(v, t.s, t.i, t.e);
      if Tight(v) { PlacedIsTight(v, t.s, t.i, t.e); }
    } else if t.Target? {
      RewrittenIsSafeAndTight(v, t.s, t.i, t.e);
    }
  }

  /** Power may fail after any single sector write of `ardaos_write_file`: no live entry
      ever stands on free space and no two share a cluster. */
  lemma WriteIsCrashSafe(d: Disk, g: Geo, name: seq<byte>, ext: seq<byte>, size: nat, buf: seq<byte>, k: nat)
    requires GeoOk(g, d) && NameOk(name, ext) && BufferOk(size, buf) && CrashSafe(View(d, g))
    requires k <= |WritePlan(d, g, name, ext, size, buf)|
    ensures CrashSafe(View(Apply(d, WritePlan(d, g, name, ext, size, buf)[..k]), g))
  {
    hide View, CrashSafe, WriteTarget, Apply, WritePlan, Claimed, Written;
    PlanOfNoRoom(d, g, name, ext, size, buf);
    WriteStages(d, g, name, ext, size, buf, k);
    ClaimedIsSafe(View(d, g), name, ext, size);
    WrittenIsSafe(View(d, g), name, ext, size);
  }

  lemma PlanOfNoRoom(d: Disk, g: Geo, name: seq<byte>, ext: seq<byte>, size: nat, buf: seq<byte>)
    requires GeoOk(g, d) && NameOk(name, ext) && BufferOk(size, buf)
    ensures WriteTarget(View(d, g), name, ext, size).NoRoom? <==> WritePlan(d, g, name, ext, size, buf) == []
  {
    hide View, WriteTarget;
  }

  lemma DeletedIsSafe(v: Volume, s: nat, i: nat, returned: bool)
    requires CrashSafe(v) && Slot(s, i)
    requires returned ==> HasChain(At(v.root, s, i))
    ensures returned ==> At(v.root, s, i).cluster < |v.fat|
    ensures CrashSafe(Deleted(v, s, i, returned))
  {
    var e := At(v.root, s, i);
    if returned {
      assert Holds(v.root, s, i, e.cluster);
      ReturnedIsSafe(v, s, i, e.cluster, Retired(e));
    } else {
      RetiredIsSafe(v, s, i, Retired(e));
    }
  }

  /** Power may fail after any single sector write of `ardaos_delete_file`. */
  lemma DeleteIsCrashSafe(d: Disk, g: Geo, name: seq<byte>, ext: seq<byte>, k: nat)
    requires GeoOk(g, d) && DeleteOk(View(d, g), name, ext) && CrashSafe(View(d, g))
    requires k <= |DeletePlan(d, g, name, ext)|
    ensures CrashSafe(View(Apply(d, DeletePlan(d, g, name, ext)[..k]), g))
  {
    hide View, CrashSafe, Apply, Deleted, GeoOk, ReturnWrites, MatchIn;
    DeleteStages(d, g, name, ext, k);
    if k > 0 {
      var p := Find(View(d, g).root, 0, name, ext);
      DeletedIsSafe(View(d, g), p.s, p.i, k >= 2);
    }
  }

  // ---------------------------------------------------------------- mirror

  lemma TableWritesMirror(d: Disk, g: Geo, f: nat, t: Table)
    requires GeoOk(g, d) && f < g.spf && Mirrored(d, g)
    ensures Mirrored(Apply(d, TableWrites(g, f, t)), g)
  {
    hide FatAt, WithTable, EncodeTable, WriteSector, Geo.RootLba, Geo.DataLba;
    FatLayout(g, d);
    if g.fatCount > 1 {
      var w1, w2 := Wr(g.reserved + f, EncodeTable(t)), Wr(g.reserved + g.spf + f, EncodeTable(t));
      ApplyOne(d, w1);
      ApplyConcat(d, [w1], [w2]);
      ApplyOne(Apply(d, [w1]), w2);
      var d1 := WriteSector(d, w1);
      FatAtWritten(d, g.reserved, g.spf, f, t);
      FatAtUnchanged(d, g.reserved + g.spf, g.spf, w1);
      FatAtUnchanged(d1, g.reserved, g.spf, w2);
      FatAtWritten(d1, g.reserved + g.spf, g.spf, f, t);
    }
  }

  lemma {:induction false} LaterWritesMirror(d: Disk, g: Geo, ws: seq<Wr>)
    requires GeoOk(g, d) && Mirrored(d, g) && forall k :: 0 <= k < |ws| ==> ws[k].lba >= g.RootLba()
    ensures Mirrored(Apply(d, ws), g)
    decreases |ws|
  {
    hide FatAt, WriteSector, Geo.RootLba, Geo.DataLba;
    if ws != [] {
      FatLayout(g, d);
      var d1 := Apply(d, ws[..|ws| - 1]);
      LaterWritesMirror(d, g, ws[..|ws| - 1]);
      FatAtUnchanged(d1, g.reserved, g.spf, ws[|ws| - 1]);
      if g.fatCount > 1 { FatAtUnchanged(d1, g.reserved + g.spf, g.spf, ws[|ws| - 1]); }
    }
  }

  lemma WriteMirror(d: Disk, g: Geo, name: seq<byte>, ext: seq<byte>, size: nat, buf: seq<byte>)
    requires GeoOk(g, d) && NameOk(name, ext) && BufferOk(size, buf) && Mirrored(d, g)
    ensures Mirrored(Apply(d, WritePlan(d, g, name, ext, size, buf)), g)
  {
    hide View, WriteTarget, Apply, Mirrored, FatAt, EncodeTable, EncodeDir, Chunk;
    var t := WriteTarget(View(d, g), name, ext, size);
    ApplyNone(d);
    if t.Target? {
      var a := if t.claim then ClaimWrites(d, g, t.e.cluster) else [];
      var b := DataWrites(g.ClusterLba(t.e.cluster), SectorCount(t.e.size), buf) + [DirWrite(d, g, t.s, t.i, t.e)];
      assert WritePlan(d, g, name, ext, size, buf) == a + b;
      ApplyConcat(d, a, b);
      if t.claim { ClaimMirror(d, g, t.e.cluster); }
      LaterWritesMirror(Apply(d, a), g, b);
    }
  }

  lemma ClaimMirror(d: Disk, g: Geo, c: nat)
    requires GeoOk(g, d) && c < g.Clusters() && Mirrored(d, g)
    ensures Mirrored(Apply(d, ClaimWrites(d, g, c)), g)
  {
    TableWritesMirror(d, g, c / 256, SetTable(TableAt(d, g.reserved + c / 256), c % 256, END_MARK));
  }

  lemma DeleteMirror(d: Disk, g: Geo, name: seq<byte>, ext: seq<byte>)
    requires GeoOk(g, d) && DeleteOk(View(d, g), name, ext) && Mirrored(d, g)
    ensures Mirrored(Apply(d, DeletePlan(d, g, name, ext)), g)
  {
    hide View, Apply, Mirrored, FatAt, EncodeTable, EncodeDir, MatchIn, ClearedTable, Length, TableWrites;
    var p := Find(View(d, g).root, 0, name, ext);
    ApplyNone(d);
    if p.Place? {
      var e := At(View(d, g).root, p.s, p.i);
      var w := DirWrite(d, g, p.s, p.i, Retired(e));
      var b := if e.cluster >= 2 then ReturnWrites(d, g, e.cluster) else [];
      ApplyConcat(d, [w], b);
      LaterWritesMirror(d, g, [w]);
      ApplyNone(Apply(d, [w]));
      if e.cluster >= 2 {
        TableWritesMirror(Apply(d, [w]), g, 0,
            ClearedTable(TableAt(d, g.reserved), e.cluster, Length(View(d, g).fat, e.cluster)));
      }
    }
  }

  // ---------------------------------------------------------------- invariant

  ghost predicate StoreInv(d: Disk, g: Geo) {
    GeoOk(g, d) && VolumeInv(View(d, g), g.spc) && Mirrored(d, g)
  }

  /** The chain the file already has, or else one cluster, holds the new contents. */
  predicate Fits(v: Volume, name: seq<byte>, ext: seq<byte>, size: nat, spc: nat) {
    var p := Find(v.root, 0, name, ext);
    if p.Place? && 2 <= At(v.root, p.s, p.i).cluster < |v.fat|
    then EffSize(size) <= 512 * Times(Length(v.fat, At(v.root, p.s, p.i).cluster), spc)
    else EffSize(size) <= 512 * spc
  }

  lemma TargetTail(v: Volume, name: seq<byte>, ext: seq<byte>, size: nat)
    requires NameOk(name, ext) && |v.fat| >= 2 && ZeroTail(v.root)
    ensures ZeroTail(Written(v, WriteTarget(v, name, ext, size)).root)
  {
    hide MatchIn, SetEntry, EffSize;
    var t := WriteTarget(v, name, ext, size);
    if t.Target? {
      forall j: nat | j < t.i ensures At(v.root, t.s, j).name[0] != 0 {
        if Find(v.root, 0, name, ext).Place? {
          assert Slot(t.s, j) && At(v.root, t.s, t.i).name[0] != 0;
        } else {
          assert !Free(v.root[t.s][j]);
        }
      }
      ZeroTailKept(v.root, t.s, t.i, t.e);
    }
  }

  lemma WrittenSizedIff(v: Volume, name: seq<byte>, ext: seq<byte>, size: nat, spc: nat)
    requires NameOk(name, ext) && |v.fat| >= 2 && CrashSafe(v) && Sized(v, spc)
    ensures Sized(Written(v, WriteTarget(v, name, ext, size)), spc)
      <==> WriteTarget(v, name, ext, size).NoRoom? || Fits(v, name, ext, size, spc)
  {
    hide Sized, SetEntry, EffSize, SetWord;
    var t := WriteTarget(v, name, ext, size);
    if t.Target? {
      if t.claim {
        PlacedIsSizedIff(v, t.s, t.i, t.e, spc);
      } else {
        assert Holds(v.root, t.s, t.i, t.e.cluster);
        RewrittenIsSizedIff(v, t.s, t.i, t.e, spc);
      }
    }
  }

  /** A write keeps the whole invariant exactly when the file fits its clusters. */
  lemma WriteKeepsInvIff(d: Disk, g: Geo, name: seq<byte>, ext: seq<byte>, size: nat, buf: seq<byte>)
    requires StoreInv(d, g) && NameOk(name, ext) && BufferOk(size, buf)
    ensures StoreInv(Apply(d, WritePlan(d, g, name, ext, size, buf)), g)
      <==> WriteTarget(View(d, g), name, ext, size).NoRoom? || Fits(View(d, g), name, ext, size, g.spc)
  {
    hide View, WriteTarget, Apply, WritePlan, Written, Mirrored, Fits, CrashSafe, Tight, Sized, ZeroTail;
    var ws := WritePlan(d, g, name, ext, size, buf);
    assert ws[..|ws|] == ws;
    WriteStages(d, g, name, ext, size, buf, |ws|);
    WriteMirror(d, g, name, ext, size, buf);
    WrittenIsSafe(View(d, g), name, ext, size);
    TargetTail(View(d, g), name, ext, size);
    WrittenSizedIff(View(d, g), name, ext, size, g.spc);
  }

  lemma DeletedKeepsInv(v: Volume, s: nat, i: nat, spc: nat)
    requires VolumeInv(v, spc) && Slot(s, i) && !Free(At(v.root, s, i))
    ensures HasChain(At(v.root, s, i)) ==> At(v.root, s, i).cluster < |v.fat|
    ensures VolumeInv(Deleted(v, s, i, HasChain(At(v.root, s, i))), spc)
  {
    hide CrashSafe, Tight, Sized, ZeroTail, SetEntry, Cleared;
    var e := At(v.root, s, i);
    if HasChain(e) {
      assert Holds(v.root, s, i, e.cluster);
      ReturnedIsSafe(v, s, i, e.cluster, Retired(e));
      ReturnedIsTight(v, s, i, e.cluster, Retired(e));
      ReturnedIsSized(v, s, i, e.cluster, Retired(e), spc);
    } else {
      RewrittenIsSafeAndTight(v, s, i, Retired(e));
      RewrittenIsSizedIff(v, s, i, Retired(e), spc);
    }
    LiveBefore(v.root, s, i);
    ZeroTailKept(v.root, s, i, Retired(e));
  }

  lemma LiveBefore(root: Root, s: nat, i: nat)
    requires ZeroTail(root) && Slot(s, i) && !Free(At(root, s, i))
    ensures forall j: nat :: j < i ==> At(root, s, j).name[0] != 0
  {
    forall j: nat | j < i ensures At(root, s, j).name[0] != 0 {
      assert Slot(s, j);
    }
  }

  /** A delete keeps the whole invariant. */
  lemma DeleteKeepsInv(d: Disk, g: Geo, name: seq<byte>, ext: seq<byte>)
    requires StoreInv(d, g) && DeleteOk(View(d, g), name, ext)
    ensures StoreInv(Apply(d, DeletePlan(d, g, name, ext)), g)
  {
    hide View, Apply, Deleted, GeoOk, ReturnWrites, MatchIn, Mirrored, VolumeInv, Length;
    var ws := DeletePlan(d, g, name, ext);
    assert ws[..|ws|] == ws;
    DeleteStages(d, g, name, ext, |ws|);
    DeleteMirror(d, g, name, ext);
    GeoStays(d, g, ws);
    var p := Find(View(d, g).root, 0, name, ext);
    if p.Place? {
      DeletedKeepsInv(View(d, g), p.s, p.i, g.spc);
      if At(View(d, g).root, p.s, p.i).cluster >= 2 { ReturnsSomething(d, g, At(View(d, g).root, p.s, p.i).cluster); }
    }
  }

  lemma GeoStays(d: Disk, g: Geo, ws: seq<Wr>)
    ensures GeoOk(g, d) ==> GeoOk(g, Apply(d, ws))
  {
  }

  lemma ReturnsSomething(d: Disk, g: Geo, c: nat)
    requires GeoOk(g, d) && c < g.Clusters() && c + Length(View(d, g).fat, c) <= 256
    ensures |ReturnWrites(d, g, c)| >= 1
  {
  }

  // ---------------------------------------------------------------- runs

  datatype Op =
    | WriteFile(name: seq<byte>, ext: seq<byte>, size: nat, buf: seq<byte>)
    | DeleteFile(name: seq<byte>, ext: seq<byte>)

  /** The limits of the code itself. */
  predicate Callable(d: Disk, g: Geo, op: Op) {
    match op
    case WriteFile(name, ext, size, buf) => NameOk(name, ext) && BufferOk(size, buf)
    case DeleteFile(name, ext) => DeleteOk(View(d, g), name, ext)
  }

  function Plan(d: Disk, g: Geo, op: Op): seq<Wr>
    requires Callable(d, g, op)
  {
    match op
    case WriteFile(name, ext, size, buf) => WritePlan(d, g, name, ext, size, buf)
    case DeleteFile(name, ext) => DeletePlan(d, g, name, ext)
  }

  predicate AllCallable(d: Disk, g: Geo, ops: seq<Op>)
    decreases |ops|
  {
    ops == [] || (Callable(d, g, ops[0]) && AllCallable(Apply(d, Plan(d, g, ops[0])), g, ops[1..]))
  }

  /** Every sector write of a run, in order. */
  function History(d: Disk, g: Geo, ops: seq<Op>): seq<Wr>
    requires AllCallable(d, g, ops)
    decreases |ops|
  {
    if ops == [] then [] else
    var ws := Plan(d, g, ops[0]);
    ws + History(Apply(d, ws), g, ops[1..])
  }

  lemma StepIsCrashSafe(d: Disk, g: Geo, op: Op, k: nat)
    requires GeoOk(g, d) && Callable(d, g, op) && CrashSafe(View(d, g)) && k <= |Plan(d, g, op)|
    ensures CrashSafe(View(Apply(d, Plan(d, g, op)[..k]), g))
  {
    hide View, Apply, WritePlan, DeletePlan, DeleteOk, CrashSafe;
    match op
    case WriteFile(name, ext, size, buf) => WriteIsCrashSafe(d, g, name, ext, size, buf, k);
    case DeleteFile(name, ext) => DeleteIsCrashSafe(d, g, name, ext, k);
  }

  /** Cut the power after any sector write of any run of writes and deletes: the volume
      is crash safe, files that outgrow their cluster included. */
  lemma {:induction false} RunIsCrashSafe(d: Disk, g: Geo, ops: seq<Op>, k: nat)
    requires GeoOk(g, d) && AllCallable(d, g, ops) && CrashSafe(View(d, g)) && k <= |History(d, g, ops)|
    ensures CrashSafe(View(Apply(d, History(d, g, ops)[..k]), g))
    decreases |ops|
  {
    hide View, Apply, Plan, Callable, CrashSafe, GeoOk;
    ApplyNone(d);
    if ops != [] {
      var ws := Plan(d, g, ops[0]);
      var d1 := Apply(d, ws);
      GeoStays(d, g, ws);
      var rest := History(d1, g, ops[1..]);
      var j := if k <= |ws| then k else |ws|;
      StepIsCrashSafe(d, g, ops[0], j);
      if k <= |ws| {
        assert (ws + rest)[..k] == ws[..k];
      } else {
        assert ws[..j] == ws;
        assert (ws + rest)[..k] == ws + rest[..k - |ws|];
        ApplyConcat(d, ws, rest[..k - |ws|]);
        RunIsCrashSafe(d1, g, ops[1..], k - |ws|);
      }
    }
  }

  predicate AllFit(d: Disk, g: Geo, ops: seq<Op>)
    requires AllCallable(d, g, ops)
    decreases |ops|
  {
    ops == [] || ((ops[0].WriteFile? ==> Fits(View(d, g), ops[0].name, ops[0].ext, ops[0].size, g.spc))
      && AllFit(Apply(d, Plan(d, g, ops[0])), g, ops[1..]))
  }

  /** Between operations the whole invariant holds, whatever was written and deleted. */
  lemma {:induction false} RunKeepsInv(d: Disk, g: Geo, ops: seq<Op>)
    requires StoreInv(d, g) && AllCallable(d, g, ops) && AllFit(d, g, ops)
    ensures StoreInv(Apply(d, History(d, g, ops)), g)
    decreases |ops|
  {
    hide View, Apply, WritePlan, DeletePlan, VolumeInv, Mirrored, Fits, DeleteOk, GeoOk;
    ApplyNone(d);
    if ops != [] {
      var ws := Plan(d, g, ops[0]);
      match ops[0] {
        case WriteFile(name, ext, size, buf) => WriteKeepsInvIff(d, g, name, ext, size, buf);
        case DeleteFile(name, ext) => DeleteKeepsInv(d, g, name, ext);
      }
      RunKeepsInv(Apply(d, ws), g, ops[1..]);
      ApplyConcat(d, ws, History(Apply(d, ws), g, ops[1..]));
    }
  }

  // ---------------------------------------------------------------- from a blank disk

  /** A disk of `n` sectors, every byte zero. */
  function BlankDisk(n: nat): (d: Disk)
    ensures |d| == n
  {
    seq<Sector>(n, _ => ZeroSector())
  }

  lemma BlankSectors(lba: nat, d: Disk)
    requires forall l :: 0 <= l < |d| ==> d[l] == ZeroSector()
    ensures forall i: nat :: i < 256 ==> TableAt(d, lba)[i] == 0
    ensures forall i: nat :: i < 16 ==> DirAt(d, lba)[i].name[0] == 0
  {
  }

  lemma BlankVolume(v: Volume, spc: nat)
    requires forall x: nat :: x < |v.fat| ==> v.fat[x] == 0
    requires forall s: nat, i: nat :: Slot(s, i) ==> At(v.root, s, i).name[0] == 0
    ensures VolumeInv(v, spc)
  {
    forall x: nat | 2 <= x < |v.fat| ensures !Owned(v, x) {
      assert forall s: nat, i: nat :: !OwnedBy(v, s, i, x);
    }
  }

  lemma BlankFat(d: Disk, lba: nat, spf: nat)
    requires spf <= 255 && forall l :: 0 <= l < |d| ==> d[l] == ZeroSector()
    ensures forall x: nat :: x < 256 * spf ==> FatAt(d, lba, spf)[x] == 0
  {
    hide TableAt;
    forall x: nat | x < 256 * spf ensures FatAt(d, lba, spf)[x] == 0 { BlankSectors(lba + x / 256, d); }
  }

  lemma BlankGeo(g: Geo, n: nat)
    ensures GeoOk(g, BlankDisk(n)) <==> g.DataLba() <= n
    ensures forall l :: 0 <= l < n ==> BlankDisk(n)[l] == ZeroSector()
  {
    hide Geo.DataLba;
  }

  lemma BlankView(g: Geo, n: nat)
    requires g.DataLba() <= n
    ensures GeoOk(g, BlankDisk(n))
    ensures forall x: nat :: x < g.Clusters() ==> View(BlankDisk(n), g).fat[x] == 0
    ensures forall s: nat, i: nat :: Slot(s, i) ==> At(View(BlankDisk(n), g).root, s, i).name[0] == 0
  {
    hide FatAt, DirAt, Geo.RootLba, Geo.DataLba, BlankDisk, GeoOk;
    var d := BlankDisk(n);
    BlankGeo(g, n);
    BlankFat(d, g.reserved, g.spf);
    forall s: nat, i: nat | Slot(s, i) ensures At(View(d, g).root, s, i).name[0] == 0 {
      BlankSectors(g.RootLba() + s, d);
    }
  }

  /** A blank disk of any size that holds the root directory is a sound empty volume. */
  lemma BlankDiskIsSound(g: Geo, n: nat)
    requires g.DataLba() <= n
    ensures StoreInv(BlankDisk(n), g)
  {
    hide FatAt, VolumeInv, Geo.RootLba, View, BlankDisk, GeoOk;
    var d := BlankDisk(n);
    BlankGeo(g, n);
    BlankView(g, n);
    BlankFat(d, g.reserved, g.spf);
    BlankFat(d, g.reserved + g.spf, g.spf);
    BlankVolume(View(d, g), g.spc);
  }

  /** From a blank disk: after any run of writes and deletes the code can carry out, cut
      anywhere, the volume is crash safe; and between operations whose files fit the
      whole invariant holds. */
  lemma AnyRunFromBlank(g: Geo, n: nat, ops: seq<Op>, k: nat)
    requires g.DataLba() <= n
    ensures GeoOk(g, BlankDisk(n))
    ensures AllCallable(BlankDisk(n), g, ops) && k <= |History(BlankDisk(n), g, ops)| ==>
      CrashSafe(View(Apply(BlankDisk(n), History(BlankDisk(n), g, ops)[..k]), g))
    ensures AllCallable(BlankDisk(n), g, ops) && AllFit(BlankDisk(n), g, ops) ==>
      StoreInv(Apply(BlankDisk(n), History(BlankDisk(n), g, ops)), g)
  {
    hide View, BlankDisk, AllCallable, AllFit, History, Apply, CrashSafe, Tight, Sized, ZeroTail, Mirrored;
    BlankDiskIsSound(g, n);
    var d := BlankDisk(n);
    if AllCallable(d, g, ops) {
      if k <= |History(d, g, ops)| { RunIsCrashSafe(d, g, ops, k); }
      if AllFit(d, g, ops) { RunKeepsInv(d, g, ops); }
    }
  }

  /** The first file written gets the first slot and cluster 2, and fits if it is no
      larger than a cluster. */
  lemma FirstFile(v: Volume, name: seq<byte>, ext: seq<byte>, size: nat, spc: nat)
    requires NameOk(name, ext) && |v.fat| > 2 && v.fat[2] == 0
    requires forall s: nat, i: nat :: Slot(s, i) ==> At(v.root, s, i).name[0] == 0
    ensures var t := WriteTarget(v, name, ext, size);
      t.Target? && t.s == 0 && t.i == 0 && t.claim && t.e.cluster == 2
    ensures Fits(v, name, ext, size, spc) <==> (if 1 <= size <= 10240 then size else 512) <= 512 * spc
  {
    forall s: nat | s < 32 ensures MatchIn(v.root[s], 0, name, ext) == 16 && FreeIn(v.root[s], 0) == 0 {
      assert Slot(s, 0) && At(v.root, s, 0).name[0] == 0;
    }
  }

  lemma FirstFileOnBlank(g: Geo, n: nat, name: seq<byte>, ext: seq<byte>, size: nat)
    requires g.DataLba() <= n && NameOk(name, ext)
    ensures GeoOk(g, BlankDisk(n))
    ensures var v := View(BlankDisk(n), g);
      var t := WriteTarget(v, name, ext, size);
      && t.Target? && t.s == 0 && t.i == 0 && t.claim && t.e.cluster == 2
      && (Fits(v, name, ext, size, g.spc) <==> (if 1 <= size <= 10240 then size else 512) <= 512 * g.spc)
  {
    hide View, BlankDisk, GeoOk, WriteTarget, Fits, NameOk, EffSize;
    BlankView(g, n);
    FirstFile(View(BlankDisk(n), g), name, ext, size, g.spc);
  }
}
