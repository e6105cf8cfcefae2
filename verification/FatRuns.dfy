/** Contents over whole runs: what a name reads as after any writes and deletes, and how
    a file larger than its clusters changes another one. */
module FatRuns {
  import opened Bytes
  import opened FatCodec
  import opened FatVolume
  import opened FatDisk
  import opened FatFiles
  import opened FatProofs
  import opened FatInvariant
  import opened FatRead
  import opened FatReadBack
  import opened FatNames
  import opened PathSpec

  // ---------------------------------------------------------------- the last write counts

  datatype Contents = Nothing | Contents(bytes: seq<byte>)

  /** What one operation makes of the contents of a name. A write without room for it
      fails and changes nothing. */
  function Next(d: Disk, g: Geo, op: Op, name: seq<byte>, ext: seq<byte>, was: Contents): Contents
    requires Callable(d, g, op)
  {
    if op.name != name || op.ext != ext then was
    else if op.DeleteFile? then Nothing
    else if WriteTarget(View(d, g), name, ext, op.size).NoRoom? then was
    else Contents(op.buf[..if 1 <= op.size <= 10240 then op.size else 512])
  }

  /** The contents of the last successful write to a name since its last delete. */
  function LastWritten(d: Disk, g: Geo, ops: seq<Op>, name: seq<byte>, ext: seq<byte>, was: Contents): Contents
    requires AllCallable(d, g, ops)
    decreases |ops|
  {
    if ops == [] then was
    else LastWritten(Apply(d, Plan(d, g, ops[0])), g, ops[1..], name, ext, Next(d, g, ops[0], name, ext, was))
  }

  /** A write has no room exactly when it needs a slot and all are used, or needs a
      cluster and none is free. */
  lemma NoRoomIff(v: Volume, name: seq<byte>, ext: seq<byte>, size: nat)
    requires NameOk(name, ext) && |v.fat| >= 2
    ensures var p := Find(v.root, 0, name, ext);
      WriteTarget(v, name, ext, size).NoRoom? <==>
        || (p.Nowhere? && forall s: nat, i: nat :: Slot(s, i) ==> !Free(At(v.root, s, i)))
        || (!(p.Place? && HasChain(At(v.root, p.s, p.i))) && forall c: nat :: 2 <= c < |v.fat| ==> v.fat[c] != 0)
  {
    hide MatchIn, FreeIn, EffSize;
    var q := FindFree(v.root, 0);
    if q.Place? { assert Slot(q.s, q.i) && Free(At(v.root, q.s, q.i)); }
  }

  /** Looking a name up and reading it gives `c`. */
  ghost predicate ReadsAs(d: Disk, g: Geo, name: seq<byte>, ext: seq<byte>, out: Entry, c: Contents) {
    var f, r := Lookup(View(d, g).root, name, ext), ReadFile(d, g, name, ext, out);
    match c
    case Nothing => f.Missing? && r.rc == -1
    case Contents(b) =>
      && f.Found? && f.e.cluster >= 2 && !IsDirectory(f.e)
      && r.rc == |b| <= |r.bytes| && r.bytes[..|b|] == b
  }

  lemma WriteSame(d: Disk, g: Geo, name: seq<byte>, ext: seq<byte>, size: nat, buf: seq<byte>, out: Entry,
                  was: Contents)
    requires GeoOk(g, d) && NameOk(name, ext) && BufferOk(size, buf) && Canonical(name, ext)
    requires OnDisk(d, g, WriteTarget(View(d, g), name, ext, size)) && ReadsAs(d, g, name, ext, out, was)
    ensures GeoOk(g, Apply(d, WritePlan(d, g, name, ext, size, buf)))
    ensures ReadsAs(Apply(d, WritePlan(d, g, name, ext, size, buf)), g, name, ext, out,
                    Next(d, g, WriteFile(name, ext, size, buf), name, ext, was))
  {
    hide View, WriteTarget, Apply, WritePlan, NameOk, GeoOk, Lookup, ReadFile, Canonical, EffSize, OnDisk, BufferOk;
    FatLayout(g, d);
    GeoStays(d, g, WritePlan(d, g, name, ext, size, buf));
    if WriteTarget(View(d, g), name, ext, size).NoRoom? {
      PlanOfNoRoom(d, g, name, ext, size, buf);
      ApplyNone(d);
    } else {
      LookupWritten(d, g, name, ext, size, buf);
      TargetIsDirectoryIff(View(d, g), name, ext, size);
      WriteThenRead(d, g, name, ext, size, buf, out);
    }
  }

  lemma WriteOther(d: Disk, g: Geo, op: Op, name: seq<byte>, ext: seq<byte>, out: Entry, c: Contents)
    requires StoreInv(d, g) && op.WriteFile? && Callable(d, g, op) && Fits(View(d, g), op.name, op.ext, op.size, g.spc)
    requires Canonical(name, ext) && (name != op.name || ext != op.ext) && ReadsAs(d, g, name, ext, out, c)
    ensures GeoOk(g, Apply(d, Plan(d, g, op)))
    ensures ReadsAs(Apply(d, Plan(d, g, op)), g, name, ext, out, c)
  {
    hide View, WriteTarget, Apply, WritePlan, VolumeInv, Fits, NameOk, Mirrored, GeoOk, Lookup, ReadFile, Canonical,
         BufferOk;
    TailOf(View(d, g), g.spc);
    CanonicalText(name, ext);
    OtherNameIff(op.name, op.ext, name, ext);
    LookupOther(d, g, op.name, op.ext, op.size, op.buf, name, ext);
    OtherFilesAfterWrite(d, g, op.name, op.ext, op.size, op.buf, name, ext, out);
  }

  lemma DeleteAny(d: Disk, g: Geo, op: Op, name: seq<byte>, ext: seq<byte>, out: Entry, c: Contents)
    requires GeoOk(g, d) && ZeroTail(View(d, g).root) && UniqueNames(View(d, g).root) && op.DeleteFile?
    requires Callable(d, g, op)
    requires Canonical(name, ext) && ReadsAs(d, g, name, ext, out, c)
    ensures GeoOk(g, Apply(d, Plan(d, g, op)))
    ensures ReadsAs(Apply(d, Plan(d, g, op)), g, name, ext, out, Next(d, g, op, name, ext, c))
  {
    hide View, Apply, DeletePlan, ZeroTail, GeoOk, Lookup, ReadFile, Canonical, DeleteOk, UniqueNames;
    if op.name == name && op.ext == ext {
      DeleteThenRead(d, g, name, ext, out);
    } else {
      OtherFilesAfterDelete(d, g, op.name, op.ext, name, ext, out);
    }
  }

  lemma OpKeepsNames(d: Disk, g: Geo, op: Op)
    requires GeoOk(g, d) && ZeroTail(View(d, g).root) && UniqueNames(View(d, g).root) && Callable(d, g, op)
    ensures GeoOk(g, Apply(d, Plan(d, g, op))) && UniqueNames(View(Apply(d, Plan(d, g, op)), g).root)
  {
    hide View, WriteTarget, Apply, WritePlan, DeletePlan, ZeroTail, NameOk, GeoOk, UniqueNames, DeleteOk, Written,
         BufferOk;
    match op
    case DeleteFile(name, ext) => DeleteKeepsNames(d, g, name, ext);
    case WriteFile(name, ext, size, buf) =>
      FatLayout(g, d);
      var ws := WritePlan(d, g, name, ext, size, buf);
      assert ws[..|ws|] == ws;
      GeoStays(d, g, ws);
      WriteStages(d, g, name, ext, size, buf, |ws|);
      PlanOfNoRoom(d, g, name, ext, size, buf);
      WriteKeepsNames(View(d, g), name, ext, size);
  }

  /** What the operation writes lies on the disk. */
  predicate Lands(d: Disk, g: Geo, op: Op)
    requires Callable(d, g, op)
  {
    op.WriteFile? ==> OnDisk(d, g, WriteTarget(View(d, g), op.name, op.ext, op.size))
  }

  predicate AllLand(d: Disk, g: Geo, ops: seq<Op>)
    requires AllCallable(d, g, ops)
    decreases |ops|
  {
    ops == [] || (Lands(d, g, ops[0]) && AllLand(Apply(d, Plan(d, g, ops[0])), g, ops[1..]))
  }

  lemma OpReads(d: Disk, g: Geo, op: Op, name: seq<byte>, ext: seq<byte>, out: Entry, c: Contents)
    requires StoreInv(d, g) && Callable(d, g, op) && UniqueNames(View(d, g).root)
    requires op.WriteFile? ==> Fits(View(d, g), op.name, op.ext, op.size, g.spc)
    requires Lands(d, g, op) && Canonical(name, ext) && ReadsAs(d, g, name, ext, out, c)
    ensures GeoOk(g, Apply(d, Plan(d, g, op)))
    ensures ReadsAs(Apply(d, Plan(d, g, op)), g, name, ext, out, Next(d, g, op, name, ext, c))
    ensures StoreInv(Apply(d, Plan(d, g, op)), g)
  {
    hide View, WriteTarget, Apply, WritePlan, DeletePlan, VolumeInv, Fits, NameOk, Mirrored, GeoOk, Canonical, DeleteOk,
         UniqueNames, ReadsAs, BufferOk;
    match op
    case DeleteFile(n, x) =>
      DeleteKeepsInv(d, g, n, x);
      TailOf(View(d, g), g.spc);
      DeleteAny(d, g, op, name, ext, out, c);
    case WriteFile(n, x, size, buf) =>
      WriteKeepsInvIff(d, g, n, x, size, buf);
      if n == name && x == ext { WriteSame(d, g, n, x, size, buf, out, c); }
          else { WriteOther(d, g, op, name, ext, out, c); }
  }

  /** Over any run of fitting writes that land on the disk and of deletes, reading a name
      gives what was last written to it since it was last deleted. */
  lemma {:induction false} RunReads(d: Disk, g: Geo, ops: seq<Op>, name: seq<byte>, ext: seq<byte>, out: Entry,
                                    was: Contents)
    requires StoreInv(d, g) && UniqueNames(View(d, g).root) && AllCallable(d, g, ops) && AllFit(d, g, ops)
    requires AllLand(d, g, ops) && Canonical(name, ext) && ReadsAs(d, g, name, ext, out, was)
    ensures GeoOk(g, Apply(d, History(d, g, ops)))
    ensures ReadsAs(Apply(d, History(d, g, ops)), g, name, ext, out, LastWritten(d, g, ops, name, ext, was))
    decreases |ops|
  {
    hide View, Apply, Plan, VolumeInv, Mirrored, GeoOk, UniqueNames, ZeroTail, ReadsAs, Canonical, Callable, Fits, Next,
         Lands;
    ApplyNone(d);
    if ops != [] {
      var ws := Plan(d, g, ops[0]);
      OpReads(d, g, ops[0], name, ext, out, was);
      TailOf(View(d, g), g.spc);
      OpKeepsNames(d, g, ops[0]);
      RunReads(Apply(d, ws), g, ops[1..], name, ext, out, Next(d, g, ops[0], name, ext, was));
      ApplyConcat(d, ws, History(Apply(d, ws), g, ops[1..]));
    }
  }

  /** On a disk that holds all clusters every run that fits lands. */
  lemma {:induction false} FittingRunLands(d: Disk, g: Geo, ops: seq<Op>)
    requires StoreInv(d, g) && HoldsClusters(g, d) && AllCallable(d, g, ops) && AllFit(d, g, ops)
    ensures AllLand(d, g, ops)
    decreases |ops|
  {
    hide View, Apply, WritePlan, DeletePlan, VolumeInv, Mirrored, Fits, DeleteOk, GeoOk, OnDisk, WriteTarget,
         HoldsClusters, NameOk, BufferOk;
    if ops != [] {
      SafeOf(d, g);
      match ops[0] {
        case WriteFile(name, ext, size, buf) =>
          FittingIsOnDisk(d, g, name, ext, size);
          WriteKeepsInvIff(d, g, name, ext, size, buf);
        case DeleteFile(name, ext) => DeleteKeepsInv(d, g, name, ext);
      }
      StillHolds(d, g, Plan(d, g, ops[0]));
      FittingRunLands(Apply(d, Plan(d, g, ops[0])), g, ops[1..]);
    }
  }

  lemma SafeOf(d: Disk, g: Geo)
    requires StoreInv(d, g)
    ensures CrashSafe(View(d, g))
  {
  }

  lemma StillHolds(d: Disk, g: Geo, ws: seq<Wr>)
    ensures HoldsClusters(g, d) ==> HoldsClusters(g, Apply(d, ws))
  {
  }

  /** From a blank disk: reading a valid name gives exactly the size and the bytes of the
      last successful write to it since its last delete, and -1 if there is none. */
  lemma AnyRunReadsLastWrite(g: Geo, n: nat, ops: seq<Op>, name: seq<byte>, ext: seq<byte>, out: Entry)
    requires g.DataLba() <= n && Canonical(name, ext)
    ensures GeoOk(g, BlankDisk(n))
    ensures AllCallable(BlankDisk(n), g, ops) && AllFit(BlankDisk(n), g, ops) && AllLand(BlankDisk(n), g, ops) ==>
      var r := ReadFile(Apply(BlankDisk(n), History(BlankDisk(n), g, ops)), g, name, ext, out);
      match LastWritten(BlankDisk(n), g, ops, name, ext, Nothing)
      case Nothing => r.rc == -1
      case Contents(b) => r.rc == |b| <= |r.bytes| && r.bytes[..|b|] == b
  {
    hide View, BlankDisk, AllCallable, AllFit, AllLand, History, Apply, VolumeInv, Mirrored, LastWritten, Canonical,
         GeoOk, ReadFile, Lookup, UniqueNames;
    var d := BlankDisk(n);
    BlankDiskIsSound(g, n);
    BlankReadsNothing(g, n, name, ext, out);
    if AllCallable(d, g, ops) && AllFit(d, g, ops) && AllLand(d, g, ops) {
      RunReads(d, g, ops, name, ext, out, Nothing);
    }
  }

  lemma BlankReadsNothing(g: Geo, n: nat, name: seq<byte>, ext: seq<byte>, out: Entry)
    requires g.DataLba() <= n && Canonical(name, ext)
    ensures GeoOk(g, BlankDisk(n)) && UniqueNames(View(BlankDisk(n), g).root)
    ensures ReadsAs(BlankDisk(n), g, name, ext, out, Nothing)
  {
    hide View, BlankDisk, GeoOk, Canonical, ReadFile;
    BlankView(g, n);
    EmptyRoot(View(BlankDisk(n), g).root, name, ext);
    ReadFileIs(BlankDisk(n), g, name, ext, out);
  }

  lemma EmptyRoot(root: Root, name: seq<byte>, ext: seq<byte>)
    requires forall s: nat, i: nat :: Slot(s, i) ==> At(root, s, i).name[0] == 0
    ensures Lookup(root, name, ext).Missing? && UniqueNames(root)
  {
    forall s: nat | s < 32 ensures MatchIn(root[s], 0, name, ext) == 16 {
      assert Slot(s, 0) && At(root, s, 0).name[0] == 0;
    }
  }

  // ---------------------------------------------------------------- a file changed by another's write

  /** On a volume with one file, in slot 0 and cluster 2, the next one gets slot 1 and
      cluster 3. */
  lemma SecondFile(v: Volume, name: seq<byte>, ext: seq<byte>, size: nat)
    requires NameOk(name, ext) && |v.fat| > 3 && v.fat[2] != 0 && v.fat[3] == 0
    requires !Free(At(v.root, 0, 0)) && !LiveMatch(At(v.root, 0, 0), name, ext)
    requires forall s: nat, i: nat :: Slot(s, i) && (s != 0 || i != 0) ==> At(v.root, s, i).name[0] == 0
    ensures var t := WriteTarget(v, name, ext, size);
      t.Target? && t.s == 0 && t.i == 1 && t.claim && t.e.cluster == 3
  {
    assert Slot(0, 1) && At(v.root, 0, 1).name[0] == 0;
    assert MatchIn(v.root[0], 1, name, ext) == 16 && FreeIn(v.root[0], 1) == 1;
    forall s: nat | 0 < s < 32 ensures MatchIn(v.root[s], 0, name, ext) == 16 {
      assert Slot(s, 0) && At(v.root, s, 0).name[0] == 0;
    }
    assert FirstFree(v.fat, 3) == 3;
  }

  /** A file in slot 0 is written in place. */
  lemma RewriteFirst(v: Volume, name: seq<byte>, ext: seq<byte>, size: nat)
    requires NameOk(name, ext) && |v.fat| >= 2 && LiveMatch(At(v.root, 0, 0), name, ext)
    requires At(v.root, 0, 0).cluster >= 2
    ensures var t := WriteTarget(v, name, ext, size);
      t.Target? && !t.claim && t.e.cluster == At(v.root, 0, 0).cluster
  {
    assert MatchIn(v.root[0], 0, name, ext) == 0;
  }

  /** The volume after the sector writes of one call. */
  lemma ViewAfter(d: Disk, g: Geo, name: seq<byte>, ext: seq<byte>, size: nat, buf: seq<byte>)
    requires GeoOk(g, d) && NameOk(name, ext) && BufferOk(size, buf)
    ensures GeoOk(g, Apply(d, WritePlan(d, g, name, ext, size, buf)))
    ensures View(Apply(d, WritePlan(d, g, name, ext, size, buf)), g) ==
      Written(View(d, g), WriteTarget(View(d, g), name, ext, size))
  {
    hide View, WriteTarget, Apply, WritePlan, NameOk, GeoOk, Written, BufferOk;
    FatLayout(g, d);
    var ws := WritePlan(d, g, name, ext, size, buf);
    assert ws[..|ws|] == ws;
    GeoStays(d, g, ws);
    WriteStages(d, g, name, ext, size, buf, |ws|);
    PlanOfNoRoom(d, g, name, ext, size, buf);
  }

  /** The state after two files of at most a cluster were written to a blank disk. */
  function TwoFiles(g: Geo, n: nat, n1: seq<byte>, x1: seq<byte>, s1: nat, b1: seq<byte>, n2: seq<byte>, x2: seq<byte>,
                    s2: nat, b2: seq<byte>): (d: Disk)
    requires NameOk(n1, x1) && NameOk(n2, x2) && BufferOk(s1, b1) && BufferOk(s2, b2)
    ensures |d| == n
  {
    var d := BlankDisk(n);
    var d1 := Apply(d, WritePlan(d, g, n1, x1, s1, b1));
    Apply(d1, WritePlan(d1, g, n2, x2, s2, b2))
  }

  /** The first file stands in slot 0 and cluster 2, the second in cluster 3. */
  predicate Neighbours(root: Root, n1: seq<byte>, x1: seq<byte>, n2: seq<byte>, x2: seq<byte>, size2: nat) {
    && LiveMatch(At(root, 0, 0), n1, x1) && At(root, 0, 0).cluster == 2
    && var f := Lookup(root, n2, x2);
       f.Found? && f.e.cluster == 3 && !IsDirectory(f.e) && f.e.size == size2
  }

  lemma TwoFilesState(g: Geo, n: nat, n1: seq<byte>, x1: seq<byte>, s1: nat, b1: seq<byte>, n2: seq<byte>,
                      x2: seq<byte>, s2: nat, b2: seq<byte>)
    requires g.DataLba() <= n && NameOk(n1, x1) && NameOk(n2, x2) && BufferOk(s1, b1) && BufferOk(s2, b2)
    requires (n1 != n2 || x1 != x2) && 0 !in n2 && 0 !in x2 && EffSize(s1) <= 512 * g.spc && EffSize(s2) <= 512 * g.spc
    ensures StoreInv(TwoFiles(g, n, n1, x1, s1, b1, n2, x2, s2, b2), g)
    ensures Neighbours(View(TwoFiles(g, n, n1, x1, s1, b1, n2, x2, s2, b2), g).root, n1, x1, n2, x2, EffSize(s2))
    ensures g.ClusterLba(3) < n ==>
      ReadSector(TwoFiles(g, n, n1, x1, s1, b1, n2, x2, s2, b2), g.ClusterLba(3)) == Chunk(b2, 0)
  {
    hide View, WriteTarget, Apply, WritePlan, NameOk, GeoOk, VolumeInv, Mirrored, BlankDisk, Lookup, ReadSector, Chunk,
         EffSize, Geo.DataLba, Geo.RootLba, Geo.ClusterLba, BufferOk;
    var d := BlankDisk(n);
    BlankGeo(g, n);
    BlankDiskIsSound(g, n);
    BlankView(g, n);
    var v, d1 := View(d, g), Apply(d, WritePlan(d, g, n1, x1, s1, b1));
    var t1 := WriteTarget(v, n1, x1, s1);
    FirstFile(v, n1, x1, s1, g.spc);
    WriteKeepsInvIff(d, g, n1, x1, s1, b1);
    ViewAfter(d, g, n1, x1, s1, b1);
    var v1, d2 := View(d1, g), Apply(d1, WritePlan(d1, g, n2, x2, s2, b2));
    assert At(v1.root, 0, 0) == t1.e;
    OtherNameIff(n1, x1, n2, x2);
    MatchesOne(t1.e, n1, x1, n2, x2);
    SecondFile(v1, n2, x2, s2);
    NewFits(v1, n2, x2, s2, g.spc);
    var t2 := WriteTarget(v1, n2, x2, s2);
    WriteKeepsInvIff(d1, g, n2, x2, s2, b2);
    ViewAfter(d1, g, n2, x2, s2, b2);
    LookupWritten(d1, g, n2, x2, s2, b2);
    assert At(View(d2, g).root, 0, 0) == t1.e;
    NewIsPlain(v1, n2, x2, s2);
    AtLeastOne(EffSize(s2));
    if g.ClusterLba(3) < n { DataIsThere(d1, g, n2, x2, s2, b2, 0); }
  }

  lemma AtLeastOne(n: nat)
    requires 1 <= n <= 10240
    ensures SectorsToRead(n) == SectorCount(n) >= 1
  {
  }

  lemma NewFits(v: Volume, name: seq<byte>, ext: seq<byte>, size: nat, spc: nat)
    requires NameOk(name, ext) && |v.fat| >= 2 && EffSize(size) <= 512 * spc
    requires WriteTarget(v, name, ext, size).Target? && WriteTarget(v, name, ext, size).claim
    ensures Fits(v, name, ext, size, spc)
  {
    hide EffSize, MatchIn;
  }

  lemma NewIsPlain(v: Volume, name: seq<byte>, ext: seq<byte>, size: nat)
    requires NameOk(name, ext) && |v.fat| >= 2
    ensures var t := WriteTarget(v, name, ext, size);
      t.Target? && t.claim ==> !IsDirectory(t.e)
  {
    hide EffSize, MatchIn;
  }

  /** Whatever the geometry and the names: write two files of at most a cluster to a
      blank disk that reaches as far as the second one, then write the first again, larger
      than a cluster. The second one's bytes change unless the sector that runs over
      happens to hold what was there. */
  lemma OversizeChangesNeighbour(g: Geo, n: nat, n1: seq<byte>, x1: seq<byte>, s1: nat, b1: seq<byte>,
                                 n2: seq<byte>, x2: seq<byte>, s2: nat, b2: seq<byte>, size: nat,
                                     buf: seq<byte>, out: Entry)
    requires NameOk(n1, x1) && NameOk(n2, x2) && BufferOk(s1, b1) && BufferOk(s2, b2) && BufferOk(size, buf)
    requires g.ClusterLba(3) < n && (n1 != n2 || x1 != x2)
    requires EffSize(s1) <= 512 * g.spc && EffSize(s2) <= 512 * g.spc
    requires Canonical(n2, x2) && SectorCount(EffSize(size)) > g.spc && Chunk(buf, g.spc) != Chunk(b2, 0)
    ensures var d2 := TwoFiles(g, n, n1, x1, s1, b1, n2, x2, s2, b2);
      && StoreInv(d2, g)
      && ReadFile(Apply(d2, WritePlan(d2, g, n1, x1, size, buf)), g, n2, x2, out) != ReadFile(d2, g, n2, x2, out)
  {
    hide View, WriteTarget, Apply, WritePlan, NameOk, GeoOk, VolumeInv, Mirrored, Lookup, ReadSector, Chunk, EffSize,
         ReadFile, Geo.DataLba, Geo.RootLba, Geo.ClusterLba, TwoFiles, Canonical, SectorCount, SectorsToRead;
    CanonicalText(n2, x2);
    AboveRoot(g, 3);
    TwoFilesState(g, n, n1, x1, s1, b1, n2, x2, s2, b2);
    var d2 := TwoFiles(g, n, n1, x1, s1, b1, n2, x2, s2, b2);
    FatLayout(g, d2);
    TailOf(View(d2, g), g.spc);
    RewriteFirst(View(d2, g), n1, x1, size);
    OtherFileAfterWriteIff(d2, g, n1, x1, size, buf, n2, x2, out);
    NextCluster(g, 2);
    var l := g.ClusterLba(3);
    SmallSize(EffSize(s2));
    AtLeastOne(EffSize(s2));
    assert Chunk(buf, l - g.ClusterLba(2)) != ReadSector(d2, l);
  }

  // The default geometry of `init_disk`, with one sector to a cluster, on 10 MB.
  const DEFAULT: Geo := Geo(1, 2, 32, 1)
  const DEFAULT_SECTORS: nat := 20480

  // "A       ", "B       " and "TXT"
  const NAME_A: seq<byte> := [65, 32, 32, 32, 32, 32, 32, 32]
  const NAME_B: seq<byte> := [66, 32, 32, 32, 32, 32, 32, 32]
  const TXT: seq<byte> := [84, 88, 84]

  function Filled(n: nat, x: byte): (b: seq<byte>)
    ensures |b| == n && forall i :: 0 <= i < n ==> b[i] == x
  {
    seq<byte>(n, _ => x)
  }

  /** Concretely: A.TXT and B.TXT of 512 zeros each, then A.TXT of 1024 ones. */
  lemma OversizeExample(out: Entry)
    ensures NameOk(NAME_A, TXT) && NameOk(NAME_B, TXT)
    ensures var z := Filled(512, 0);
      var d2 := TwoFiles(DEFAULT, DEFAULT_SECTORS, NAME_A, TXT, 512, z, NAME_B, TXT, 512, z);
      && StoreInv(d2, DEFAULT)
      && ReadFile(Apply(d2, WritePlan(d2, DEFAULT, NAME_A, TXT, 1024, Filled(1024, 1))), DEFAULT, NAME_B, TXT, out)
           != ReadFile(d2, DEFAULT, NAME_B, TXT, out)
  {
    hide ReadFile, Apply, WritePlan, TwoFiles, VolumeInv, Mirrored;
    CanonicalB();
    assert Chunk(Filled(1024, 1), 1)[0] == 1 && Chunk(Filled(512, 0), 0)[0] == 0;
    OversizeChangesNeighbour(DEFAULT, DEFAULT_SECTORS, NAME_A, TXT, 512, Filled(512, 0), NAME_B, TXT, 512,
        Filled(512, 0), 1024, Filled(1024, 1), out);
  }

  lemma CanonicalB()
    ensures Canonical(NAME_B, TXT)
  {
    TrimIs(NAME_B, 1);
    TrimIs(TXT, 3);
  }
}
