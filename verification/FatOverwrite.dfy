/** Contents over any run, files that outgrow their clusters included: every byte of a
    file is that of the last write that reached its place on the disk. */
module FatOverwrite {
  import opened Bytes
  import opened FatCodec
  import opened FatVolume
  import opened FatDisk
  import opened FatFiles
  import opened FatProofs
  import opened FatInvariant
  import opened FatRead
  import opened FatReadBack
  import opened FatNames
  import opened FatRuns
  import opened PathSpec

  /** The bytes `b` of a file at sector `at`, once `n` sectors of `buf` went to the disk of
      `size` sectors from `lba` on. */
  function Overlay(size: nat, at: nat, b: seq<byte>, lba: nat, n: nat, buf: seq<byte>): (r: seq<byte>)
    requires 512 * n <= |buf|
    ensures |r| == |b|
  {
    seq<byte>(|b|, x requires 0 <= x < |b| =>
      var l: nat := at + x / 512;
      if lba <= l < lba + n && l < size then buf[512 * (l - lba) + x % 512] else b[x])
  }

  function Zeros(n: nat): (b: seq<byte>)
    ensures |b| == n
  {
    seq<byte>(n, _ => 0)
  }

  /** What one operation, on any name and of any size, makes of the contents of a name. */
  function NextAny(d: Disk, g: Geo, op: Op, name: seq<byte>, ext: seq<byte>, was: Contents): Contents
    requires Callable(d, g, op)
  {
    var same := op.name == name && op.ext == ext;
    if op.DeleteFile? then (if same then Nothing else was) else
    var t := WriteTarget(View(d, g), op.name, op.ext, op.size);
    if t.NoRoom? then was else
    var lba, n := g.ClusterLba(t.e.cluster), SectorCount(t.e.size);
    var size := if 1 <= op.size <= 10240 then op.size else 512;
    if same then Contents(Overlay(|d|, lba, Zeros(size), lba, n, op.buf)) else
    var f := Lookup(View(d, g).root, name, ext);
    if was.Nothing? || f.Missing? then was
    else Contents(Overlay(|d|, g.ClusterLba(f.e.cluster), was.bytes, lba, n, op.buf))
  }

  function LastLanded(d: Disk, g: Geo, ops: seq<Op>, name: seq<byte>, ext: seq<byte>, was: Contents): Contents
    requires AllCallable(d, g, ops)
    decreases |ops|
  {
    if ops == [] then was
    else LastLanded(Apply(d, Plan(d, g, ops[0])), g, ops[1..], name, ext, NextAny(d, g, ops[0], name, ext, was))
  }

  /** Names are found and unique; nothing is asked of sizes. */
  ghost predicate NamesOk(d: Disk, g: Geo) { GeoOk(g, d) && ZeroTail(View(d, g).root) && UniqueNames(View(d, g).root) }

  lemma OpKeepsTail(d: Disk, g: Geo, op: Op)
    requires GeoOk(g, d) && ZeroTail(View(d, g).root) && Callable(d, g, op)
    ensures GeoOk(g, Apply(d, Plan(d, g, op))) && ZeroTail(View(Apply(d, Plan(d, g, op)), g).root)
  {
    hide View, WriteTarget, Apply, WritePlan, DeletePlan, ZeroTail, NameOk, GeoOk, DeleteOk, Written, BufferOk, Retired,
         SetEntry, MatchIn;
    match op
    case DeleteFile(name, ext) =>
      var p := Find(View(d, g).root, 0, name, ext);
      if p.Nowhere? {
        NothingToDelete(d, g, name, ext);
        ApplyNone(d);
      } else {
        AfterDelete(d, g, name, ext);
        LiveBefore(View(d, g).root, p.s, p.i);
        ZeroTailKept(View(d, g).root, p.s, p.i, Retired(At(View(d, g).root, p.s, p.i)));
      }
    case WriteFile(name, ext, size, buf) =>
      ViewAfter(d, g, name, ext, size, buf);
      TargetTail(View(d, g), name, ext, size);
  }

  /** A byte of a loaded file is the byte at its place on the disk. */
  lemma LoadedByte(d: Disk, g: Geo, e: Entry, x: nat)
    requires !IsDirectory(e) && x < 512 * SectorsToRead(e.size)
    ensures Load(d, g, Found(e)).bytes[x] == ReadSector(d, g.ClusterLba(e.cluster) + x / 512)[x % 512]
  {
    hide ReadSector, SectorsToRead, Geo.ClusterLba;
  }

  /** A file read after a write, from what it read as before and what was written. */
  lemma ReadsOverlaid(d: Disk, g: Geo, op: Op, e: Entry, b: seq<byte>)
    requires GeoOk(g, d) && op.WriteFile? && Callable(d, g, op)
    requires WriteTarget(View(d, g), op.name, op.ext, op.size).Target?
    requires e.cluster >= 2 && !IsDirectory(e) && |b| <= 512 * SectorsToRead(e.size)
    requires forall x: nat :: x < |b| ==> Replaced(d, g, op, e, x) || b[x] == Before(d, g, e, x)
    ensures var t := WriteTarget(View(d, g), op.name, op.ext, op.size).e;
      var r := Load(Apply(d, Plan(d, g, op)), g, Found(e)).bytes;
      |b| <= |r| && r[..|b|] ==
          Overlay(|d|, g.ClusterLba(e.cluster), b, g.ClusterLba(t.cluster), SectorCount(t.size), op.buf)
  {
    hide View, WriteTarget, Apply, WritePlan, NameOk, GeoOk, Geo.ClusterLba, SectorCount, SectorsToRead, ReadSector,
         Load, EffSize;
    var t, at := WriteTarget(View(d, g), op.name, op.ext, op.size).e, g.ClusterLba(e.cluster);
    var d' := Apply(d, Plan(d, g, op));
    LoadedSize(d', g, e);
    InClusterArea(g, e.cluster);
    var r := Load(d', g, Found(e)).bytes;
    forall x: nat | x < |b|
      ensures r[x] == Overlay(|d|, at, b, g.ClusterLba(t.cluster), SectorCount(t.size), op.buf)[x]
    {
      LoadedByte(d', g, e, x);
      SectorAfterWrite(d, g, op.name, op.ext, op.size, op.buf, at + x / 512);
    }
  }

  lemma LoadedSize(d: Disk, g: Geo, e: Entry)
    requires !IsDirectory(e)
    ensures |Load(d, g, Found(e)).bytes| == 512 * SectorsToRead(e.size) && Load(d, g, Found(e)).rc == Signed(e.size)
  {
  }

  /** The byte at place `x` of a file. */
  function Before(d: Disk, g: Geo, e: Entry, x: nat): byte { ReadSector(d, g.ClusterLba(e.cluster) + x / 512)[x % 512] }

  /** The write reaches that place. */
  predicate Replaced(d: Disk, g: Geo, op: Op, e: Entry, x: nat)
    requires op.WriteFile? && Callable(d, g, op) && WriteTarget(View(d, g), op.name, op.ext, op.size).Target?
  {
    var t, l := WriteTarget(View(d, g), op.name, op.ext, op.size).e, g.ClusterLba(e.cluster) + x / 512;
    g.ClusterLba(t.cluster) <= l < g.ClusterLba(t.cluster) + SectorCount(t.size) && l < |d|
  }

  /** What a name reads as, byte by byte. */
  lemma ReadsBytes(d: Disk, g: Geo, name: seq<byte>, ext: seq<byte>, out: Entry, b: seq<byte>)
    requires GeoOk(g, d) && Canonical(name, ext) && ReadsAs(d, g, name, ext, out, Contents(b))
    ensures var f := Lookup(View(d, g).root, name, ext);
      && f.Found? && f.e.cluster >= 2 && !IsDirectory(f.e) && |b| == Signed(f.e.size)
      && |b| <= 512 * SectorsToRead(f.e.size)
      && forall x: nat :: x < |b| ==> b[x] == Before(d, g, f.e, x)
  {
    hide View, Lookup, ReadFile, GeoOk, Canonical, Load, SectorsToRead;
    ReadFileIs(d, g, name, ext, out);
    var f := Lookup(View(d, g).root, name, ext);
    LoadedSize(d, g, f.e);
    forall x: nat | x < |b| ensures b[x] == Before(d, g, f.e, x) {
      assert b[x] == Load(d, g, f).bytes[..|b|][x];
      LoadedByte(d, g, f.e, x);
    }
  }

  lemma OtherReads(d: Disk, g: Geo, op: Op, name: seq<byte>, ext: seq<byte>, out: Entry, was: Contents)
    requires NamesOk(d, g) && op.WriteFile? && Callable(d, g, op) && Canonical(name, ext) &&
        (op.name != name || op.ext != ext)
    requires WriteTarget(View(d, g), op.name, op.ext, op.size).Target? && ReadsAs(d, g, name, ext, out, was)
    ensures ReadsAs(Apply(d, Plan(d, g, op)), g, name, ext, out, NextAny(d, g, op, name, ext, was))
  {
    hide View, WriteTarget, Apply, WritePlan, NameOk, BufferOk, GeoOk, Lookup, ReadFile, Canonical, ZeroTail,
         UniqueNames, Load, Geo.ClusterLba, SectorCount, SectorsToRead, Signed, Replaced, Before, Overlay;
    CanonicalText(name, ext);
    OtherNameIff(op.name, op.ext, name, ext);
    LookupOther(d, g, op.name, op.ext, op.size, op.buf, name, ext);
    ReadFileIs(Apply(d, Plan(d, g, op)), g, name, ext, out);
    var f := Lookup(View(d, g).root, name, ext);
    if was.Contents? {
      ReadsBytes(d, g, name, ext, out, was.bytes);
      LoadedSize(Apply(d, Plan(d, g, op)), g, f.e);
      ReadsOverlaid(d, g, op, f.e, was.bytes);
    } else {
      MissingLoads(Apply(d, Plan(d, g, op)), g);
    }
  }

  lemma MissingLoads(d: Disk, g: Geo)
    ensures Load(d, g, Missing).rc == -1
  {
  }

  lemma SameReads(d: Disk, g: Geo, op: Op, out: Entry, was: Contents)
    requires NamesOk(d, g) && op.WriteFile? && Callable(d, g, op) && Canonical(op.name, op.ext)
    requires WriteTarget(View(d, g), op.name, op.ext, op.size).Target? && ReadsAs(d, g, op.name, op.ext, out, was)
    ensures ReadsAs(Apply(d, Plan(d, g, op)), g, op.name, op.ext, out, NextAny(d, g, op, op.name, op.ext, was))
  {
    hide View, WriteTarget, Apply, WritePlan, NameOk, BufferOk, GeoOk, Lookup, ReadFile, Canonical, ZeroTail,
         UniqueNames, Load, Geo.ClusterLba, EffSize, SectorCount, SectorsToRead, Signed, Before, Overlay, ReadSector;
    var e := WriteTarget(View(d, g), op.name, op.ext, op.size).e;
    FatLayout(g, d);
    GeoStays(d, g, WritePlan(d, g, op.name, op.ext, op.size, op.buf));
    ReadFileIs(Apply(d, Plan(d, g, op)), g, op.name, op.ext, out);
    LookupWritten(d, g, op.name, op.ext, op.size, op.buf);
    TargetIsDirectoryIff(View(d, g), op.name, op.ext, op.size);
    LoadedSize(Apply(d, Plan(d, g, op)), g, e);
    SmallSize(e.size);
    EffSizeIs(op.size);
    forall x: nat | x < e.size ensures Replaced(d, g, op, e, x) || Zeros(e.size)[x] == Before(d, g, e, x) {
      PlaceInTarget(d, g, e, x);
    }
    ReadsOverlaid(d, g, op, e, Zeros(e.size));
  }

  lemma PlaceInTarget(d: Disk, g: Geo, e: Entry, x: nat)
    requires x < e.size
    ensures x / 512 < SectorCount(e.size)
    ensures g.ClusterLba(e.cluster) + x / 512 >= |d| ==> Before(d, g, e, x) == 0
  {
    hide Geo.ClusterLba;
  }

  lemma OpReadsAny(d: Disk, g: Geo, op: Op, name: seq<byte>, ext: seq<byte>, out: Entry, was: Contents)
    requires NamesOk(d, g) && Callable(d, g, op) && Canonical(name, ext) && ReadsAs(d, g, name, ext, out, was)
    ensures NamesOk(Apply(d, Plan(d, g, op)), g)
    ensures ReadsAs(Apply(d, Plan(d, g, op)), g, name, ext, out, NextAny(d, g, op, name, ext, was))
  {
    hide View, WriteTarget, Apply, WritePlan, DeletePlan, GeoOk, Canonical, ZeroTail, UniqueNames, ReadsAs, DeleteOk,
         NameOk, BufferOk;
    OpKeepsTail(d, g, op);
    OpKeepsNames(d, g, op);
    match op
    case DeleteFile(n, x) => DeleteAny(d, g, op, name, ext, out, was);
    case WriteFile(n, x, size, buf) =>
      FatLayout(g, d);
      if WriteTarget(View(d, g), n, x, size).NoRoom? {
        PlanOfNoRoom(d, g, n, x, size, buf);
        ApplyNone(d);
      } else if n == name && x == ext {
        SameReads(d, g, op, out, was);
      } else {
        OtherReads(d, g, op, name, ext, out, was);
      }
  }

  /** Over any run the code can carry out, reading a name gives the size of its last
      successful write since it was last deleted, and each byte as it last landed. */
  lemma {:induction false} RunReadsAny(d: Disk, g: Geo, ops: seq<Op>, name: seq<byte>, ext: seq<byte>, out: Entry,
                                       was: Contents)
    requires NamesOk(d, g) && AllCallable(d, g, ops) && Canonical(name, ext) && ReadsAs(d, g, name, ext, out, was)
    ensures ReadsAs(Apply(d, History(d, g, ops)), g, name, ext, out, LastLanded(d, g, ops, name, ext, was))
    decreases |ops|
  {
    hide View, Apply, Plan, NamesOk, ReadsAs, Canonical, Callable, NextAny;
    ApplyNone(d);
    if ops != [] {
      var ws := Plan(d, g, ops[0]);
      OpReadsAny(d, g, ops[0], name, ext, out, was);
      RunReadsAny(Apply(d, ws), g, ops[1..], name, ext, out, NextAny(d, g, ops[0], name, ext, was));
      ApplyConcat(d, ws, History(Apply(d, ws), g, ops[1..]));
    }
  }

  /** From a blank disk of any size that holds the root directory. */
  lemma AnyRunReadsWhatLanded(g: Geo, n: nat, ops: seq<Op>, name: seq<byte>, ext: seq<byte>, out: Entry)
    requires g.DataLba() <= n && Canonical(name, ext) && AllCallable(BlankDisk(n), g, ops)
    ensures var r := ReadFile(Apply(BlankDisk(n), History(BlankDisk(n), g, ops)), g, name, ext, out);
      match LastLanded(BlankDisk(n), g, ops, name, ext, Nothing)
      case Nothing => r.rc == -1
      case Contents(b) => r.rc == |b| <= |r.bytes| && r.bytes[..|b|] == b
  {
    hide View, BlankDisk, AllCallable, History, Apply, VolumeInv, Mirrored, LastLanded, Canonical, GeoOk, ReadFile,
         Lookup, UniqueNames, ZeroTail;
    var d := BlankDisk(n);
    BlankDiskIsSound(g, n);
    TailOf(View(d, g), g.spc);
    BlankReadsNothing(g, n, name, ext, out);
    RunReadsAny(d, g, ops, name, ext, out, Nothing);
  }
}
