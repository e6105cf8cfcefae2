/** Main results on file contents: what is written is read back, and nothing else changes. */
module FatReadBack {
  import opened Bytes
  import opened FatCodec
  import opened FatVolume
  import opened FatDisk
  import opened FatFiles
  import opened FatProofs
  import opened FatInvariant
  import opened FatRead
  import opened PathSpec

  // ---------------------------------------------------------------- sectors of a file

  /** A span only depends on the sectors it covers. */
  lemma SpanSame(d: Disk, d': Disk, lba: nat, n: nat)
    requires forall l: nat :: lba <= l < lba + n ==> ReadSector(d', l) == ReadSector(d, l)
    ensures Span(d', lba, 0, 512 * n) == Span(d, lba, 0, 512 * n)
  {
    hide ReadSector;
    forall j: nat | j < 512 * n ensures Span(d', lba, 0, 512 * n)[j] == Span(d, lba, 0, 512 * n)[j] {
      assert lba <= lba + j / 512 < lba + n;
      assert ReadSector(d', lba + j / 512) == ReadSector(d, lba + j / 512);
    }
  }

  /** A file's sectors lie inside its chain. */
  lemma SectorsWithin(size: nat, clusters: nat, spc: nat)
    requires size <= 512 * Times(clusters, spc) && Times(clusters, spc) >= 1
    ensures SectorsToRead(size) <= Times(clusters, spc)
    ensures size >= 1 ==> SectorCount(size) <= Times(clusters, spc)
  {
    var k := Times(clusters, spc);
    assert (size + 511) / 512 <= k;
    assert (size + 511) % 0x1_0000_0000 <= size + 511;
  }

  // ---------------------------------------------------------------- which sectors a write touches

  /** Sectors in the cluster area are only written with file data. */
  lemma PlanTouches(d: Disk, g: Geo, name: seq<byte>, ext: seq<byte>, size: nat, buf: seq<byte>, lba: nat)
    requires GeoOk(g, d) && NameOk(name, ext) && BufferOk(size, buf)
    requires var t := WriteTarget(View(d, g), name, ext, size);
      && (t.Target? ==> lba >= g.DataLba())
      && (t.Target? ==> !(g.ClusterLba(t.e.cluster) <= lba < g.ClusterLba(t.e.cluster) + SectorCount(t.e.size)))
    ensures ReadSector(Apply(d, WritePlan(d, g, name, ext, size, buf)), lba) == ReadSector(d, lba)
  {
    hide View, WriteTarget, GeoOk, Geo.RootLba, Geo.ClusterLba, Geo.DataLba, ReadSector, Apply, EncodeDir, EncodeTable,
         NameOk, Chunk;
    FatLayout(g, d);
    var ws := WritePlan(d, g, name, ext, size, buf);
    forall k | 0 <= k < |ws| ensures ws[k].lba != lba {
    }
    UnwrittenStays(d, ws, lba);
  }

  /** Data followed only by a write to another sector stays where it was put. */
  lemma DataStays(d: Disk, a: seq<Wr>, lba: nat, n: nat, buf: seq<byte>, w: Wr, j: nat)
    requires 512 * n <= |buf| && j < n && lba + j < |d| && w.lba < lba
    ensures ReadSector(Apply(d, a + DataWrites(lba, n, buf) + [w]), lba + j) == Chunk(buf, j)
  {
    hide ReadSector, Apply, Chunk;
    var b := DataWrites(lba, n, buf);
    var ws := a + b + [w];
    assert ws[|a| + j] == b[j];
    forall m | |a| + j < m < |ws| ensures ws[m].lba != lba + j {
      if m < |a| + n { assert ws[m] == b[m - |a|]; }
    }
    LastWriteReads(d, ws, |a| + j);
  }

  lemma AboveRoot(g: Geo, c: nat)
    requires c >= 2
    ensures g.DataLba() <= g.ClusterLba(c)
  {
  }

  /** After a write the target's sectors hold the buffer. */
  lemma DataIsThere(d: Disk, g: Geo, name: seq<byte>, ext: seq<byte>, size: nat, buf: seq<byte>, j: nat)
    requires GeoOk(g, d) && NameOk(name, ext) && BufferOk(size, buf)
    requires var t := WriteTarget(View(d, g), name, ext, size);
      t.Target? && j < SectorCount(t.e.size) && g.ClusterLba(t.e.cluster) + j < |d|
    ensures var t := WriteTarget(View(d, g), name, ext, size);
      ReadSector(Apply(d, WritePlan(d, g, name, ext, size, buf)), g.ClusterLba(t.e.cluster) + j) == Chunk(buf, j)
  {
    hide View, WriteTarget, GeoOk, Geo.RootLba, Geo.DataLba, Geo.ClusterLba, ReadSector, Apply, EncodeDir, NameOk,
         Chunk, ClaimWrites, DataWrites, SectorCount, EffSize, LiveMatch;
    FatLayout(g, d);
    var t := WriteTarget(View(d, g), name, ext, size);
    AboveRoot(g, t.e.cluster);
    DataStays(d, if t.claim then ClaimWrites(d, g, t.e.cluster) else [], g.ClusterLba(t.e.cluster),
              SectorCount(t.e.size), buf, DirWrite(d, g, t.s, t.i, t.e), j);
  }

  /** Sector `l` after `n` sectors of `buf` went to the disk from `lba` on. */
  function Overlaid(d: Disk, lba: nat, n: nat, buf: seq<byte>, l: nat): Sector
    requires 512 * n <= |buf|
  {
    if lba <= l < lba + n && l < |d| then Chunk(buf, l - lba) else ReadSector(d, l)
  }

  lemma PastEnd(d: Disk, l: nat)
    ensures l >= |d| ==> ReadSector(d, l) == ZeroSector()
  {
  }

  /** What a cluster-area sector holds after a write. */
  lemma SectorAfterWrite(d: Disk, g: Geo, name: seq<byte>, ext: seq<byte>, size: nat, buf: seq<byte>, l: nat)
    requires GeoOk(g, d) && NameOk(name, ext) && BufferOk(size, buf) && l >= g.DataLba()
    requires WriteTarget(View(d, g), name, ext, size).Target?
    ensures var e := WriteTarget(View(d, g), name, ext, size).e;
      ReadSector(Apply(d, WritePlan(d, g, name, ext, size, buf)), l)
        == Overlaid(d, g.ClusterLba(e.cluster), SectorCount(e.size), buf, l)
  {
    hide View, WriteTarget, Apply, WritePlan, NameOk, GeoOk, Chunk, Geo.ClusterLba, Geo.DataLba, SectorCount, EffSize,
         ReadSector;
    FatLayout(g, d);
    PastEnd(d, l);
    PastEnd(Apply(d, WritePlan(d, g, name, ext, size, buf)), l);
    var e := WriteTarget(View(d, g), name, ext, size).e;
    var a := g.ClusterLba(e.cluster);
    if a <= l < a + SectorCount(e.size) {
      if l < |d| { DataIsThere(d, g, name, ext, size, buf, l - a); }
    } else {
      PlanTouches(d, g, name, ext, size, buf, l);
    }
  }

  // ---------------------------------------------------------------- write, then read

  /** The chain the file ends up with. */
  lemma TargetChain(v: Volume, name: seq<byte>, ext: seq<byte>, size: nat, spc: nat)
    requires NameOk(name, ext) && |v.fat| >= 2 && CrashSafe(v) && spc >= 1 && Fits(v, name, ext, size, spc)
    ensures var t := WriteTarget(v, name, ext, size);
      var fat' := Written(v, t).fat;
      t.Target? ==> ChainOk(fat', t.e.cluster) && t.e.size <= 512 * Times(Length(fat', t.e.cluster), spc)
  {
    hide SetEntry, EffSize, MatchIn;
    var t := WriteTarget(v, name, ext, size);
    if t.Target? {
      if t.claim {
        ClaimIsChain(v.fat, t.e.cluster);
      } else {
        assert Holds(v.root, t.s, t.i, t.e.cluster);
      }
    }
  }

  /** The disk holds every cluster the FAT can name. */
  predicate HoldsClusters(g: Geo, d: Disk) { g.DataLba() + Times(g.Clusters() - 2, g.spc) <= |d| }

  /** Then it holds every chain. */
  lemma ChainOnDisk(d: Disk, g: Geo, fat: Fat, c: nat, size: nat)
    requires HoldsClusters(g, d) && |fat| == g.Clusters() && ChainOk(fat, c)
    requires 1 <= size <= 512 * Times(Length(fat, c), g.spc)
    ensures g.ClusterLba(c) + SectorCount(size) <= |d|
  {
    hide Length;
    var n := Length(fat, c);
    TimesAtLeast(n, g.spc);
    SectorsWithin(size, n, g.spc);
    ClusterLbaSteps(g, c, n, g.Clusters());
  }

  lemma LookupWritten(d: Disk, g: Geo, name: seq<byte>, ext: seq<byte>, size: nat, buf: seq<byte>)
    requires GeoOk(g, d) && NameOk(name, ext) && BufferOk(size, buf)
    requires WriteTarget(View(d, g), name, ext, size).Target?
    ensures Lookup(View(Apply(d, WritePlan(d, g, name, ext, size, buf)), g).root, name, ext)
      == Found(WriteTarget(View(d, g), name, ext, size).e)
  {
    hide View, WriteTarget, Apply, WritePlan, Find, SetEntry, GeoOk;
    FatLayout(g, d);
    var ws := WritePlan(d, g, name, ext, size, buf);
    assert ws[..|ws|] == ws;
    WriteStages(d, g, name, ext, size, buf, |ws|);
    FindWritten(View(d, g), name, ext, size);
  }

  /** All sectors of the target lie on the disk. */
  predicate OnDisk(d: Disk, g: Geo, t: Target) {
    t.Target? ==> g.ClusterLba(t.e.cluster) + SectorCount(t.e.size) <= |d|
  }

  /** On a disk that holds all clusters that goes for every file that fits its chain. */
  lemma FittingIsOnDisk(d: Disk, g: Geo, name: seq<byte>, ext: seq<byte>, size: nat)
    requires HoldsClusters(g, d) && NameOk(name, ext) && CrashSafe(View(d, g))
    requires Fits(View(d, g), name, ext, size, g.spc)
    ensures OnDisk(d, g, WriteTarget(View(d, g), name, ext, size))
  {
    hide View, WriteTarget, CrashSafe, Fits, NameOk, Length, Written, HoldsClusters;
    var v, t := View(d, g), WriteTarget(View(d, g), name, ext, size);
    TargetChain(v, name, ext, size, g.spc);
    WrittenFat(v, t);
    if t.Target? { ChainOnDisk(d, g, Written(v, t).fat, t.e.cluster, t.e.size); }
  }

  lemma WrittenFat(v: Volume, t: Target)
    requires t.Target? ==> Slot(t.s, t.i) && EntryOk(t.e) && (t.claim ==> t.e.cluster < |v.fat|)
    ensures |Written(v, t).fat| == |v.fat|
  {
  }

  /** The first match is a directory with clusters of its own: a write replaces its
      contents but it stays a directory. */
  predicate NamesDirectory(v: Volume, name: seq<byte>, ext: seq<byte>) {
    var f := Lookup(v.root, name, ext);
    f.Found? && f.e.cluster >= 2 && IsDirectory(f.e)
  }

  lemma TargetIsDirectoryIff(v: Volume, name: seq<byte>, ext: seq<byte>, size: nat)
    requires NameOk(name, ext) && |v.fat| >= 2
    ensures var t := WriteTarget(v, name, ext, size);
      t.Target? ==> (IsDirectory(t.e) <==> NamesDirectory(v, name, ext))
  {
    hide MatchIn, EffSize;
  }

  lemma SmallSize(n: nat)
    requires 1 <= n <= 10240
    ensures Signed(n) == n && SectorsToRead(n) == SectorCount(n) && n <= 512 * SectorCount(n)
  {
  }

  /** Of the bytes `b` of a file at sector `lba`, those past the end of the disk are zero. */
  predicate ZeroPastEnd(d: Disk, lba: nat, b: seq<byte>) {
    forall x: nat :: x < |b| && lba + x / 512 >= |d| ==> b[x] == 0
  }

  lemma OverlaidByte(d: Disk, d': Disk, lba: nat, n: nat, buf: seq<byte>, x: nat)
    requires 512 * n <= |buf| && x / 512 < n
    requires ReadSector(d', lba + x / 512) == Overlaid(d, lba, n, buf, lba + x / 512)
    ensures x < |buf| && ByteAt(d', lba, x) == if lba + x / 512 < |d| then buf[x] else 0
  {
    assert 512 * (x / 512) + x % 512 == x;
  }

  lemma InSectors(size: nat, x: nat)
    requires x < size
    ensures x / 512 < SectorCount(size)
  {
  }

  /** A byte of the target is the one written, or zero if its place is past the end. */
  lemma TargetByte(d: Disk, g: Geo, name: seq<byte>, ext: seq<byte>, size: nat, buf: seq<byte>, x: nat)
    requires GeoOk(g, d) && NameOk(name, ext) && BufferOk(size, buf) && x < EffSize(size) <= |buf|
    requires WriteTarget(View(d, g), name, ext, size).Target?
    ensures var lba := g.ClusterLba(WriteTarget(View(d, g), name, ext, size).e.cluster);
      ByteAt(Apply(d, WritePlan(d, g, name, ext, size, buf)), lba, x) == if lba + x / 512 < |d| then buf[x] else 0
  {
    hide View, WriteTarget, Apply, WritePlan, NameOk, GeoOk, ReadSector, EffSize, Geo.ClusterLba, Geo.DataLba,
         SectorCount, Overlaid, ByteAt, LiveMatch;
    var e := WriteTarget(View(d, g), name, ext, size).e;
    var lba := g.ClusterLba(e.cluster);
    AboveRoot(g, e.cluster);
    InSectors(e.size, x);
    SectorAfterWrite(d, g, name, ext, size, buf, lba + x / 512);
    OverlaidByte(d, Apply(d, WritePlan(d, g, name, ext, size, buf)), lba, SectorCount(e.size), buf, x);
  }

  lemma BufferHolds(size: nat, buf: seq<byte>)
    requires BufferOk(size, buf)
    ensures EffSize(size) <= |buf|
  {
  }

  /** Round trip, on a disk of any size. A write that finds room is read back with the
      same size, however many clusters it runs over, and with the same bytes exactly when
      those that went past the end of the disk are zero; unless the name belongs to a
      directory, which cannot be read at all. */
  lemma WriteThenReadIff(d: Disk, g: Geo, name: seq<byte>, ext: seq<byte>, size: nat, buf: seq<byte>, out: Entry)
    requires GeoOk(g, d) && NameOk(name, ext) && Canonical(name, ext) && BufferOk(size, buf)
    requires WriteTarget(View(d, g), name, ext, size).Target?
    ensures var r := ReadFile(Apply(d, WritePlan(d, g, name, ext, size, buf)), g, name, ext, out);
      var lba := g.ClusterLba(WriteTarget(View(d, g), name, ext, size).e.cluster);
      var n := if 1 <= size <= 10240 then size else 512;
      if NamesDirectory(View(d, g), name, ext) then r.rc == -1
      else
        && r.rc == n <= |r.bytes| && n <= |buf|
        && (forall x: nat :: x < n ==> r.bytes[x] == if lba + x / 512 < |d| then buf[x] else 0)
        && (r.bytes[..n] == buf[..n] <==> ZeroPastEnd(d, lba, buf[..n]))
  {
    hide View, WriteTarget, Apply, WritePlan, NameOk, Canonical, FindEntry, BuildPath, Lookup, ReadFile, ByteAt,
         GeoOk, NamesDirectory, Geo.RootLba, Geo.ClusterLba, EffSize, Signed, SectorsToRead, SectorCount, BufferOk;
    var d' := Apply(d, WritePlan(d, g, name, ext, size, buf));
    FatLayout(g, d);
    GeoStays(d, g, WritePlan(d, g, name, ext, size, buf));
    ReadFileIs(d', g, name, ext, out);
    LookupWritten(d, g, name, ext, size, buf);
    TargetIsDirectoryIff(View(d, g), name, ext, size);
    var n, lba := EffSize(size), g.ClusterLba(WriteTarget(View(d, g), name, ext, size).e.cluster);
    EffSizeIs(size);
    SmallSize(n);
    BufferHolds(size, buf);
    if !NamesDirectory(View(d, g), name, ext) {
      var r := ReadFile(d', g, name, ext, out).bytes;
      forall x: nat | x < n ensures r[x] == if lba + x / 512 < |d| then buf[x] else 0 {
        TargetByte(d, g, name, ext, size, buf, x);
      }
      assert forall x: nat :: x < n ==> r[..n][x] == r[x] && buf[..n][x] == buf[x];
    }
  }

  lemma OnDiskLosesNothing(d: Disk, g: Geo, t: Target, b: seq<byte>)
    requires t.Target? && OnDisk(d, g, t) && |b| <= t.e.size
    ensures ZeroPastEnd(d, g.ClusterLba(t.e.cluster), b)
  {
    hide Geo.ClusterLba;
    forall x: nat | x < |b| ensures x / 512 < SectorCount(t.e.size) { InSectors(t.e.size, x); }
  }

  /** In particular every file whose sectors lie on the disk is read back whole. */
  lemma WriteThenRead(d: Disk, g: Geo, name: seq<byte>, ext: seq<byte>, size: nat, buf: seq<byte>, out: Entry)
    requires GeoOk(g, d) && NameOk(name, ext) && Canonical(name, ext) && BufferOk(size, buf)
    requires var t := WriteTarget(View(d, g), name, ext, size); t.Target? && OnDisk(d, g, t)
    requires !NamesDirectory(View(d, g), name, ext)
    ensures var r := ReadFile(Apply(d, WritePlan(d, g, name, ext, size, buf)), g, name, ext, out);
      var n := if 1 <= size <= 10240 then size else 512;
      r.rc == n <= |r.bytes| && n <= |buf| && r.bytes[..n] == buf[..n]
  {
    hide View, WriteTarget, Apply, WritePlan, ReadFile, NameOk, Canonical, NamesDirectory, GeoOk, OnDisk, BufferOk,
         ZeroPastEnd, EffSize, Geo.ClusterLba;
    BufferHolds(size, buf);
    EffSizeIs(size);
    OnDiskLosesNothing(d, g, WriteTarget(View(d, g), name, ext, size), buf[..EffSize(size)]);
    WriteThenReadIff(d, g, name, ext, size, buf, out);
  }

  /** On a disk that holds all clusters every file that fits its chain. */
  lemma FittingWriteThenRead(d: Disk, g: Geo, name: seq<byte>, ext: seq<byte>, size: nat, buf: seq<byte>, out: Entry)
    requires HoldsClusters(g, d) && CrashSafe(View(d, g)) && NameOk(name, ext) && Canonical(name, ext)
    requires BufferOk(size, buf) && Fits(View(d, g), name, ext, size, g.spc)
    requires WriteTarget(View(d, g), name, ext, size).Target? && !NamesDirectory(View(d, g), name, ext)
    ensures var r := ReadFile(Apply(d, WritePlan(d, g, name, ext, size, buf)), g, name, ext, out);
      && (1 <= size <= 10240 ==> r.rc == size <= |r.bytes| && size <= |buf| && r.bytes[..size] == buf[..size])
      && (size == 0 || size > 10240 ==> r.rc == 512 <= |r.bytes| && r.bytes[..512] == buf[..512])
  {
    hide View, WriteTarget, Apply, WritePlan, ReadFile, Fits, CrashSafe, NameOk, Canonical, NamesDirectory, OnDisk;
    FittingIsOnDisk(d, g, name, ext, size);
    WriteThenRead(d, g, name, ext, size, buf, out);
  }

  /** A file larger than a cluster runs on into the sectors of the next cluster,
      whoever owns it. */
  lemma OversizeSpills(d: Disk, g: Geo, name: seq<byte>, ext: seq<byte>, size: nat, buf: seq<byte>)
    requires GeoOk(g, d) && NameOk(name, ext) && BufferOk(size, buf)
    requires WriteTarget(View(d, g), name, ext, size).Target?
    requires SectorCount(EffSize(size)) > g.spc
    requires g.ClusterLba(WriteTarget(View(d, g), name, ext, size).e.cluster + 1) < |d|
    ensures var c := WriteTarget(View(d, g), name, ext, size).e.cluster;
      ReadSector(Apply(d, WritePlan(d, g, name, ext, size, buf)), g.ClusterLba(c + 1)) == Chunk(buf, g.spc)
  {
    hide View, WriteTarget, Apply, WritePlan, ReadSector, Chunk, NameOk, GeoOk;
    FatLayout(g, d);
    var c := WriteTarget(View(d, g), name, ext, size).e.cluster;
    NextCluster(g, c);
    DataIsThere(d, g, name, ext, size, buf, g.spc);
  }

  lemma NextCluster(g: Geo, c: nat)
    requires c >= 2
    ensures g.ClusterLba(c + 1) == g.ClusterLba(c) + g.spc
  {
    TimesAdd(c - 2, 1, g.spc);
  }

  // ---------------------------------------------------------------- other files

  /** The slot a write uses held nothing by another name. */
  lemma TargetSlotOther(v: Volume, name: seq<byte>, ext: seq<byte>, size: nat, name2: seq<byte>, ext2: seq<byte>)
    requires NameOk(name, ext) && |v.fat| >= 2 && OtherName(name, ext, name2, ext2)
    ensures var t := WriteTarget(v, name, ext, size);
      t.Target? ==> t.e.name[0] != 0 && !LiveMatch(t.e, name2, ext2) && !LiveMatch(At(v.root, t.s, t.i), name2, ext2)
  {
    hide MatchIn, EffSize, SameText;
    var t := WriteTarget(v, name, ext, size);
    if t.Target? {
      MatchesOne(t.e, name, ext, name2, ext2);
      if LiveMatch(At(v.root, t.s, t.i), name, ext) { MatchesOne(At(v.root, t.s, t.i), name, ext, name2, ext2); }
    }
  }

  /** Looking up another name finds the same entry as before. */
  lemma OtherLookupAfterWrite(v: Volume, name: seq<byte>, ext: seq<byte>, size: nat, name2: seq<byte>, ext2: seq<byte>)
    requires NameOk(name, ext) && |v.fat| >= 2 && ZeroTail(v.root) && OtherName(name, ext, name2, ext2)
    ensures var t := WriteTarget(v, name, ext, size);
      Lookup(Written(v, t).root, name2, ext2) == Lookup(v.root, name2, ext2)
    ensures var t, p := WriteTarget(v, name, ext, size), Find(v.root, 0, name2, ext2);
      t.Target? && p.Place? ==> (p.s != t.s || p.i != t.i) && At(Written(v, t).root, p.s, p.i) == At(v.root, p.s, p.i)
  {
    hide MatchIn, EffSize, SetEntry, WriteTarget, LiveMatch, ZeroTail;
    var t := WriteTarget(v, name, ext, size);
    TargetSlotOther(v, name, ext, size, name2, ext2);
    if t.Target? { FindOther(v.root, t.s, t.i, t.e, name2, ext2); }
  }

  /** Files in chains that do not meet occupy sectors that do not meet. */
  lemma RangesApart(g: Geo, fat: Fat, c: nat, a: nat, c2: nat, b: nat)
    requires 2 <= c < |fat| && 2 <= c2 < |fat| && Apart(fat, c, c2)
    requires a <= Times(Length(fat, c), g.spc) && b <= Times(Length(fat, c2), g.spc)
    ensures g.ClusterLba(c) + a <= g.ClusterLba(c2) || g.ClusterLba(c2) + b <= g.ClusterLba(c)
  {
    if c + Length(fat, c) <= c2 {
      ClusterLbaSteps(g, c, Length(fat, c), c2);
    } else {
      ClusterLbaSteps(g, c2, Length(fat, c2), c);
    }
  }

  /** In a sound volume two files' sectors are apart. */
  lemma FilesApart(v: Volume, g: Geo, s: nat, i: nat, r: nat, j: nat)
    requires CrashSafe(v) && Sized(v, g.spc) && g.spc >= 1 && Slot(s, i) && Slot(r, j) && (s != r || i != j)
    requires HasChain(At(v.root, s, i)) && HasChain(At(v.root, r, j)) && At(v.root, s, i).size >= 1
    ensures var e, e2 := At(v.root, s, i), At(v.root, r, j);
      g.ClusterLba(e.cluster) + SectorCount(e.size) <= g.ClusterLba(e2.cluster)
        || g.ClusterLba(e2.cluster) + SectorsToRead(e2.size) <= g.ClusterLba(e.cluster)
  {
    hide Length, SectorsToRead, SectorCount, Geo.ClusterLba;
    var e, e2 := At(v.root, s, i), At(v.root, r, j);
    assert Holds(v.root, s, i, e.cluster) && Holds(v.root, r, j, e2.cluster);
    assert Apart(v.fat, e.cluster, e2.cluster) && ChainOk(v.fat, e.cluster) && ChainOk(v.fat, e2.cluster);
    assert Roomy(v, e, g.spc) && Roomy(v, e2, g.spc);
    var n, n2 := Length(v.fat, e.cluster), Length(v.fat, e2.cluster);
    TimesAtLeast(n, g.spc);
    TimesAtLeast(n2, g.spc);
    SectorsWithin(e.size, n, g.spc);
    SectorsWithin(e2.size, n2, g.spc);
    RangesApart(g, v.fat, e.cluster, SectorCount(e.size), e2.cluster, SectorsToRead(e2.size));
  }

  /** `n` sectors of `buf` written from `lba` on leave the `n2` sectors from `lba2` on as
      they are: where the ranges meet on the disk, they hold the same bytes. */
  ghost predicate Spares(d: Disk, lba: nat, n: nat, buf: seq<byte>, lba2: nat, n2: nat)
    requires 512 * n <= |buf|
  {
    forall l: nat :: lba <= l < lba + n && lba2 <= l < lba2 + n2 && l < |d| ==> Chunk(buf, l - lba) == ReadSector(d, l)
  }

  lemma SpanSameIff(d: Disk, d': Disk, lba: nat, n: nat)
    ensures Span(d', lba, 0, 512 * n) == Span(d, lba, 0, 512 * n) <==>
      forall l: nat :: lba <= l < lba + n ==> ReadSector(d', l) == ReadSector(d, l)
  {
    hide ReadSector, Span;
    if forall l: nat :: lba <= l < lba + n ==> ReadSector(d', l) == ReadSector(d, l) {
      SpanSame(d, d', lba, n);
    } else {
      var l: nat :| lba <= l < lba + n && ReadSector(d', l) != ReadSector(d, l);
      SectorOfSpan(d, lba, n, l - lba);
      SectorOfSpan(d', lba, n, l - lba);
    }
  }

  lemma SectorOfSpan(d: Disk, lba: nat, n: nat, k: nat)
    requires k < n
    ensures Span(d, lba, 0, 512 * n)[512 * k..512 * (k + 1)] == ReadSector(d, lba + k)
  {
    hide ReadSector;
    var s, w := Span(d, lba, 0, 512 * n)[512 * k..512 * (k + 1)], ReadSector(d, lba + k);
    forall i: nat | i < 512 ensures s[i] == w[i] {
      assert (512 * k + i) / 512 == k && (512 * k + i) % 512 == i;
    }
  }

  lemma OtherSpanAfterWrite(d: Disk, g: Geo, name: seq<byte>, ext: seq<byte>, size: nat, buf: seq<byte>, lba2: nat,
                            n2: nat)
    requires GeoOk(g, d) && NameOk(name, ext) && BufferOk(size, buf) && lba2 >= g.DataLba()
    requires WriteTarget(View(d, g), name, ext, size).Target?
    ensures var e, d' := WriteTarget(View(d, g), name, ext, size).e, Apply(d, WritePlan(d, g, name, ext, size, buf));
      Span(d', lba2, 0, 512 * n2) == Span(d, lba2, 0, 512 * n2) <==>
      Spares(d, g.ClusterLba(e.cluster), SectorCount(e.size), buf, lba2, n2)
  {
    hide View, WriteTarget, Apply, WritePlan, NameOk, GeoOk, Chunk, ReadSector, Span, Geo.ClusterLba, Geo.DataLba,
         SectorCount;
    FatLayout(g, d);
    var d' := Apply(d, WritePlan(d, g, name, ext, size, buf));
    SpanSameIff(d, d', lba2, n2);
    forall l: nat | l >= lba2
      ensures var e := WriteTarget(View(d, g), name, ext, size).e;
        ReadSector(d', l) == Overlaid(d, g.ClusterLba(e.cluster), SectorCount(e.size), buf, l)
    {
      SectorAfterWrite(d, g, name, ext, size, buf, l);
    }
  }

  lemma LookupOther(d: Disk, g: Geo, name: seq<byte>, ext: seq<byte>, size: nat, buf: seq<byte>, name2: seq<byte>,
                    ext2: seq<byte>)
    requires GeoOk(g, d) && ZeroTail(View(d, g).root) && NameOk(name, ext) && BufferOk(size, buf)
    requires OtherName(name, ext, name2, ext2)
    ensures GeoOk(g, Apply(d, WritePlan(d, g, name, ext, size, buf)))
    ensures Lookup(View(Apply(d, WritePlan(d, g, name, ext, size, buf)), g).root, name2, ext2) ==
      Lookup(View(d, g).root, name2, ext2)
  {
    hide View, WriteTarget, Apply, WritePlan, NameOk, GeoOk, ZeroTail, Lookup, Written;
    FatLayout(g, d);
    var ws := WritePlan(d, g, name, ext, size, buf);
    assert ws[..|ws|] == ws;
    GeoStays(d, g, ws);
    WriteStages(d, g, name, ext, size, buf, |ws|);
    PlanOfNoRoom(d, g, name, ext, size, buf);
    OtherLookupAfterWrite(View(d, g), name, ext, size, name2, ext2);
  }

  /** Frame, for every size the code accepts. Another file keeps its size, and the read
      loads the same bytes exactly when the sectors written spare those it occupies. */
  lemma OtherFileAfterWriteIff(d: Disk, g: Geo, name: seq<byte>, ext: seq<byte>, size: nat, buf: seq<byte>,
                               name2: seq<byte>, ext2: seq<byte>, out: Entry)
    requires GeoOk(g, d) && ZeroTail(View(d, g).root) && NameOk(name, ext) && BufferOk(size, buf)
    requires Canonical(name2, ext2) && (name2 != name || ext2 != ext)
    requires WriteTarget(View(d, g), name, ext, size).Target?
    ensures var r, r' := ReadFile(d, g, name2, ext2, out),
        ReadFile(Apply(d, WritePlan(d, g, name, ext, size, buf)), g, name2, ext2, out);
      var f, e := Lookup(View(d, g).root, name2, ext2), WriteTarget(View(d, g), name, ext, size).e;
      && r'.rc == r.rc
      && (f.Missing? || IsDirectory(f.e) ==> r' == r)
      && (f.Found? && !IsDirectory(f.e) && f.e.cluster >= 2 ==>
            (r' == r <==> Spares(d, g.ClusterLba(e.cluster), SectorCount(e.size), buf,
                                 g.ClusterLba(f.e.cluster), SectorsToRead(f.e.size))))
  {
    hide View, WriteTarget, Apply, WritePlan, NameOk, GeoOk, Span, Spares, ZeroTail, Canonical, ReadFile, Lookup,
         Geo.ClusterLba, Geo.DataLba, SectorsToRead, SectorCount, Signed;
    FatLayout(g, d);
    CanonicalText(name2, ext2);
    OtherNameIff(name, ext, name2, ext2);
    LookupOther(d, g, name, ext, size, buf, name2, ext2);
    ReadFileIs(d, g, name2, ext2, out);
    ReadFileIs(Apply(d, WritePlan(d, g, name, ext, size, buf)), g, name2, ext2, out);
    var f := Lookup(View(d, g).root, name2, ext2);
    if f.Found? && f.e.cluster >= 2 {
      InClusterArea(g, f.e.cluster);
      OtherSpanAfterWrite(d, g, name, ext, size, buf, g.ClusterLba(f.e.cluster), SectorsToRead(f.e.size));
    }
  }

  lemma InClusterArea(g: Geo, c: nat)
    requires c >= 2
    ensures g.ClusterLba(c) >= g.DataLba()
  {
  }

  /** The volume after a write that fits. */
  lemma AfterWrite(d: Disk, g: Geo, name: seq<byte>, ext: seq<byte>, size: nat, buf: seq<byte>)
    requires StoreInv(d, g) && NameOk(name, ext) && BufferOk(size, buf) && Fits(View(d, g), name, ext, size, g.spc)
    ensures g.spc >= 1 && GeoOk(g, Apply(d, WritePlan(d, g, name, ext, size, buf)))
    ensures var v' := Written(View(d, g), WriteTarget(View(d, g), name, ext, size));
      View(Apply(d, WritePlan(d, g, name, ext, size, buf)), g) == v' && VolumeInv(v', g.spc)
  {
    hide View, WriteTarget, Apply, WritePlan, VolumeInv, Fits, NameOk, Mirrored, Written;
    var ws := WritePlan(d, g, name, ext, size, buf);
    assert ws[..|ws|] == ws;
    WriteStages(d, g, name, ext, size, buf, |ws|);
    WriteKeepsInvIff(d, g, name, ext, size, buf);
    PlanOfNoRoom(d, g, name, ext, size, buf);
  }

  /** A write that fits spares every other file. */
  lemma FittingWriteSpares(d: Disk, g: Geo, name: seq<byte>, ext: seq<byte>, size: nat, buf: seq<byte>,
                           name2: seq<byte>, ext2: seq<byte>)
    requires StoreInv(d, g) && NameOk(name, ext) && BufferOk(size, buf) && Fits(View(d, g), name, ext, size, g.spc)
    requires OtherName(name, ext, name2, ext2)
    requires WriteTarget(View(d, g), name, ext, size).Target?
    requires var f := Lookup(View(d, g).root, name2, ext2); f.Found? && f.e.cluster >= 2
    ensures var f, e := Lookup(View(d, g).root, name2, ext2), WriteTarget(View(d, g), name, ext, size).e;
      Spares(d, g.ClusterLba(e.cluster), SectorCount(e.size), buf, g.ClusterLba(f.e.cluster), SectorsToRead(f.e.size))
  {
    hide View, WriteTarget, Apply, WritePlan, CrashSafe, Tight, Sized, ZeroTail, Fits, NameOk, MatchIn, Mirrored, GeoOk,
         SetEntry, SectorsToRead, SectorCount, Geo.ClusterLba, ReadSector, Chunk;
    FatLayout(g, d);
    var v, t, p := View(d, g), WriteTarget(View(d, g), name, ext, size), Find(View(d, g).root, 0, name2, ext2);
    AfterWrite(d, g, name, ext, size, buf);
    OtherLookupAfterWrite(v, name, ext, size, name2, ext2);
    FilesApart(Written(v, t), g, t.s, t.i, p.s, p.i);
  }

  /** So, when files fit their clusters, every other file reads as before: same size,
      same bytes. */
  lemma OtherFilesAfterWrite(d: Disk, g: Geo, name: seq<byte>, ext: seq<byte>, size: nat, buf: seq<byte>,
                             name2: seq<byte>, ext2: seq<byte>, out: Entry)
    requires StoreInv(d, g) && NameOk(name, ext) && BufferOk(size, buf) && Fits(View(d, g), name, ext, size, g.spc)
    requires Canonical(name2, ext2) && (name2 != name || ext2 != ext)
    ensures var r, r' := ReadFile(d, g, name2, ext2, out),
        ReadFile(Apply(d, WritePlan(d, g, name, ext, size, buf)), g, name2, ext2, out);
      var f := Lookup(View(d, g).root, name2, ext2);
      r'.rc == r.rc && (f.Found? && f.e.cluster >= 2 ==> r' == r)
  {
    hide View, WriteTarget, Apply, WritePlan, VolumeInv, Fits, NameOk, Mirrored, GeoOk, Lookup, ReadFile, Canonical,
         Spares, SectorsToRead, SectorCount, Geo.ClusterLba;
    FatLayout(g, d);
    TailOf(View(d, g), g.spc);
    if WriteTarget(View(d, g), name, ext, size).NoRoom? {
      PlanOfNoRoom(d, g, name, ext, size, buf);
      ApplyNone(d);
    } else {
      OtherFileAfterWriteIff(d, g, name, ext, size, buf, name2, ext2, out);
      CanonicalText(name2, ext2);
      OtherNameIff(name, ext, name2, ext2);
      var f := Lookup(View(d, g).root, name2, ext2);
      if f.Found? && f.e.cluster >= 2 { FittingWriteSpares(d, g, name, ext, size, buf, name2, ext2); }
    }
  }

  lemma TailOf(v: Volume, spc: nat)
    requires VolumeInv(v, spc)
    ensures ZeroTail(v.root)
  {
  }

  // ---------------------------------------------------------------- after a delete

  lemma AfterDelete(d: Disk, g: Geo, name: seq<byte>, ext: seq<byte>)
    requires GeoOk(g, d) && DeleteOk(View(d, g), name, ext)
    requires Find(View(d, g).root, 0, name, ext).Place?
    ensures GeoOk(g, Apply(d, DeletePlan(d, g, name, ext)))
    ensures var p := Find(View(d, g).root, 0, name, ext);
      View(Apply(d, DeletePlan(d, g, name, ext)), g).root ==
          SetEntry(View(d, g).root, p.s, p.i, Retired(At(View(d, g).root, p.s, p.i)))
  {
    hide View, Apply, Find, SetEntry, Cleared, Retired, MatchIn, GeoOk;
    var ws := DeletePlan(d, g, name, ext);
    assert ws[..|ws|] == ws;
    GeoStays(d, g, ws);
    DeleteStages(d, g, name, ext, |ws|);
  }

  lemma DeleteTouches(d: Disk, g: Geo, name: seq<byte>, ext: seq<byte>, lba: nat)
    requires GeoOk(g, d) && DeleteOk(View(d, g), name, ext) && lba >= g.DataLba()
    ensures ReadSector(Apply(d, DeletePlan(d, g, name, ext)), lba) == ReadSector(d, lba)
  {
    hide View, GeoOk, Geo.RootLba, Geo.DataLba, ReadSector, Apply, EncodeDir, EncodeTable, MatchIn, ClearedTable,
         Length;
    FatLayout(g, d);
    UnwrittenStays(d, DeletePlan(d, g, name, ext), lba);
  }

  /** Frame. Every other file reads as before a delete. */
  lemma OtherFilesAfterDelete(d: Disk, g: Geo, name: seq<byte>, ext: seq<byte>, name2: seq<byte>, ext2: seq<byte>,
                              out: Entry)
    requires GeoOk(g, d) && ZeroTail(View(d, g).root) && DeleteOk(View(d, g), name, ext)
    requires Canonical(name2, ext2) && (name2 != name || ext2 != ext)
    ensures GeoOk(g, Apply(d, DeletePlan(d, g, name, ext)))
    ensures Lookup(View(Apply(d, DeletePlan(d, g, name, ext)), g).root, name2, ext2) ==
      Lookup(View(d, g).root, name2, ext2)
    ensures var r, r' := ReadFile(d, g, name2, ext2, out),
        ReadFile(Apply(d, DeletePlan(d, g, name, ext)), g, name2, ext2, out);
      var f := Lookup(View(d, g).root, name2, ext2);
      r'.rc == r.rc && (f.Found? && f.e.cluster >= 2 ==> r' == r)
  {
    hide View, Apply, DeletePlan, Span, ZeroTail, GeoOk, FindEntry, BuildPath, ReadFile, Canonical, DeleteOk, MatchIn,
         SetEntry, Retired, ReadSector, Geo.ClusterLba, Geo.DataLba;
    var d' := Apply(d, DeletePlan(d, g, name, ext));
    var p := Find(View(d, g).root, 0, name, ext);
    ApplyNone(d);
    if p.Nowhere? {
      NothingToDelete(d, g, name, ext);
    } else {
      AfterDelete(d, g, name, ext);
      CanonicalText(name2, ext2);
      OtherNameIff(name, ext, name2, ext2);
      MatchesOne(At(View(d, g).root, p.s, p.i), name, ext, name2, ext2);
      FindOther(View(d, g).root, p.s, p.i, Retired(At(View(d, g).root, p.s, p.i)), name2, ext2);
      ReadFileIs(d, g, name2, ext2, out);
      ReadFileIs(d', g, name2, ext2, out);
      var f := Lookup(View(d, g).root, name2, ext2);
      if f.Found? && f.e.cluster >= 2 {
        InClusterArea(g, f.e.cluster);
        forall l: nat | g.ClusterLba(f.e.cluster) <= l ensures ReadSector(d', l) == ReadSector(d, l) {
          DeleteTouches(d, g, name, ext, l);
        }
        SpanSame(d, d', g.ClusterLba(f.e.cluster), SectorsToRead(f.e.size));
      }
    }
  }

  lemma NothingToDelete(d: Disk, g: Geo, name: seq<byte>, ext: seq<byte>)
    requires GeoOk(g, d) && DeleteOk(View(d, g), name, ext)
    ensures Find(View(d, g).root, 0, name, ext).Nowhere? <==> DeletePlan(d, g, name, ext) == []
  {
    hide View, MatchIn, ReturnWrites, DirWrite;
  }
}
