/** The disk as an array of sectors, the FAT16 volume it holds, and runs of
    single-sector writes. */
module FatDisk {
  import opened Bytes
  import opened FatCodec
  import opened FatVolume

  type Disk = seq<Sector>

  type Positive = n: int | 1 <= n witness 1
  type TableSectors = n: int | 1 <= n <= 255 witness 1

  /** What `init_disk` reads from the boot sector, for a 512-entry root directory. */
  datatype Geo = Geo(reserved: nat, fatCount: Positive, spf: TableSectors, spc: Positive)
  {
    function RootLba(): nat { reserved + Times(fatCount, spf) }
    function DataLba(): nat { RootLba() + 32 }
    function Clusters(): nat { 256 * spf }

    /** `cluster_to_lba` */
    function ClusterLba(c: nat): nat { if c < 2 then RootLba() else DataLba() + Times(c - 2, spc) }
  }

  /** The disk reaches as far as the root directory. The FAT may well name clusters past
      its end. */
  predicate GeoOk(g: Geo, d: Disk) { g.DataLba() <= |d| }

  function ZeroSector(): Sector { seq(512, _ => 0) }

  /** A sector past the end of the disk reads as zeros. */
  function ReadSector(d: Disk, lba: nat): Sector { if lba < |d| then d[lba] else ZeroSector() }

  /** One sector reaching the platter. */
  datatype Wr = Wr(lba: nat, data: Sector)

  /** A write past the end of the disk has no effect. */
  function WriteSector(d: Disk, w: Wr): (d': Disk)
    ensures |d'| == |d|
    ensures forall l: nat :: ReadSector(d', l) == if l == w.lba && l < |d| then w.data else ReadSector(d, l)
  {
    if w.lba < |d| then d[w.lba := w.data] else d
  }

  function Apply(d: Disk, ws: seq<Wr>): (d': Disk)
    ensures |d'| == |d|
  {
    if ws == [] then d else WriteSector(Apply(d, ws[..|ws| - 1]), ws[|ws| - 1])
  }

  lemma ApplyPrefix(d: Disk, ws: seq<Wr>, k: nat)
    requires k < |ws|
    ensures Apply(d, ws[..k + 1]) == WriteSector(Apply(d, ws[..k]), ws[k])
  {
    assert ws[..k + 1][..k] == ws[..k];
  }

  lemma {:induction false} ApplyConcat(d: Disk, a: seq<Wr>, b: seq<Wr>)
    ensures Apply(d, a + b) == Apply(Apply(d, a), b)
    decreases |b|
  {
    if b == [] {
      assert a + b == a;
    } else {
      ApplyConcat(d, a, b[..|b| - 1]);
      assert (a + b)[..|a + b| - 1] == a + b[..|b| - 1];
    }
  }

  lemma {:induction false} UnwrittenStays(d: Disk, ws: seq<Wr>, lba: nat)
    requires forall k :: 0 <= k < |ws| ==> ws[k].lba != lba
    ensures ReadSector(Apply(d, ws), lba) == ReadSector(d, lba)
    decreases |ws|
  {
    if ws != [] {
      UnwrittenStays(d, ws[..|ws| - 1], lba);
    }
  }

  lemma {:induction false} LastWriteReads(d: Disk, ws: seq<Wr>, k: nat)
    requires k < |ws| && ws[k].lba < |d|
    requires forall m :: k < m < |ws| ==> ws[m].lba != ws[k].lba
    ensures ReadSector(Apply(d, ws), ws[k].lba) == ws[k].data
    decreases |ws|
  {
    if k < |ws| - 1 {
      LastWriteReads(d, ws[..|ws| - 1], k);
    }
  }

  // ---------------------------------------------------------------- the volume on the disk

  function TableAt(d: Disk, lba: nat): Table { DecodeTable(ReadSector(d, lba)) }
  function DirAt(d: Disk, lba: nat): Dir { DecodeDir(ReadSector(d, lba)) }

  /** The table made of `spf` sectors from `lba` on. */
  function FatAt(d: Disk, lba: nat, spf: nat): (t: Fat)
    requires spf <= 255
    ensures |t| == 256 * spf
  {
    seq(256 * spf, x requires 0 <= x < 256 * spf => TableAt(d, lba + x / 256)[x % 256])
  }

  /** The `n` directory sectors from `lba` on. */
  function DirsAt(d: Disk, lba: nat, n: nat): (ds: seq<Dir>)
    ensures |ds| == n
    ensures forall s: nat :: s < n ==> ds[s] == DirAt(d, lba + s)
  {
    seq<Dir>(n, s requires 0 <= s < n => DirAt(d, lba + s))
  }

  /** The volume as the first FAT and the root directory describe it. */
  function View(d: Disk, g: Geo): (v: Volume)
    ensures |v.fat| == g.Clusters()
  {
    Volume(FatAt(d, g.reserved, g.spf), DirsAt(d, g.RootLba(), 32))
  }

  /** The second FAT, if any, equals the first. */
  predicate Mirrored(d: Disk, g: Geo) {
    g.fatCount > 1 ==> FatAt(d, g.reserved + g.spf, g.spf) == FatAt(d, g.reserved, g.spf)
  }

  /** Boot area, FAT copies, root directory and clusters follow one another. */
  lemma FatLayout(g: Geo, d: Disk)
    requires GeoOk(g, d)
    ensures 1 <= g.spf <= 255 && g.reserved + g.spf <= g.RootLba() && g.RootLba() + 32 == g.DataLba() <= |d|
    ensures g.fatCount > 1 ==> g.reserved + 2 * g.spf <= g.RootLba()
  {
    hide Geo.DataLba;
    TimesAtLeast(g.fatCount, g.spf);
    LbaOrder(g);
  }

  lemma LbaOrder(g: Geo)
    ensures g.RootLba() + 32 == g.DataLba() && g.RootLba() == g.reserved + Times(g.fatCount, g.spf)
  {
  }

  /** Clusters map to disjoint ranges of sectors, in order. */
  lemma ClusterLbaSteps(g: Geo, c: nat, n: nat, c': nat)
    requires 2 <= c && c + n <= c'
    ensures g.ClusterLba(c) + Times(n, g.spc) <= g.ClusterLba(c')
  {
    TimesAdd(c - 2, n, g.spc);
    TimesAdd(c - 2 + n, c' - c - n, g.spc);
  }

  // ---------------------------------------------------------------- single-sector writes

  /** The table with the 256 entries of sector `f` replaced. */
  function WithTable(fat: Fat, f: nat, t: Table): (r: Fat)
    ensures |r| == |fat|
  {
    seq(|fat|, x requires 0 <= x < |fat| => if x / 256 == f then t[x % 256] else fat[x])
  }

  lemma FatAtWritten(d: Disk, lba: nat, spf: nat, f: nat, t: Table)
    requires f < spf <= 255 && lba + spf <= |d|
    ensures FatAt(WriteSector(d, Wr(lba + f, EncodeTable(t))), lba, spf) == WithTable(FatAt(d, lba, spf), f, t)
  {
    hide EncodeTable, DecodeTable;
    TableRoundTrip(t);
    var d' := WriteSector(d, Wr(lba + f, EncodeTable(t)));
    forall x: nat | x < 256 * spf ensures FatAt(d', lba, spf)[x] == WithTable(FatAt(d, lba, spf), f, t)[x] {
      assert lba + x / 256 == lba + f <==> x / 256 == f;
    }
  }

  lemma FatAtUnchanged(d: Disk, lba: nat, spf: nat, w: Wr)
    requires spf <= 255 && !(lba <= w.lba < lba + spf)
    ensures FatAt(WriteSector(d, w), lba, spf) == FatAt(d, lba, spf)
  {
    hide DecodeTable;
    forall x: nat | x < 256 * spf ensures FatAt(WriteSector(d, w), lba, spf)[x] == FatAt(d, lba, spf)[x] {
      assert lba <= lba + x / 256 < lba + spf;
    }
  }

  lemma DirsAtWritten(d: Disk, lba: nat, n: nat, s: nat, dir: Dir)
    requires s < n && lba + n <= |d|
    ensures DirsAt(WriteSector(d, Wr(lba + s, EncodeDir(dir))), lba, n) == DirsAt(d, lba, n)[s := dir]
  {
    hide EncodeDir, DecodeDir;
    DirRoundTrip(dir);
  }

  lemma DirsAtUnchanged(d: Disk, lba: nat, n: nat, w: Wr)
    requires !(lba <= w.lba < lba + n)
    ensures DirsAt(WriteSector(d, w), lba, n) == DirsAt(d, lba, n)
  {
    hide DecodeDir;
  }

  /** Rewriting sector `f` of the first FAT. */
  lemma TableWriteView(d: Disk, g: Geo, f: nat, t: Table)
    requires GeoOk(g, d) && f < g.spf
    ensures View(WriteSector(d, Wr(g.reserved + f, EncodeTable(t))), g)
      == View(d, g).(fat := WithTable(View(d, g).fat, f, t))
  {
    hide EncodeTable, FatAt, DirsAt, WithTable, WriteSector, GeoOk, Geo.RootLba, Geo.DataLba;
    FatLayout(g, d);
    FatAtWritten(d, g.reserved, g.spf, f, t);
    DirsAtUnchanged(d, g.RootLba(), 32, Wr(g.reserved + f, EncodeTable(t)));
  }

  /** Rewriting sector `s` of the root directory. */
  lemma DirWriteView(d: Disk, g: Geo, s: nat, dir: Dir)
    requires GeoOk(g, d) && s < 32
    ensures View(WriteSector(d, Wr(g.RootLba() + s, EncodeDir(dir))), g)
      == View(d, g).(root := View(d, g).root[s := dir])
  {
    hide EncodeDir, FatAt, DirsAt, WriteSector, GeoOk, Geo.RootLba, Geo.DataLba;
    FatLayout(g, d);
    FatAtUnchanged(d, g.reserved, g.spf, Wr(g.RootLba() + s, EncodeDir(dir)));
    DirsAtWritten(d, g.RootLba(), 32, s, dir);
  }

  /** Sectors that are neither in the first FAT nor in the root directory. */
  predicate Elsewhere(g: Geo, lba: nat) {
    g.reserved + g.spf <= lba < g.RootLba() || g.DataLba() <= lba
  }

  lemma OtherWriteView(d: Disk, g: Geo, w: Wr)
    requires GeoOk(g, d) && Elsewhere(g, w.lba)
    ensures View(WriteSector(d, w), g) == View(d, g)
  {
    hide FatAt, DirsAt, WriteSector, GeoOk, Geo.RootLba, Geo.DataLba;
    FatLayout(g, d);
    FatAtUnchanged(d, g.reserved, g.spf, w);
    DirsAtUnchanged(d, g.RootLba(), 32, w);
  }
}
