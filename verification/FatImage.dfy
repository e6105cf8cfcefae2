/** Volumes whose FAT names more clusters than the disk holds, as on the disk image the
    system boots from: the allocator hands those clusters out too. */
module FatImage {
  import opened Bytes
  import opened FatCodec
  import opened FatVolume
  import opened FatDisk
  import opened FatFiles
  import opened FatProofs
  import opened FatInvariant
  import opened FatRead
  import opened FatReadBack
  import opened FatNames
  import opened FatRuns
  import opened PathSpec

  /** A write whose cluster lies past the end of the disk finds room and reports success,
      but every byte of the file reads as zero. */
  lemma PastEndReadsZero(d: Disk, g: Geo, name: seq<byte>, ext: seq<byte>, size: nat, buf: seq<byte>, out: Entry)
    requires GeoOk(g, d) && NameOk(name, ext) && Canonical(name, ext) && BufferOk(size, buf)
    requires var t := WriteTarget(View(d, g), name, ext, size); t.Target? && g.ClusterLba(t.e.cluster) >= |d|
    requires !NamesDirectory(View(d, g), name, ext)
    ensures var r := ReadFile(Apply(d, WritePlan(d, g, name, ext, size, buf)), g, name, ext, out);
      var n := if 1 <= size <= 10240 then size else 512;
      r.rc == n <= |r.bytes| && forall x: nat :: x < n ==> r.bytes[x] == 0
  {
    hide View, WriteTarget, Apply, WritePlan, ReadFile, NameOk, Canonical, NamesDirectory, GeoOk, BufferOk, EffSize,
         ZeroPastEnd, Geo.ClusterLba;
    WriteThenReadIff(d, g, name, ext, size, buf, out);
  }

  /** On any volume, if the first free cluster lies past the end a new file is lost. */
  lemma NewFileIsLost(d: Disk, g: Geo, name: seq<byte>, ext: seq<byte>, size: nat, buf: seq<byte>, out: Entry)
    requires GeoOk(g, d) && NameOk(name, ext) && Canonical(name, ext) && BufferOk(size, buf)
    requires var v := View(d, g);
      && Find(v.root, 0, name, ext).Nowhere? && FindFree(v.root, 0).Place?
      && FirstFree(v.fat, 2) < |v.fat| && g.ClusterLba(FirstFree(v.fat, 2)) >= |d|
    ensures WriteTarget(View(d, g), name, ext, size).Target?
    ensures var r := ReadFile(Apply(d, WritePlan(d, g, name, ext, size, buf)), g, name, ext, out);
      var n := if 1 <= size <= 10240 then size else 512;
      r.rc == n <= |r.bytes| && forall x: nat :: x < n ==> r.bytes[x] == 0
  {
    hide View, Apply, WritePlan, ReadFile, NameOk, Canonical, GeoOk, BufferOk, EffSize, Geo.ClusterLba, MatchIn, FreeIn;
    PastEndReadsZero(d, g, name, ext, size, buf, out);
  }

  // ---------------------------------------------------------------- the disk image

  // c.img: 10 MB as formatted by `mkfs.fat`, four reserved sectors, two FATs of twenty,
  // 512 root entries, four sectors to a cluster.
  const IMAGE: Geo := Geo(4, 2, 20, 4)
  const IMAGE_SECTORS: nat := 20480
  const LAST_CLUSTER: nat := 5102

  /** Clusters up to 5102 lie on the image; its FAT names those up to 5119. */
  lemma ImageClusters(c: nat)
    requires c >= 2
    ensures IMAGE.DataLba() == 76 && IMAGE.Clusters() == 5120
    ensures IMAGE.ClusterLba(c) == 76 + 4 * (c - 2)
    ensures c <= LAST_CLUSTER <==> IMAGE.ClusterLba(c) < IMAGE_SECTORS
  {
    TimesIs(2, 20);
    TimesIs(c - 2, 4);
  }

  /** The image with one file on all of its clusters, one link after another. */
  function FullWord(x: nat): Word {
    if 2 <= x < LAST_CLUSTER then x + 1 else if x == LAST_CLUSTER then END_MARK else 0
  }

  function FullTable(f: nat): (t: Table)
    ensures forall i: nat :: i < 256 ==> t[i] == FullWord(256 * f + i)
  {
    var t := seq<Word>(256, i requires 0 <= i < 256 => FullWord(256 * f + i));
    assert |t| == 256;
    t
  }

  function FullEntry(): Entry { Entry(NAME_A, TXT, 0, seq(10, _ => 0), 0, 0, 2, 10446848) }

  function FullDir(): Dir { EmptyDir()[0 := FullEntry()] }

  function FullSector(l: nat): Sector {
    if 4 <= l < 24 then EncodeTable(FullTable(l - 4))
    else if 24 <= l < 44 then EncodeTable(FullTable(l - 24))
    else if l == 44 then EncodeDir(FullDir())
    else ZeroSector()
  }

  function FullDisk(): (d: Disk)
    ensures |d| == IMAGE_SECTORS
    ensures forall l: nat :: ReadSector(d, l) == FullSector(l)
  {
    seq<Sector>(IMAGE_SECTORS, l requires 0 <= l < IMAGE_SECTORS => FullSector(l))
  }

  lemma FullFat(lba: nat)
    requires lba == 4 || lba == 24
    ensures forall x: nat :: x < 5120 ==> FatAt(FullDisk(), lba, 20)[x] == FullWord(x)
  {
    hide EncodeTable, DecodeTable, FullDisk, FullWord, ReadSector;
    forall x: nat | x < 5120 ensures FatAt(FullDisk(), lba, 20)[x] == FullWord(x) {
      assert 256 * (x / 256) + x % 256 == x;
      TableRoundTrip(FullTable(x / 256));
      assert ReadSector(FullDisk(), lba + x / 256) == FullSector(lba + x / 256);
    }
  }

  lemma FullRoot(s: nat, i: nat)
    requires Slot(s, i)
    ensures var e := At(DirsAt(FullDisk(), 44, 32), s, i);
      if s == 0 && i == 0 then e == FullEntry() else e.name[0] == 0
  {
    hide EncodeDir, DecodeDir, FullDisk, ReadSector, EncodeTable;
    assert ReadSector(FullDisk(), 44 + s) == FullSector(44 + s);
    if s == 0 {
      DirRoundTrip(FullDir());
    } else {
      ZeroDir(i);
    }
  }

  lemma ZeroDir(i: nat)
    requires i < 16
    ensures DecodeDir(ZeroSector())[i].name[0] == 0
  {
  }

  /** One chain over all clusters of the disk. */
  lemma FullChain(fat: Fat)
    requires |fat| == 5120 && forall x: nat :: x < 5120 ==> fat[x] == FullWord(x)
    ensures ChainOk(fat, 2) && Length(fat, 2) == 5101 && FirstFree(fat, 2) == LAST_CLUSTER + 1
  {
    hide Length, FirstFree;
    LengthIs(fat, 2, 5101);
    assert fat[LAST_CLUSTER] == FullWord(LAST_CLUSTER) >= 0xFFF8;
    assert fat[LAST_CLUSTER + 1] == FullWord(LAST_CLUSTER + 1) == 0;
    assert forall x: nat :: 2 <= x <= LAST_CLUSTER ==> fat[x] != 0;
    assert fat[FirstFree(fat, 2)] == 0;
  }

  /** A volume whose one file, in slot 0, owns all clusters in use. */
  ghost predicate OneFile(v: Volume, n: nat) {
    && ChainOk(v.fat, 2) && Length(v.fat, 2) == n && Holds(v.root, 0, 0, 2)
    && (forall x: nat :: 2 <= x < |v.fat| ==> (v.fat[x] != 0 <==> x < 2 + n))
    && (forall s: nat, i: nat :: Slot(s, i) && (s != 0 || i != 0) ==> At(v.root, s, i).name[0] == 0)
  }

  lemma OneFileIsTight(v: Volume, n: nat)
    requires OneFile(v, n)
    ensures CrashSafe(v) && Tight(v)
  {
    hide Length;
    forall x: nat | 2 <= x < |v.fat| ensures v.fat[x] != 0 <==> Owned(v, x) {
      if x < 2 + n { assert OwnedBy(v, 0, 0, x); }
    }
  }

  lemma OneFileIsSized(v: Volume, n: nat, spc: nat)
    requires OneFile(v, n) && At(v.root, 0, 0).size <= 512 * Times(n, spc)
    ensures Sized(v, spc) && ZeroTail(v.root)
  {
    hide Length, Times;
  }

  /** What the code sees of that disk. */
  lemma FullView()
    ensures var v := View(FullDisk(), IMAGE);
      && |v.fat| == 5120 && (forall x: nat :: x < 5120 ==> v.fat[x] == FullWord(x))
      && At(v.root, 0, 0) == FullEntry()
      && forall s: nat, i: nat :: Slot(s, i) && (s != 0 || i != 0) ==> At(v.root, s, i).name[0] == 0
  {
    hide FatAt, DirsAt, FullDisk, FullEntry, FullWord;
    ImageClusters(2);
    FullFat(4);
    forall s: nat, i: nat | Slot(s, i) ensures var e := At(DirsAt(FullDisk(), 44, 32), s, i);
      if s == 0 && i == 0 then e == FullEntry() else e.name[0] == 0
    {
      FullRoot(s, i);
    }
  }

  lemma FullMirror()
    ensures Mirrored(FullDisk(), IMAGE)
  {
    hide FatAt, FullDisk, FullWord;
    FullFat(4);
    FullFat(24);
  }

  lemma FullDiskState()
    ensures StoreInv(FullDisk(), IMAGE) && FirstFree(View(FullDisk(), IMAGE).fat, 2) == LAST_CLUSTER + 1
  {
    hide View, FullDisk, Mirrored, FirstFree, Length, CrashSafe, Tight, Sized, ZeroTail;
    FullView();
    FullMirror();
    ImageClusters(2);
    FullChain(View(FullDisk(), IMAGE).fat);
    TimesIs(5101, 4);
    OneFileIsTight(View(FullDisk(), IMAGE), 5101);
    OneFileIsSized(View(FullDisk(), IMAGE), 5101, 4);
  }

  lemma NewClaims(v: Volume, name: seq<byte>, ext: seq<byte>, size: nat)
    requires NameOk(name, ext) && |v.fat| >= 2 && Find(v.root, 0, name, ext).Nowhere?
    ensures var t := WriteTarget(v, name, ext, size); t.Target? ==> t.claim
  {
    hide EffSize, MatchIn;
  }

  /** B.TXT is not there, and the slot behind A.TXT is unused. */
  lemma SecondSlot(v: Volume)
    requires At(v.root, 0, 0) == FullEntry()
    requires forall s: nat, i: nat :: Slot(s, i) && (s != 0 || i != 0) ==> At(v.root, s, i).name[0] == 0
    ensures Find(v.root, 0, NAME_B, TXT).Nowhere? && FindFree(v.root, 0).Place?
  {
    assert Slot(0, 1) && At(v.root, 0, 1).name[0] == 0;
    assert MatchIn(v.root[0], 1, NAME_B, TXT) == 16 && FreeIn(v.root[0], 1) == 1;
    forall s: nat | 0 < s < 32 ensures MatchIn(v.root[s], 0, NAME_B, TXT) == 16 {
      assert Slot(s, 0) && At(v.root, s, 0).name[0] == 0;
    }
  }

  /** Concretely: on the sound image all of whose clusters belong to A.TXT, writing 512
      ones to B.TXT succeeds, the volume stays sound, and B.TXT reads as 512 zeros. */
  lemma ImageLosesFile(out: Entry)
    ensures NameOk(NAME_B, TXT) && StoreInv(FullDisk(), IMAGE)
    ensures var d' := Apply(FullDisk(), WritePlan(FullDisk(), IMAGE, NAME_B, TXT, 512, Filled(512, 1)));
      var r := ReadFile(d', IMAGE, NAME_B, TXT, out);
      && WriteTarget(View(FullDisk(), IMAGE), NAME_B, TXT, 512).Target? && StoreInv(d', IMAGE)
      && r.rc == 512 <= |r.bytes| && r.bytes[..512] == Filled(512, 0)
  {
    hide View, Apply, WritePlan, ReadFile, FullDisk, VolumeInv, Mirrored, GeoOk, FirstFree, Canonical, LiveMatch,
         WriteTarget, Fits;
    var d, buf := FullDisk(), Filled(512, 1);
    FullView();
    FullDiskState();
    ImageClusters(LAST_CLUSTER + 1);
    CanonicalB();
    SecondSlot(View(d, IMAGE));
    NewFileIsLost(d, IMAGE, NAME_B, TXT, 512, buf, out);
    NewClaims(View(d, IMAGE), NAME_B, TXT, 512);
    NewFits(View(d, IMAGE), NAME_B, TXT, 512, 4);
    WriteKeepsInvIff(d, IMAGE, NAME_B, TXT, 512, buf);
  }
}
