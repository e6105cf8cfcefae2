/** What the store leaves on the disk byte by byte, at the offsets the Microsoft FAT
    specification 1.03 gives, and in which order it gets there. */
module FatOnDisk {
  import opened Bytes
  import opened FatCodec
  import opened FatVolume
  import opened FatDisk
  import opened FatFiles
  import opened FatProofs
  import opened FatInvariant
  import opened FatRead
  import opened FatReadBack
  import opened FatRuns

  // ---------------------------------------------------------------- layout

  /** The 16-bit and the 32-bit little-endian number at offset `o`. */
  function Word16(s: Sector, o: nat): nat
    requires o + 2 <= 512
  {
    var low: nat, high: nat := s[o], s[o + 1];
    low + 0x100 * high
  }

  function Word32(s: Sector, o: nat): nat
    requires o + 4 <= 512
  {
    Word16(s, o) + 0x10000 * Word16(s, o + 2)
  }

  /** DIR_Name at 0, DIR_Attr at 11, DIR_WrtTime at 22, DIR_WrtDate at 24,
      DIR_FstClusLO at 26 and DIR_FileSize at 28 of the `i`-th 32-byte entry. */
  predicate EntryBytes(s: Sector, i: nat, e: Entry)
    requires i < 16 && EntryOk(e)
  {
    var o := 32 * i;
    && s[o..o + 8] == e.name && s[o + 8..o + 11] == e.ext && s[o + 11] == e.attr && s[o + 12..o + 22] == e.reserved
    && Word16(s, o + 22) == e.time && Word16(s, o + 24) == e.date
    && Word16(s, o + 26) == e.cluster && Word32(s, o + 28) == e.size
  }

  /** A directory sector is read entry by entry from these places. */
  lemma EntryLayout(s: Sector, i: nat, e: Entry)
    requires i < 16 && EntryOk(e)
    ensures DecodeDir(s)[i] == e <==> EntryBytes(s, i, e)
  {
    var b := s[32 * i..32 * i + 32];
    assert forall k :: 0 <= k < 32 ==> b[k] == s[32 * i + k];
    assert b[0..8] == s[32 * i..32 * i + 8] && b[8..11] == s[32 * i + 8..32 * i + 11];
    assert b[12..22] == s[32 * i + 12..32 * i + 22];
    assert DecodeDir(s)[i] == DecodeEntry(b);
  }

  /** And a table sector word by word. */
  lemma TableLayout(s: Sector, i: nat)
    requires i < 256
    ensures DecodeTable(s)[i] == Word16(s, 2 * i)
  {
  }

  /** Where everything lies. */
  lemma AreasAt(g: Geo, c: nat)
    ensures g.RootLba() == g.reserved + g.fatCount * g.spf && g.DataLba() == g.RootLba() + 32
    ensures g.ClusterLba(c) == if c < 2 then g.RootLba() else g.DataLba() + (c - 2) * g.spc
  {
    TimesIs(g.fatCount, g.spf);
    if c >= 2 { TimesIs(c - 2, g.spc); }
  }

  lemma SlotOnDisk(d: Disk, g: Geo, s: nat, i: nat)
    requires Slot(s, i)
    ensures EntryBytes(ReadSector(d, g.RootLba() + s), i, At(View(d, g).root, s, i))
  {
    hide EntryBytes, DecodeDir, ReadSector, Geo.RootLba, FatAt;
    EntryLayout(ReadSector(d, g.RootLba() + s), i, At(View(d, g).root, s, i));
  }

  /** The word of cluster `c` in the FAT copy that starts at sector `lba`. */
  function WordOf(d: Disk, lba: nat, c: nat): nat { Word16(ReadSector(d, lba + c / 256), 2 * (c % 256)) }

  lemma WordOnDisk(d: Disk, g: Geo, c: nat)
    requires c < g.Clusters()
    ensures View(d, g).fat[c] == WordOf(d, g.reserved, c)
    ensures Mirrored(d, g) && g.fatCount > 1 ==> View(d, g).fat[c] == WordOf(d, g.reserved + g.spf, c)
  {
    hide DecodeTable, ReadSector, DirsAt, Word16;
    TableLayout(ReadSector(d, g.reserved + c / 256), c % 256);
    TableLayout(ReadSector(d, g.reserved + g.spf + c / 256), c % 256);
    assert FatAt(d, g.reserved, g.spf)[c] == DecodeTable(ReadSector(d, g.reserved + c / 256))[c % 256];
    assert FatAt(d, g.reserved + g.spf, g.spf)[c] == DecodeTable(ReadSector(d, g.reserved + g.spf + c / 256))[c % 256];
  }

  /** Cluster `c` reads `w` in every FAT copy the code keeps. */
  predicate FatReads(d: Disk, g: Geo, c: nat, w: nat) {
    WordOf(d, g.reserved, c) == w && (g.fatCount > 1 ==> WordOf(d, g.reserved + g.spf, c) == w)
  }

  lemma FatReadsIs(d: Disk, g: Geo, c: nat)
    requires c < g.Clusters() && Mirrored(d, g)
    ensures FatReads(d, g, c, View(d, g).fat[c])
  {
    hide View, Mirrored, WordOf;
    WordOnDisk(d, g, c);
  }

  // ---------------------------------------------------------------- writing

  /** The entry of this name, or the first unused one if there is none. */
  predicate SlotFor(root: Root, s: nat, i: nat, name: seq<byte>, ext: seq<byte>)
    requires Slot(s, i)
  {
    match Find(root, 0, name, ext)
    case Place(r, j) => s == r && i == j
    case Nowhere =>
      && (At(root, s, i).name[0] == 0 || At(root, s, i).name[0] == 0xE5)
      && forall r: nat, j: nat | r <= s && j < 16 && (r < s || j < i) ::
           At(root, r, j).name[0] != 0 && At(root, r, j).name[0] != 0xE5
  }

  lemma FirstUnused(root: Root, r: nat, j: nat)
    requires Slot(r, j)
    ensures var q := FindFree(root, 0);
      && (q.Place? ==> Free(At(root, q.s, q.i)))
      && (q.Place? && (r < q.s || (r == q.s && j < q.i)) ==> !Free(At(root, r, j)))
  {
    assert r < 32 && FreeIn(root[r], 0) == 16 ==> !Free(root[r][j]);
  }

  lemma TargetSlot(v: Volume, name: seq<byte>, ext: seq<byte>, size: nat)
    requires NameOk(name, ext) && |v.fat| >= 2
    ensures var t := WriteTarget(v, name, ext, size); t.Target? ==> SlotFor(v.root, t.s, t.i, name, ext)
  {
    hide MatchIn, FreeIn, FirstFree, EffSize, SameText, Find, FindFree;
    var t := WriteTarget(v, name, ext, size);
    if t.Target? && Find(v.root, 0, name, ext).Nowhere? {
      forall r: nat, j: nat | r <= t.s && j < 16 && (r < t.s || j < t.i) ensures !Free(At(v.root, r, j)) {
        FirstUnused(v.root, r, j);
      }
      FirstUnused(v.root, t.s, t.i);
    }
  }

  /** A write that gives its file a cluster takes the lowest free one and marks it as the
      end of a chain in both FATs; the entry holds name, extension and cluster, the size
      and zeros for attribute, time and date; its ten reserved bytes stay. */
  lemma NewFileOnDisk(d: Disk, g: Geo, name: seq<byte>, ext: seq<byte>, size: nat, buf: seq<byte>)
    requires GeoOk(g, d) && Mirrored(d, g) && NameOk(name, ext) && BufferOk(size, buf)
    requires var v, p := View(d, g), Find(View(d, g).root, 0, name, ext);
      WriteTarget(v, name, ext, size).Target? && (p.Nowhere? || At(v.root, p.s, p.i).cluster < 2)
    ensures var v, t := View(d, g), WriteTarget(View(d, g), name, ext, size);
      var d', c := Apply(d, WritePlan(d, g, name, ext, size, buf)), t.e.cluster;
      && SlotFor(v.root, t.s, t.i, name, ext)
      && 2 <= c < |v.fat| && v.fat[c] == 0 && (forall x: nat :: 2 <= x < c ==> v.fat[x] != 0)
      && EntryBytes(ReadSector(d', g.RootLba() + t.s), t.i,
                    Entry(name, ext, 0, At(v.root, t.s, t.i).reserved, 0, 0, c,
                          if 1 <= size <= 10240 then size else 512))
      && (forall x: nat :: x < g.Clusters() ==> FatReads(d', g, x, if x == c then 0xFFFF else v.fat[x]))
  {
    hide View, WriteTarget, Apply, WritePlan, Find, FreeIn, MatchIn, Mirrored, EntryBytes, ReadSector, Geo.RootLba,
         EffSize, FatReads, NameOk, GeoOk, BufferOk, SlotFor;
    FatLayout(g, d);
    var v, t := View(d, g), WriteTarget(View(d, g), name, ext, size);
    var d' := Apply(d, WritePlan(d, g, name, ext, size, buf));
    ViewAfter(d, g, name, ext, size, buf);
    WriteMirror(d, g, name, ext, size, buf);
    TargetSlot(v, name, ext, size);
    NewTarget(v, name, ext, size);
    EffSizeIs(size);
    SlotOnDisk(d', g, t.s, t.i);
    forall x: nat | x < g.Clusters() ensures FatReads(d', g, x, if x == t.e.cluster then 0xFFFF else v.fat[x]) {
      FatReadsIs(d', g, x);
    }
  }

  lemma NewTarget(v: Volume, name: seq<byte>, ext: seq<byte>, size: nat)
    requires NameOk(name, ext) && |v.fat| >= 2
    requires var p := Find(v.root, 0, name, ext); p.Nowhere? || At(v.root, p.s, p.i).cluster < 2
    ensures var t := WriteTarget(v, name, ext, size);
      t.Target? ==>
        && t.claim && 2 <= t.e.cluster < |v.fat| && v.fat[t.e.cluster] == 0
        && (forall x: nat :: 2 <= x < t.e.cluster ==> v.fat[x] != 0)
        && t.e == Entry(name, ext, 0, At(v.root, t.s, t.i).reserved, 0, 0, t.e.cluster, EffSize(size))
  {
    hide MatchIn, FreeIn, EffSize, SameText;
  }

  /** A write over a file that has its clusters changes nothing of its entry but the size,
      and no FAT. */
  lemma OldFileOnDisk(d: Disk, g: Geo, name: seq<byte>, ext: seq<byte>, size: nat, buf: seq<byte>)
    requires GeoOk(g, d) && Mirrored(d, g) && NameOk(name, ext) && BufferOk(size, buf)
    requires var p := Find(View(d, g).root, 0, name, ext); p.Place? && At(View(d, g).root, p.s, p.i).cluster >= 2
    ensures var v, p := View(d, g), Find(View(d, g).root, 0, name, ext);
      var d' := Apply(d, WritePlan(d, g, name, ext, size, buf));
      && WriteTarget(v, name, ext, size).Target?
      && EntryBytes(ReadSector(d', g.RootLba() + p.s), p.i,
                    At(v.root, p.s, p.i).(size := if 1 <= size <= 10240 then size else 512))
      && (forall x: nat :: x < g.Clusters() ==> FatReads(d', g, x, v.fat[x]))
  {
    hide View, WriteTarget, Apply, WritePlan, Find, FreeIn, MatchIn, Mirrored, EntryBytes, ReadSector, Geo.RootLba,
         EffSize, FatReads, NameOk, GeoOk, BufferOk;
    FatLayout(g, d);
    var v, p := View(d, g), Find(View(d, g).root, 0, name, ext);
    var d' := Apply(d, WritePlan(d, g, name, ext, size, buf));
    ViewAfter(d, g, name, ext, size, buf);
    WriteMirror(d, g, name, ext, size, buf);
    OldTarget(v, name, ext, size);
    EffSizeIs(size);
    SlotOnDisk(d', g, p.s, p.i);
    forall x: nat | x < g.Clusters() ensures FatReads(d', g, x, v.fat[x]) { FatReadsIs(d', g, x); }
  }

  lemma OldTarget(v: Volume, name: seq<byte>, ext: seq<byte>, size: nat)
    requires NameOk(name, ext) && |v.fat| >= 2
    requires var p := Find(v.root, 0, name, ext); p.Place? && At(v.root, p.s, p.i).cluster >= 2
    ensures var p := Find(v.root, 0, name, ext);
      WriteTarget(v, name, ext, size) == Target(p.s, p.i, false, At(v.root, p.s, p.i).(size := EffSize(size)))
  {
    hide MatchIn, EffSize;
  }

  /** Both FATs if a cluster is claimed, then `n` sectors of the buffer, then the entry. */
  predicate InOrder(ws: seq<Wr>, g: Geo, t: Target, n: nat, buf: seq<byte>) {
    && t.Target?
    && var a := if !t.claim then 0 else if g.fatCount > 1 then 2 else 1;
       && |ws| == a + n + 1 && 512 * n <= |buf|
       && (a >= 1 ==> ws[0].lba == g.reserved + t.e.cluster / 256)
       && (a >= 2 ==> ws[1].lba == g.reserved + g.spf + t.e.cluster / 256)
       && (forall k: nat :: a <= k < a + n ==>
             && ws[k].lba == g.ClusterLba(t.e.cluster) + (k - a)
             && ws[k].data == buf[512 * (k - a)..512 * (k - a + 1)])
       && ws[a + n].lba == g.RootLba() + t.s
  }

  /** The order in which sectors reach the disk. */
  lemma WriteOrder(d: Disk, g: Geo, name: seq<byte>, ext: seq<byte>, size: nat, buf: seq<byte>)
    requires GeoOk(g, d) && NameOk(name, ext) && BufferOk(size, buf)
    requires WriteTarget(View(d, g), name, ext, size).Target?
    ensures InOrder(WritePlan(d, g, name, ext, size, buf), g, WriteTarget(View(d, g), name, ext, size),
                    if 1 <= size <= 10240 then (size + 511) / 512 else 1, buf)
  {
    hide View, WriteTarget, GeoOk, Geo.RootLba, Geo.ClusterLba, NameOk, EffSize, ClaimWrites, DirWrite, Chunk;
    EffSizeIs(size);
    var t := WriteTarget(View(d, g), name, ext, size);
    ClaimOrder(d, g, t.e.cluster);
    DirOrder(d, g, t.s, t.i, t.e);
    ChunksAre(buf);
  }

  lemma ClaimOrder(d: Disk, g: Geo, c: nat)
    ensures var ws := ClaimWrites(d, g, c);
      && |ws| == (if g.fatCount > 1 then 2 else 1) && ws[0].lba == g.reserved + c / 256
      && (g.fatCount > 1 ==> ws[1].lba == g.reserved + g.spf + c / 256)
  {
  }

  lemma DirOrder(d: Disk, g: Geo, s: nat, i: nat, e: Entry)
    requires Slot(s, i) && EntryOk(e)
    ensures DirWrite(d, g, s, i, e).lba == g.RootLba() + s
  {
  }

  lemma ChunksAre(buf: seq<byte>)
    ensures forall j: nat :: 512 * (j + 1) <= |buf| ==> Chunk(buf, j) == buf[512 * j..512 * (j + 1)]
  {
  }

  // ---------------------------------------------------------------- deleting

  /** Word `x` of the table once the chain from cluster `c`, if any, is returned. */
  function WordLeft(fat: Fat, c: nat, x: nat): nat
    requires x < |fat| && (c >= 2 ==> c < |fat|)
  {
    if 2 <= c <= x && x < c + Length(fat, c) then 0 else fat[x]
  }

  /** A delete puts 0xE5 over the first byte of the name and leaves the rest of the entry;
      then the words of its chain are zero in both FATs and no other word changes. */
  lemma DeleteOnDisk(d: Disk, g: Geo, name: seq<byte>, ext: seq<byte>)
    requires GeoOk(g, d) && Mirrored(d, g) && DeleteOk(View(d, g), name, ext)
    requires Find(View(d, g).root, 0, name, ext).Place?
    ensures var v, p := View(d, g), Find(View(d, g).root, 0, name, ext);
      var e, d', ws := At(v.root, p.s, p.i), Apply(d, DeletePlan(d, g, name, ext)), DeletePlan(d, g, name, ext);
      && EntryBytes(ReadSector(d', g.RootLba() + p.s), p.i, e.(name := [0xE5] + e.name[1..]))
      && (forall x: nat :: x < g.Clusters() ==> FatReads(d', g, x, WordLeft(v.fat, e.cluster, x)))
      && |ws| >= 1 && ws[0].lba == g.RootLba() + p.s
      && (e.cluster >= 2 ==> |ws| == (if g.fatCount > 1 then 3 else 2) && ws[1].lba == g.reserved)
      && (e.cluster >= 2 && g.fatCount > 1 ==> ws[2].lba == g.reserved + g.spf)
  {
    hide View, Apply, Find, MatchIn, Mirrored, EntryBytes, ReadSector, Geo.RootLba, FatReads, GeoOk, EncodeDir,
         EncodeTable, Length, Deleted, ClearedTable, Retired;
    var v, p, ws := View(d, g), Find(View(d, g).root, 0, name, ext), DeletePlan(d, g, name, ext);
    var e, d' := At(v.root, p.s, p.i), Apply(d, ws);
    assert ws[..|ws|] == ws;
    DeleteStages(d, g, name, ext, |ws|);
    DeleteMirror(d, g, name, ext);
    if e.cluster >= 2 { ReturnsSomething(d, g, e.cluster); }
    DeletedIs(v, p.s, p.i, e.cluster >= 2);
    SlotOnDisk(d', g, p.s, p.i);
    forall x: nat | x < g.Clusters()
      ensures FatReads(d', g, x, WordLeft(v.fat, e.cluster, x))
    {
      FatReadsIs(d', g, x);
    }
  }

  lemma DeletedIs(v: Volume, s: nat, i: nat, returned: bool)
    requires Slot(s, i) && (returned ==> At(v.root, s, i).cluster < |v.fat|)
    ensures var e, t := At(v.root, s, i), Deleted(v, s, i, returned);
      && At(t.root, s, i) == e.(name := [0xE5] + e.name[1..]) && |t.fat| == |v.fat|
      && forall x: nat :: x < |v.fat| ==>
           t.fat[x] == if returned && e.cluster <= x < e.cluster + Length(v.fat, e.cluster) then 0 else v.fat[x]
  {
    hide Length;
  }
}
