/** The FAT16 code of src/disk.c as it runs: sector and slot loops over local copies of
    sectors, written back one sector at a time. */
module FatStore {
  import opened Bytes
  import opened FatCodec
  import opened FatVolume
  import opened FatDisk
  import opened FatFiles
  import opened FatProofs
  import opened FatInvariant
  import opened FatRead
  import opened FatCursor
  import opened PathSpec
  import Paths

  const MAX_FD: nat := 8

  /** `strncmp` on two fields */
  method Strncmp(a: seq<byte>, b: seq<byte>) returns (same: bool)
    ensures same == SameText(a, b)
  {
    var i := 0;
    while i < |a| && i < |b| && a[i] != 0 && a[i] == b[i]
      invariant i <= |a| && i <= |b| && SameText(a, b) == SameText(a[i..], b[i..])
    {
      assert a[i..][1..] == a[i + 1..] && b[i..][1..] == b[i + 1..];
      i := i + 1;
    }
    same := if i < |a| && i < |b| then a[i] == b[i] else |a| == |b|;
  }

  /** The scan of one directory sector. */
  method MatchSlot(dir: Dir, name: seq<byte>, ext: seq<byte>) returns (k: nat)
    ensures k == MatchIn(dir, 0, name, ext)
  {
    k := 0;
    while k < 16
      invariant k <= 16 && MatchIn(dir, 0, name, ext) == MatchIn(dir, k, name, ext)
    {
      if dir[k].name[0] == 0 { return 16; }
      if dir[k].name[0] != DELETED {
        var sameName := Strncmp(dir[k].name, name);
        var sameExt := Strncmp(dir[k].ext, ext);
        if sameName && sameExt { return; }
      }
      k := k + 1;
    }
  }

  method FreeSlot(dir: Dir) returns (k: nat)
    ensures k == FreeIn(dir, 0)
  {
    k := 0;
    while k < 16
      invariant k <= 16 && FreeIn(dir, 0) == FreeIn(dir, k)
    {
      if dir[k].name[0] == 0 || dir[k].name[0] == DELETED { return; }
      k := k + 1;
    }
  }

  /** First free entry of one FAT sector from `start` on, or 256. */
  method FreeWord(t: Table, start: nat) returns (i: nat)
    requires start <= 256
    ensures start <= i <= 256 && (i < 256 ==> t[i] == 0)
    ensures forall x :: start <= x < i ==> t[x] != 0
  {
    i := start;
    while i < 256 && t[i] != 0
      invariant start <= i <= 256 && forall x :: start <= x < i ==> t[x] != 0
    {
      i := i + 1;
    }
  }

  /** The loop of `ardaos_delete_file` that follows a chain link by link and frees it. */
  method FreeChain(ghost fat: Fat, t: Table, c: nat) returns (t': Table)
    requires |fat| >= 256 && fat[..256] == t && ChainOk(fat, c) && c + Length(fat, c) <= 256
    ensures t' == ClearedTable(t, c, Length(fat, c))
  {
    ghost var n := Length(fat, c);
    ghost var k: nat := 0;
    var current: nat := c;
    t' := t;
    assert forall x: nat :: x < 256 ==> t[x] == fat[..256][x] == fat[x];
    while 2 <= current < 0xFFF8
      invariant k <= n && if k < n then current == c + k else current >= END_MIN
      invariant forall x: nat :: x < 256 ==> t'[x] == if c <= x < c + k then 0 else t[x]
      decreases n - k
    {
      var following := t'[current];
      t' := SetTable(t', current, 0);
      current := following;
      k := k + 1;
    }
  }

  class Store {
    const geo: Geo
    var sectors: Disk
    ghost var journal: seq<Wr>        // every sector written so far
    const fds: array<FileObj>         // the file table of the current task

    ghost predicate Valid()
      reads this, fds
    {
      && GeoOk(geo, sectors) && fds.Length == MAX_FD
      && forall i :: 0 <= i < MAX_FD ==> fds[i].size < 0x1_0000_0000
    }

    constructor (g: Geo, d: Disk)
      requires GeoOk(g, d)
      ensures Valid() && geo == g && sectors == d && journal == [] && fresh(fds)
      ensures forall i :: 0 <= i < MAX_FD ==> !fds[i].isOpen
    {
      geo, sectors, journal := g, d, [];
      fds := new FileObj[MAX_FD](_ => FileObj(false, 0, 0, 0, 0, 0));
    }

    // ---------------------------------------------------------------- sector access

    /** The sectors changed by exactly these writes, in this order. */
    twostate predicate Wrote(ws: seq<Wr>)
      reads this
    {
      sectors == Apply(old(sectors), ws) && journal == old(journal) + ws
    }

    method WriteOne(lba: nat, data: Sector)
      modifies this`sectors, this`journal
      ensures sectors == WriteSector(old(sectors), Wr(lba, data)) && journal == old(journal) + [Wr(lba, data)]
    {
      if lba < |sectors| { sectors := sectors[lba := data]; }
      journal := journal + [Wr(lba, data)];
    }

    /** `ata_lba_write`: a count of zero means one sector. */
    method AtaWrite(lba: nat, count: nat, source: seq<byte>)
      requires 512 * (if count == 0 then 1 else count) <= |source|
      modifies this`sectors, this`journal
      ensures Wrote(DataWrites(lba, if count == 0 then 1 else count, source))
    {
      var n := if count == 0 then 1 else count;
      ghost var ws: seq<Wr> := [];
      ApplyNone(sectors);
      for j: nat := 0 to n
        invariant |ws| == j && forall k :: 0 <= k < j ==> ws[k] == Wr(lba + k, Chunk(source, k))
        invariant sectors == Apply(old(sectors), ws) && journal == old(journal) + ws
      {
        WriteOne(lba + j, Chunk(source, j));
        ws := ws + [Wr(lba + j, Chunk(source, j))];
        assert ws[..|ws| - 1] == ws[..j];
      }
      assert ws == DataWrites(lba, n, source);
    }

    /** `ata_lba_read` into a buffer at `at`. */
    method AtaRead(lba: nat, count: nat, target: array<byte>, at: nat)
      requires at + 512 * (if count == 0 then 1 else count) <= target.Length
      modifies target
      ensures var n := 512 * (if count == 0 then 1 else count);
        && target[..at] == old(target[..at]) && target[at + n..] == old(target[at + n..])
        && target[at..at + n] == Span(sectors, lba, 0, n)
    {
      var n := if count == 0 then 1 else count;
      for j: nat := 0 to 512 * n
        invariant forall x :: 0 <= x < target.Length ==>
          target[x] == if at <= x < at + j then ByteAt(sectors, lba, x - at) else old(target[x])
      {
        target[at + j] := ReadSector(sectors, lba + j / 512)[j % 512];
      }
    }

    // ---------------------------------------------------------------- directory scans

    /** The scan of `ardaos_write_file` and `ardaos_delete_file`; `fat16_find_entry` compares
        every byte, which for the zero-free names it parses is the same. */
    method FindIn(lba: nat, n: nat, name: seq<byte>, ext: seq<byte>) returns (p: Place)
      ensures p == Find(DirsAt(sectors, lba, n), 0, name, ext)
    {
      hide MatchIn, DirAt;
      ghost var dirs := DirsAt(sectors, lba, n);
      var s: nat := 0;
      while s < n
        invariant s <= n && Find(dirs, 0, name, ext) == Find(dirs, s, name, ext)
      {
        var i := MatchSlot(DirAt(sectors, lba + s), name, ext);
        if i < 16 { return Place(s, i); }
        s := s + 1;
      }
      p := Nowhere;
    }

    method FindFreeIn(lba: nat) returns (p: Place)
      ensures p == FindFree(DirsAt(sectors, lba, 32), 0)
    {
      hide DirAt, FreeIn;
      ghost var dirs := DirsAt(sectors, lba, 32);
      var s: nat := 0;
      while s < 32
        invariant s <= 32 && FindFree(dirs, 0) == FindFree(dirs, s)
      {
        var i := FreeSlot(DirAt(sectors, lba + s));
        if i < 16 { return Place(s, i); }
        s := s + 1;
      }
      p := Nowhere;
    }

    // ---------------------------------------------------------------- write

    /** A FAT sector goes to both copies. */
    method WriteTable(f: nat, t: Table)
      modifies this`sectors, this`journal
      ensures Wrote(TableWrites(geo, f, t))
    {
      WriteOne(geo.reserved + f, EncodeTable(t));
      if geo.fatCount > 1 { WriteOne(geo.reserved + geo.spf + f, EncodeTable(t)); }
      ApplyTwo(old(sectors), geo, f, t);
    }

    /** The allocation loop: the first free cluster is claimed in both FATs. */
    method ClaimCluster() returns (c: int)
      requires Valid()
      modifies this`sectors, this`journal
      ensures var k := FirstFree(View(old(sectors), geo).fat, 2);
        if k == geo.Clusters() then c == -1 && sectors == old(sectors) && journal == old(journal)
        else c == k && Wrote(ClaimWrites(old(sectors), geo, k))
    {
      hide View, EncodeTable, DecodeTable, GeoOk, FirstFree, TableWrites, TableAt, Apply, WriteSector, Geo.RootLba;
      ghost var fat := View(sectors, geo).fat;
      FatLayout(geo, sectors);
      var f: nat := 0;
      while f < geo.spf
        invariant f <= geo.spf && sectors == old(sectors) && journal == old(journal)
        invariant forall x: nat :: 2 <= x < 256 * f ==> fat[x] != 0
      {
        var t := TableAt(sectors, geo.reserved + f);
        var i := FreeWord(t, if f == 0 then 2 else 0);
        SectorWords(sectors, geo, f);
        if i < 256 {
          var c0: nat := 256 * f + i;
          FirstFreeIs(fat, c0);
          var t' := SetTable(t, i, END_MARK);
          WriteTable(f, t');
          assert c0 / 256 == f && c0 % 256 == i;
          return c0;
        }
        f := f + 1;
      }
      FirstFreeIs(fat, geo.Clusters());
      return -1;
    }

    /** Steps 1 to 3 of `ardaos_write_file`: find a slot, read its sector, and give the
        entry a cluster if it has none. */
    method PrepareEntry(name: seq<byte>, ext: seq<byte>, size: nat) returns (t: Target, dir: Dir)
      requires Valid() && NameOk(name, ext)
      modifies this`sectors, this`journal
      ensures Valid() && t == WriteTarget(View(old(sectors), geo), name, ext, size)
      ensures Wrote(if t.Target? && t.claim then ClaimWrites(old(sectors), geo, t.e.cluster) else [])
      ensures t.Target? ==> dir == DirAt(old(sectors), geo.RootLba() + t.s)
    {
      hide View, MatchIn, ClaimWrites, DirAt, FirstFree, Find, FindFree, DirsAt;
      ApplyNone(sectors);
      RootIs(sectors, geo);
      dir := EmptyDir();
      var place := FindIn(geo.RootLba(), 32, name, ext);
      var cluster: int := -1;
      if place.Place? {
        cluster := DirAt(sectors, geo.RootLba() + place.s)[place.i].cluster;
        if cluster < 2 { cluster := -1; }
      } else {
        place := FindFreeIn(geo.RootLba());
      }
      if place.Nowhere? { return NoRoom, dir; }
      dir := DirAt(sectors, geo.RootLba() + place.s);
      var e := dir[place.i];
      var claim := cluster == -1;
      if claim {
        cluster := ClaimCluster();
        if cluster == -1 { return NoRoom, dir; }
        e := Entry(name, ext, 0, e.reserved, 0, 0, cluster, 0);
      }
      t := Target(place.s, place.i, claim, e.(size := EffSize(size)));
    }

    /** `ardaos_write_file` */
    method ArdaosWriteFile(name: seq<byte>, ext: seq<byte>, size: nat, buf: seq<byte>) returns (rc: int)
      requires Valid() && NameOk(name, ext) && BufferOk(size, buf)
      modifies this`sectors, this`journal
      ensures Valid() && Wrote(WritePlan(old(sectors), geo, name, ext, size, buf))
      ensures rc == if WriteTarget(View(old(sectors), geo), name, ext, size).NoRoom? then -1 else 0
    {
      hide View, WriteTarget, ClaimWrites, DataWrites, EncodeDir, DirAt, GeoOk, Apply, WriteSector, Geo.RootLba,
           FirstFree, Find, FindFree;
      ghost var d0 := sectors;
      FatLayout(geo, sectors);
      var t, dir := PrepareEntry(name, ext, size);
      if t.NoRoom? { return -1; }
      ghost var a := if t.claim then ClaimWrites(d0, geo, t.e.cluster) else [];
      // The data area lies behind the root directory, so the address check cannot fail.
      assert !(geo.ClusterLba(t.e.cluster) <= geo.RootLba() || t.e.cluster < 2);
      AtaWrite(geo.ClusterLba(t.e.cluster), SectorCount(t.e.size), buf);
      ghost var b := DataWrites(geo.ClusterLba(t.e.cluster), SectorCount(t.e.size), buf);
      ghost var d2 := sectors;
      ghost var w := DirWrite(d0, geo, t.s, t.i, t.e);
      WriteOne(geo.RootLba() + t.s, EncodeDir(SetDir(dir, t.i, t.e)));
      ApplyConcat(d0, a, b);
      ApplyConcat(d0, a + b, [w]);
      ApplyOne(d2, w);
      assert WritePlan(d0, geo, name, ext, size, buf) == a + b + [w];
      Regroup(old(journal), a, b, [w]);
      GeoStays(d0, geo, a + b + [w]);
      return 0;
    }

    // ---------------------------------------------------------------- delete

    /** `ardaos_delete_file` */
    method ArdaosDeleteFile(name: seq<byte>, ext: seq<byte>) returns (rc: int)
      requires Valid() && DeleteOk(View(sectors, geo), name, ext)
      modifies this`sectors, this`journal
      ensures Valid() && Wrote(DeletePlan(old(sectors), geo, name, ext))
      ensures rc == if Find(View(old(sectors), geo).root, 0, name, ext).Nowhere? then -1 else 0
    {
      hide View, MatchIn, EncodeDir, DirAt, EncodeTable, ClearedTable, GeoOk, Find, Length, TableAt, Geo.RootLba;
      FatLayout(geo, sectors);
      ghost var d0 := sectors;
      ApplyNone(d0);
      RootIs(sectors, geo);
      var place := FindIn(geo.RootLba(), 32, name, ext);
      if place.Nowhere? { return -1; }
      var dir := DirAt(sectors, geo.RootLba() + place.s);
      var c := dir[place.i].cluster;
      ghost var w := DirWrite(d0, geo, place.s, place.i, Retired(dir[place.i]));
      WriteOne(geo.RootLba() + place.s, EncodeDir(SetDir(dir, place.i, Retired(dir[place.i]))));
      ApplyOne(d0, w);
      if c >= 2 {
        FirstTableStays(d0, geo, w);
        var t := TableAt(sectors, geo.reserved);
        var t' := FreeChain(View(d0, geo).fat, t, c);
        WriteTable(0, t');
        ApplyConcat(d0, [w], ReturnWrites(d0, geo, c));
      }
      GeoStays(d0, geo, DeletePlan(d0, geo, name, ext));
      return 0;
    }

    // ---------------------------------------------------------------- find and read

    /** `fat16_find_entry`. An empty path succeeds without touching the caller's entry. */
    method Fat16FindEntry(path: seq<byte>, out: Entry) returns (rc: int, e: Entry)
      ensures var f := FindEntry(sectors, geo, path, geo.RootLba(), 32, out);
        if f.Found? then rc == 0 && e == f.e else rc == -1
    {
      hide ParseNode, Find, DirsAt, FindEntry, Geo.RootLba;
      var name8, ext3 := new byte[8], new byte[3];
      var lba: nat, n: nat := geo.RootLba(), 32;
      var current := path;
      e := out;
      var ok, rest := Paths.ParsePathNode(current, name8, ext3);
      while ok
        invariant ok == ParseNode(current).Node?
        invariant ok ==> Node(name8[..], ext3[..], rest) == ParseNode(current)
        invariant FindEntry(sectors, geo, current, lba, n, e) == FindEntry(sectors, geo, path, geo.RootLba(), 32, out)
        decreases |current|
      {
        FindEntryStep(sectors, geo, current, lba, n, e);
        var p := FindIn(lba, n, name8[..], ext3[..]);
        if p.Nowhere? { return -1, e; }
        e := DirAt(sectors, lba + p.s)[p.i];
        if rest != [] {
          if !IsDirectory(e) { return -1, e; }
          lba, n := geo.ClusterLba(e.cluster), geo.spc;
        } else {
          EmptyPath(sectors, geo, lba, n, e);
        }
        current := rest;
        ok, rest := Paths.ParsePathNode(current, name8, ext3);
      }
      FindEntryStep(sectors, geo, current, lba, n, e);
      rc := 0;
    }

    /** `ardaos_read_file`: the whole file, 128 sectors at a time. `out` is what the
        uninitialised local entry happens to hold. */
    method ArdaosReadFile(name: seq<byte>, ext: seq<byte>, target: array<byte>, out: Entry) returns (rc: int)
      requires |ReadFile(sectors, geo, name, ext, out).bytes| <= target.Length
      modifies target
      ensures var r := ReadFile(sectors, geo, name, ext, out);
        && rc == r.rc && target[..|r.bytes|] == r.bytes && target[|r.bytes|..] == old(target[|r.bytes|..])
    {
      hide FindEntry, BuildPath, Geo.ClusterLba, Geo.RootLba, Span;
      var path := Paths.BuildFullPath(name, ext);
      var found, e := Fat16FindEntry(path, out);
      if found != 0 { return -1; }
      if IsDirectory(e) { return -1; }
      LoadSectors(geo.ClusterLba(e.cluster), SectorsToRead(e.size), target);
      return Signed(e.size);
    }

    /** The chunk loop of `ardaos_read_file`. */
    method LoadSectors(first: nat, n: nat, target: array<byte>)
      requires 512 * n <= target.Length
      modifies target
      ensures target[..512 * n] == Span(sectors, first, 0, 512 * n) && target[512 * n..] == old(target[512 * n..])
    {
      hide Span, ByteAt;
      var current, dest, left: nat := first, 0, n;
      while left > 0
        invariant left <= n && dest == 512 * (n - left) && current == first + (n - left)
        invariant target[..dest] == Span(sectors, first, 0, dest) && target[dest..] == old(target[dest..])
      {
        var chunk: nat := if left > 128 then 128 else left;
        AtaRead(current, chunk, target, dest);
        SpanShift(sectors, first, n - left, 512 * chunk);
        SpanJoin(sectors, first, 0, dest, 512 * chunk);
        assert target[..dest + 512 * chunk] == target[..dest] + target[dest..dest + 512 * chunk];
        current, dest, left := current + chunk, dest + 512 * chunk, left - chunk;
      }
    }

    // ---------------------------------------------------------------- open and cursor read

    /** The disk branch of `vfs_open`. */
    method VfsOpen(name: seq<byte>, ext: seq<byte>, out: Entry) returns (fd: int)
      requires Valid() && !IsDevice(name, ext) && EntryOk(out)
      modifies fds
      ensures Valid()
      ensures var f := FindEntry(sectors, geo, BuildPath(name, ext), geo.RootLba(), 32, out);
        if f.Missing? || (forall i :: 0 <= i < MAX_FD ==> old(fds[i].isOpen)) then
          fd == -1 && fds[..] == old(fds[..])
        else
          (0 <= fd < MAX_FD && !old(fds[fd].isOpen) && (forall i :: 0 <= i < fd ==> old(fds[i].isOpen))
           && fds[..] == old(fds[..])[fd :=
                FileObj(true, 0, f.e.size, 0, f.e.cluster, geo.ClusterLba(f.e.cluster))])
    {
      hide FindEntry, BuildPath, Geo.ClusterLba, Geo.RootLba, GeoOk;
      var free := 0;
      while free < MAX_FD && fds[free].isOpen
        invariant 0 <= free <= MAX_FD && forall i :: 0 <= i < free ==> fds[i].isOpen
      {
        free := free + 1;
      }
      if free == MAX_FD { return -1; }
      var path := Paths.BuildFullPath(name, ext);
      var found, e := Fat16FindEntry(path, out);
      if found != 0 { return -1; }
      fds[free] := FileObj(true, 0, e.size, 0, e.cluster, geo.ClusterLba(e.cluster));
      return free;
    }

    /** The disk branch of `vfs_read`: sector by sector through a one-sector buffer. */
    method VfsRead(fd: int, target: array<byte>, count: int) returns (n: int)
      requires Valid()
      requires 0 <= fd < MAX_FD && fds[fd].isOpen ==> fds[fd].kind == 0 && ReadCount(fds[fd], count) <= target.Length
      modifies fds, target
      ensures Valid()
      ensures if 0 <= fd < MAX_FD && old(fds[fd].isOpen) then
          var f := old(fds[fd]);
          && n == ReadCount(f, count) && fds[..] == old(fds[..])[fd := Advance(f, count)]
          && target[..n] == Span(sectors, f.lba, f.offset, n) && target[n..] == old(target[n..])
        else n == -1 && fds[..] == old(fds[..]) && target[..] == old(target[..])
    {
      hide GeoOk, Span;
      if fd < 0 || fd >= MAX_FD { return -1; }
      if !fds[fd].isOpen { return -1; }
      if fds[fd].offset >= fds[fd].size { return 0; }
      var left := Signed(fds[fd].size - fds[fd].offset);
      var want := if count > left then left else count;
      if want <= 0 { return 0; }
      CopyOut(fd, target, want);
      n := want;
    }

    /** The read loop. */
    method CopyOut(fd: nat, target: array<byte>, want: nat)
      requires fd < fds.Length && want <= target.Length
      modifies fds, target
      ensures var f := old(fds[fd]);
        && fds[..] == old(fds[..])[fd := f.(offset := f.offset + want)]
        && target[..want] == Span(sectors, f.lba, f.offset, want) && target[want..] == old(target[want..])
    {
      hide ByteAt;
      ghost var f := fds[fd];
      var got: nat := 0;
      while got < want
        invariant got <= want && fds[fd] == f.(offset := f.offset + got)
        invariant forall i :: 0 <= i < fds.Length && i != fd ==> fds[i] == old(fds[i])
        invariant forall x: nat :: x < target.Length ==>
          target[x] == if x < got then ByteAt(sectors, f.lba, f.offset + x) else old(target[x])
      {
        var chunk := ReadPiece(fds[fd].lba, fds[fd].offset, target, got, want - got);
        got := got + chunk;
        fds[fd] := fds[fd].(offset := fds[fd].offset + chunk);
      }
    }

    /** One turn of the read loop: what is wanted of the sector that holds byte `pos`. */
    method ReadPiece(lba: nat, pos: nat, target: array<byte>, at: nat, wanted: nat) returns (chunk: nat)
      requires wanted > 0 && at + wanted <= target.Length
      modifies target
      ensures 0 < chunk <= wanted
      ensures forall x: nat :: x < target.Length ==>
        target[x] == if at <= x < at + chunk then ByteAt(sectors, lba, pos + x - at) else old(target[x])
    {
      hide ReadSector;
      var within := pos % 512;
      var sector := ReadSector(sectors, lba + pos / 512);
      chunk := 512 - within;
      if chunk > wanted { chunk := wanted; }
      for i: nat := 0 to chunk
        invariant forall x: nat :: x < target.Length ==>
          target[x] == if at <= x < at + i then ByteAt(sectors, lba, pos + x - at) else old(target[x])
      {
        SameSector(pos, i);
        target[at + i] := sector[within + i];
      }
    }
  }

  lemma SameSector(pos: nat, i: nat)
    requires pos % 512 + i < 512
    ensures (pos + i) / 512 == pos / 512 && (pos + i) % 512 == pos % 512 + i
  {
  }

  /** Names `vfs_open` sends to devices, sockets and pipes. */
  predicate IsDevice(name: seq<byte>, ext: seq<byte>) {
    || (StartsWith(name, [68, 69, 86]) && StartsWith(ext, [75, 66, 68]))            // DEV.KBD
    || (StartsWith(name, [78, 69, 84]) && StartsWith(ext, [85, 68, 80]))            // NET.UDP
    || (StartsWith(name, [78, 69, 84]) && StartsWith(ext, [84, 67, 80]))            // NET.TCP
    || StartsWith(ext, [70, 73, 70, 79])                                            // FIFO
  }

  predicate StartsWith(s: seq<byte>, prefix: seq<byte>) { |s| >= |prefix| && s[..|prefix|] == prefix }

  // ---------------------------------------------------------------- facts the methods use

  lemma Regroup(j: seq<Wr>, a: seq<Wr>, b: seq<Wr>, c: seq<Wr>)
    ensures j + a + b + c == j + (a + b + c)
  {
  }

  lemma RootIs(d: Disk, g: Geo)
    requires GeoOk(g, d)
    ensures View(d, g).root == DirsAt(d, g.RootLba(), 32) && |View(d, g).fat| == g.Clusters() >= 256
  {
  }

  lemma SectorWords(d: Disk, g: Geo, f: nat)
    requires GeoOk(g, d) && f < g.spf
    ensures 256 * f + 256 <= g.Clusters() && View(d, g).fat[256 * f..256 * f + 256] == TableAt(d, g.reserved + f)
  {
    hide DecodeTable;
    var part, t := View(d, g).fat[256 * f..256 * f + 256], TableAt(d, g.reserved + f);
    forall i: nat | i < 256 ensures part[i] == t[i] {
      assert (256 * f + i) / 256 == f && (256 * f + i) % 256 == i;
    }
  }

  /** One turn of the path walk. */
  lemma FindEntryStep(d: Disk, g: Geo, path: seq<byte>, lba: nat, n: nat, out: Entry)
    ensures FindEntry(d, g, path, lba, n, out) ==
      match ParseNode(path)
      case NoNode => Found(out)
      case Node(name, ext, rest) =>
        var f := Lookup(DirsAt(d, lba, n), name, ext);
        if f.Missing? || rest == [] then f else if !IsDirectory(f.e) then Missing
        else FindEntry(d, g, rest, g.ClusterLba(f.e.cluster), g.spc, f.e)
  {
  }

  lemma EmptyPath(d: Disk, g: Geo, lba: nat, n: nat, out: Entry)
    ensures FindEntry(d, g, [], lba, n, out) == Found(out)
  {
  }

  lemma FirstFreeIs(fat: Fat, k: nat)
    requires 2 <= k <= |fat| && (k < |fat| ==> fat[k] == 0) && forall x: nat :: 2 <= x < k ==> fat[x] != 0
    ensures FirstFree(fat, 2) == k
  {
  }

  lemma ApplyTwo(d: Disk, g: Geo, f: nat, t: Table)
    ensures Apply(d, TableWrites(g, f, t)) ==
      var d1 := WriteSector(d, Wr(g.reserved + f, EncodeTable(t)));
      if g.fatCount > 1 then WriteSector(d1, Wr(g.reserved + g.spf + f, EncodeTable(t))) else d1
  {
    hide EncodeTable, WriteSector;
    var w1, w2 := Wr(g.reserved + f, EncodeTable(t)), Wr(g.reserved + g.spf + f, EncodeTable(t));
    ApplyOne(d, w1);
    ApplyConcat(d, [w1], [w2]);
    ApplyOne(WriteSector(d, w1), w2);
  }

  lemma FirstTableStays(d: Disk, g: Geo, w: Wr)
    requires GeoOk(g, d) && w.lba >= g.RootLba()
    ensures TableAt(WriteSector(d, w), g.reserved) == TableAt(d, g.reserved)
    ensures View(d, g).fat[..256] == TableAt(d, g.reserved)
  {
    hide DecodeTable, Geo.RootLba, GeoOk;
    FatLayout(g, d);
    SectorWords(d, g, 0);
  }
}
