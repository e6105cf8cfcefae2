/** Cursor reads of an open disk file: `vfs_read` in pieces against the whole file. */
module FatCursor {
  import opened Bytes
  import opened FatCodec
  import opened FatVolume
  import opened FatDisk
  import opened FatFiles
  import opened FatRead
  import opened PathSpec

  /** The disk part of `file_obj_t`. */
  datatype FileObj = FileObj(isOpen: bool, kind: nat, size: nat, offset: nat, cluster: nat, lba: nat)

  /** How many bytes a read of `count` delivers; `bytes_left` is a signed 32-bit int. */
  function ReadCount(f: FileObj, count: int): (n: nat)
    requires f.size < 0x1_0000_0000
    ensures n > 0 ==> n <= count && f.offset + n <= f.size
  {
    if f.offset >= f.size then 0 else
    var left := Signed(f.size - f.offset);
    var c := if count > left then left else count;
    if c <= 0 then 0 else c
  }

  function Advance(f: FileObj, count: int): FileObj
    requires f.size < 0x1_0000_0000
  {
    f.(offset := f.offset + ReadCount(f, count))
  }

  /** The bytes of a sequence of reads, one after another. */
  function Reads(d: Disk, f: FileObj, counts: seq<int>): seq<byte>
    requires f.size < 0x1_0000_0000
    decreases |counts|
  {
    if counts == [] then []
    else Span(d, f.lba, f.offset, ReadCount(f, counts[0])) + Reads(d, Advance(f, counts[0]), counts[1..])
  }

  function After(f: FileObj, counts: seq<int>): FileObj
    requires f.size < 0x1_0000_0000
    decreases |counts|
  {
    if counts == [] then f else After(Advance(f, counts[0]), counts[1..])
  }

  function Asked(counts: seq<int>): nat {
    if counts == [] then 0 else (if counts[0] > 0 then counts[0] else 0) + Asked(counts[1..])
  }

  /** Whatever the counts, the pieces join up without gap or overlap, and the offset is
      the number of bytes delivered so far. */
  lemma {:induction false} ReadsJoin(d: Disk, f: FileObj, counts: seq<int>)
    requires f.size < 0x1_0000_0000
    ensures Reads(d, f, counts) == Span(d, f.lba, f.offset, |Reads(d, f, counts)|)
    ensures After(f, counts) == f.(offset := f.offset + |Reads(d, f, counts)|)
    ensures f.offset <= f.size ==> f.offset + |Reads(d, f, counts)| <= f.size
    decreases |counts|
  {
    hide Span, ReadCount;
    if counts != [] {
      var n := ReadCount(f, counts[0]);
      ReadsJoin(d, Advance(f, counts[0]), counts[1..]);
      var rest := Reads(d, Advance(f, counts[0]), counts[1..]);
      SpanJoin(d, f.lba, f.offset, n, |rest|);
    }
  }

  /** A file below 2 GB delivers what was asked for until it ends, then nothing. */
  lemma {:induction false} ReadsDeliver(d: Disk, f: FileObj, counts: seq<int>)
    requires f.offset <= f.size < 0x8000_0000
    ensures |Reads(d, f, counts)| == if Asked(counts) <= f.size - f.offset then Asked(counts) else f.size - f.offset
    decreases |counts|
  {
    hide Span;
    if counts != [] {
      ReadsDeliver(d, Advance(f, counts[0]), counts[1..]);
    }
  }

  /** A read before the end delivers nothing exactly when 2 GB or more are left. */
  lemma ReadStallsIff(f: FileObj, count: int)
    requires f.offset < f.size < 0x1_0000_0000 && count > 0
    ensures ReadCount(f, count) == 0 <==> f.size - f.offset >= 0x8000_0000
  {
  }

  /** A cursor at the start of file `e`, as `vfs_open` leaves it. */
  function Opened(g: Geo, e: Entry): FileObj {
    FileObj(true, 0, e.size, 0, e.cluster, g.ClusterLba(e.cluster))
  }

  /** A file of 2 GB or more delivers nothing from its start. */
  lemma {:induction false} BigFilesStall(d: Disk, f: FileObj, counts: seq<int>)
    requires f.offset == 0 && 0x8000_0000 <= f.size < 0x1_0000_0000
    ensures Reads(d, f, counts) == []
    decreases |counts|
  {
    if counts != [] { BigFilesStall(d, Advance(f, counts[0]), counts[1..]); }
  }

  /** How much any sequence of reads of a freshly opened file delivers. */
  function Delivered(size: nat, counts: seq<int>): nat {
    if size >= 0x8000_0000 then 0 else if Asked(counts) <= size then Asked(counts) else size
  }

  /** Cursor reads refine whole-file reads: for any counts and any 32-bit size the pieces
      are a prefix of what `ardaos_read_file` loads. */
  lemma CursorRefinesWhole(d: Disk, g: Geo, e: Entry, counts: seq<int>)
    requires EntryOk(e) && !IsDirectory(e)
    ensures var got, whole := Reads(d, Opened(g, e), counts), Load(d, g, Found(e));
      && |got| == Delivered(e.size, counts) <= |whole.bytes|
      && got == whole.bytes[..|got|]
      && (e.size < 0x8000_0000 ==> whole.rc == e.size <= |whole.bytes|)
  {
    hide Reads, Asked;
    var f := Opened(g, e);
    if e.size < 0x8000_0000 {
      ReadsJoin(d, f, counts);
      ReadsDeliver(d, f, counts);
      assert e.size <= 512 * SectorsToRead(e.size);
    } else {
      BigFilesStall(d, f, counts);
    }
  }

  /** The path of a file that is both opened and loaded: one name, the same bytes. */
  lemma OpenThenReads(d: Disk, g: Geo, name: seq<byte>, ext: seq<byte>, out: Entry, counts: seq<int>)
    requires GeoOk(g, d) && Canonical(name, ext)
    requires var f := Lookup(View(d, g).root, name, ext); f.Found? && !IsDirectory(f.e)
    ensures var e, whole := Lookup(View(d, g).root, name, ext).e, ReadFile(d, g, name, ext, out);
      var got := Reads(d, Opened(g, e), counts);
      && FindEntry(d, g, BuildPath(name, ext), g.RootLba(), 32, out) == Found(e)
      && |got| == Delivered(e.size, counts) <= |whole.bytes| && got == whole.bytes[..|got|]
  {
    hide Canonical, BuildPath, FindEntry, View, Lookup, Reads, Asked, Load, ReadFile, GeoOk;
    FindEntryIs(d, g, name, ext, out);
    ReadFileIs(d, g, name, ext, out);
    CursorRefinesWhole(d, g, Lookup(View(d, g).root, name, ext).e, counts);
  }
}
