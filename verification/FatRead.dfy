/** Finding and reading files: the path walk, whole-file reads and cursor reads, and
    what they return after a write or a delete. */
module FatRead {
  import opened Bytes
  import opened FatCodec
  import opened FatVolume
  import opened FatDisk
  import opened FatFiles
  import opened PathSpec

  // ---------------------------------------------------------------- path walk

  datatype Found = Missing | Found(e: Entry)

  /** `attr & 0x10` */
  predicate IsDirectory(e: Entry) { e.attr / 16 % 2 == 1 }

  function Lookup(dirs: seq<Dir>, name: seq<byte>, ext: seq<byte>): (f: Found)
    ensures f.Found? ==> EntryOk(f.e) && LiveMatch(f.e, name, ext)
  {
    var p := Find(dirs, 0, name, ext);
    if p.Nowhere? then Missing else Found(dirs[p.s][p.i])
  }

  /** `fat16_find_entry` from the directory of `n` sectors at `lba`. A path without any
      name counts as found and leaves the caller's entry `out` as it was. */
  function FindEntry(d: Disk, g: Geo, path: seq<byte>, lba: nat, n: nat, out: Entry): (f: Found)
    ensures f.Found? && EntryOk(out) ==> EntryOk(f.e)
    decreases |path|
  {
    match ParseNode(path)
    case NoNode => Found(out)
    case Node(name, ext, rest) =>
      var f := Lookup(DirsAt(d, lba, n), name, ext);
      if f.Missing? || rest == [] then f
      else if !IsDirectory(f.e) then Missing
      else FindEntry(d, g, rest, g.ClusterLba(f.e.cluster), g.spc, f.e)
  }

  /** The path walk compares every byte, the scans of write and delete stop at a zero
      byte: for a name parsed from a C string both find the same entries. */
  lemma ParsedMatchIff(e: Entry, path: seq<byte>)
    requires EntryOk(e) && CString(path) && ParseNode(path).Node?
    ensures var p := ParseNode(path);
      LiveMatch(e, p.name, p.ext) <==> !Free(e) && e.name == p.name && e.ext == p.ext
  {
    hide ParseNode, SameText;
    ParsedIsText(path);
    SameTextIff(e.name, ParseNode(path).name);
    SameTextIff(e.ext, ParseNode(path).ext);
  }

  // ---------------------------------------------------------------- whole-file reads

  function ByteAt(d: Disk, lba: nat, pos: nat): byte { ReadSector(d, lba + pos / 512)[pos % 512] }

  /** `n` bytes of the sectors from `lba` on, starting at byte `pos`. */
  function Span(d: Disk, lba: nat, pos: nat, n: nat): (s: seq<byte>)
    ensures |s| == n
  {
    seq<byte>(n, j requires 0 <= j < n => ByteAt(d, lba, pos + j))
  }

  /** Reading on from a later sector is reading further into the span. */
  lemma SpanShift(d: Disk, lba: nat, k: nat, n: nat)
    ensures Span(d, lba + k, 0, n) == Span(d, lba, 512 * k, n)
  {
    hide ReadSector;
    var a, b := Span(d, lba + k, 0, n), Span(d, lba, 512 * k, n);
    forall j: nat | j < n ensures a[j] == b[j] {
      assert (512 * k + j) / 512 == k + j / 512 && (512 * k + j) % 512 == j % 512;
      assert a[j] == ByteAt(d, lba + k, j) && b[j] == ByteAt(d, lba, 512 * k + j);
    }
  }

  lemma SpanJoin(d: Disk, lba: nat, pos: nat, a: nat, b: nat)
    ensures Span(d, lba, pos, a) + Span(d, lba, pos + a, b) == Span(d, lba, pos, a + b)
  {
    hide ByteAt;
    var s := Span(d, lba, pos, a) + Span(d, lba, pos + a, b);
    forall j: nat | j < a + b ensures s[j] == Span(d, lba, pos, a + b)[j] {
      if j >= a { assert s[j] == Span(d, lba, pos + a, b)[j - a]; }
    }
  }

  /** The 32-bit sum wraps round. */
  function SectorsToRead(size: nat): nat {
    if size == 0 then 1 else (size + 511) % 0x1_0000_0000 / 512
  }

  /** A 32-bit word as a signed `int`. */
  function Signed(w: nat): int { if w >= 0x8000_0000 then w - 0x1_0000_0000 else w }

  /** What `ardaos_read_file` returns and what it loads into the caller's buffer. */
  datatype Loaded = Loaded(rc: int, bytes: seq<byte>)

  function Load(d: Disk, g: Geo, f: Found): Loaded {
    if f.Missing? || IsDirectory(f.e) then Loaded(-1, [])
    else Loaded(Signed(f.e.size), Span(d, g.ClusterLba(f.e.cluster), 0, 512 * SectorsToRead(f.e.size)))
  }

  function ReadFile(d: Disk, g: Geo, name: seq<byte>, ext: seq<byte>, out: Entry): Loaded {
    Load(d, g, FindEntry(d, g, BuildPath(name, ext), g.RootLba(), 32, out))
  }

  /** A valid 8.3 name is looked up in the root directory. */
  lemma FindEntryIs(d: Disk, g: Geo, name: seq<byte>, ext: seq<byte>, out: Entry)
    requires GeoOk(g, d) && Canonical(name, ext)
    ensures FindEntry(d, g, BuildPath(name, ext), g.RootLba(), 32, out) == Lookup(View(d, g).root, name, ext)
  {
    hide Canonical, ParseNode, BuildPath, DirsAt, Lookup, GeoOk;
    BuildOfCanonical(name, ext);
  }

  lemma ReadFileIs(d: Disk, g: Geo, name: seq<byte>, ext: seq<byte>, out: Entry)
    requires GeoOk(g, d) && Canonical(name, ext)
    ensures ReadFile(d, g, name, ext, out) == Load(d, g, Lookup(View(d, g).root, name, ext))
  {
    hide Canonical, FindEntry, BuildPath, View, Load, Lookup, GeoOk;
    FindEntryIs(d, g, name, ext, out);
  }

  // ---------------------------------------------------------------- paths without a name

  /** Empty, or one slash. */
  predicate NamesNothing(path: seq<byte>) { path == [] || (|path| == 1 && IsSlash(path[0])) }

  function Plainly(size: nat): Entry { Entry([], [], 0, [], 0, 0, 0, size) }

  /** What a lookup yields depends on what the caller's entry happened to hold exactly when
      the path names nothing; then it is that entry, reported as found. */
  lemma GuessIff(d: Disk, g: Geo, path: seq<byte>, lba: nat, n: nat)
    ensures (exists a: Entry, b: Entry :: FindEntry(d, g, path, lba, n, a) != FindEntry(d, g, path, lba, n, b)) <==>
      NamesNothing(path)
    ensures NamesNothing(path) <==> forall out: Entry :: FindEntry(d, g, path, lba, n, out) == Found(out)
  {
    hide Lookup, DirsAt, Geo.ClusterLba;
    var a, b := Plainly(0), Plainly(1);
    if NamesNothing(path) {
      assert FindEntry(d, g, path, lba, n, a) != FindEntry(d, g, path, lba, n, b);
    } else {
      forall out: Entry ensures FindEntry(d, g, path, lba, n, out) == FindEntry(d, g, path, lba, n, a) {}
      assert FindEntry(d, g, path, lba, n, b) != Found(b) || FindEntry(d, g, path, lba, n, a) != Found(a);
    }
  }

  lemma PlainFiles()
    ensures !IsDirectory(Plainly(0)) && !IsDirectory(Plainly(1))
  {
  }

  /** `ardaos_read_file` of such a name returns the size an uninitialised entry held. */
  lemma ReadGuessIff(d: Disk, g: Geo, name: seq<byte>, ext: seq<byte>)
    ensures (exists a: Entry, b: Entry :: ReadFile(d, g, name, ext, a) != ReadFile(d, g, name, ext, b)) <==>
      NamesNothing(BuildPath(name, ext))
    ensures NamesNothing(BuildPath(name, ext)) ==>
      forall out: Entry :: ReadFile(d, g, name, ext, out).rc == if IsDirectory(out) then -1 else Signed(out.size)
  {
    hide FindEntry, BuildPath, NamesNothing, Span, IsDirectory;
    var path, root := BuildPath(name, ext), g.RootLba();
    GuessIff(d, g, path, root, 32);
    if NamesNothing(path) {
      forall out: Entry ensures ReadFile(d, g, name, ext, out) == Load(d, g, Found(out)) {
        assert FindEntry(d, g, path, root, 32, out) == Found(out);
      }
      PlainFiles();
      assert ReadFile(d, g, name, ext, Plainly(0)) != ReadFile(d, g, name, ext, Plainly(1));
    } else {
      forall a: Entry, b: Entry ensures ReadFile(d, g, name, ext, a) == ReadFile(d, g, name, ext, b) {
        assert FindEntry(d, g, path, root, 32, a) == FindEntry(d, g, path, root, 32, b);
      }
    }
  }

  lemma JoinedNames(stem: seq<byte>, tail: seq<byte>)
    requires DOT !in stem
    ensures !NamesNothing(stem + [DOT] + tail)
  {
    assert (stem + [DOT] + tail)[|stem|] == DOT;
  }

  lemma DottedNames(stem: seq<byte>)
    requires DOT in stem
    ensures !NamesNothing(stem)
  {
  }

  /** The names that do it: blank, or one slash, with a blank extension. */
  lemma NamesNothingIff(name: seq<byte>, ext: seq<byte>)
    ensures NamesNothing(BuildPath(name, ext)) <==>
      (ext == [] || ext[0] == SPACE) && NamesNothing(Trim(if |name| <= 60 then name else name[..60]))
  {
    hide Trim, NamesNothing;
    var stem := Trim(if |name| <= 60 then name else name[..60]);
    if DOT in stem {
      DottedNames(stem);
    } else if ext != [] && ext[0] != SPACE {
      JoinedNames(stem, Trim(if |ext| <= 3 then ext else ext[..3]));
    }
  }

  // ---------------------------------------------------------------- lookups after an entry was set

  lemma {:induction false} MatchInSkips(dir: Dir, m: nat, name: seq<byte>, ext: seq<byte>)
    requires m <= 16 && MatchIn(dir, m, name, ext) < 16
    ensures forall j :: m <= j <= MatchIn(dir, m, name, ext) ==> dir[j].name[0] != 0
    decreases 16 - m
  {
    if !LiveMatch(dir[m], name, ext) { MatchInSkips(dir, m + 1, name, ext); }
  }

  lemma {:induction false} MatchInPlaced(dir: Dir, i: nat, e: Entry, m: nat, name: seq<byte>, ext: seq<byte>)
    requires m <= i < 16 && EntryOk(e) && LiveMatch(e, name, ext)
    requires MatchIn(dir, m, name, ext) in {i, 16} && forall j :: m <= j < i ==> dir[j].name[0] != 0
    ensures MatchIn(SetDir(dir, i, e), m, name, ext) == i
    decreases 16 - m
  {
    if m < i {
      assert SetDir(dir, i, e)[m] == dir[m];
      MatchInPlaced(dir, i, e, m + 1, name, ext);
    }
  }

  /** A never-used entry hides nothing: entries after it are never used either. */
  predicate TailOk(dir: Dir) {
    forall i, j :: 0 <= i < j < 16 && dir[i].name[0] == 0 ==> dir[j].name[0] == 0
  }

  lemma TailOkAt(root: Root, s: nat)
    requires ZeroTail(root) && s < 32
    ensures TailOk(root[s])
  {
    forall a: nat, b: nat | a < b < 16 && root[s][a].name[0] == 0 ensures root[s][b].name[0] == 0 {
      assert Slot(s, a) && Slot(s, b) && At(root, s, a).name[0] == 0;
      assert At(root, s, b).name[0] == 0;
    }
  }

  lemma {:induction false} MatchInOther(dir: Dir, i: nat, e: Entry, m: nat, name: seq<byte>, ext: seq<byte>)
    requires m <= 16 && i < 16 && EntryOk(e) && TailOk(dir) && e.name[0] != 0
    requires !LiveMatch(e, name, ext) && !LiveMatch(dir[i], name, ext)
    ensures MatchIn(SetDir(dir, i, e), m, name, ext) == MatchIn(dir, m, name, ext)
    decreases 16 - m
  {
    if m < 16 {
      MatchInOther(dir, i, e, m + 1, name, ext);
      if m == i && dir[i].name[0] == 0 && m < 15 {
        assert dir[m + 1].name[0] == 0;
      }
    }
  }

  lemma {:induction false} FindSame(a: seq<Dir>, b: seq<Dir>, s: nat, name: seq<byte>, ext: seq<byte>)
    requires |a| == |b| && s <= |a|
    requires forall r :: s <= r < |a| ==> MatchIn(a[r], 0, name, ext) == MatchIn(b[r], 0, name, ext)
    ensures Find(a, s, name, ext) == Find(b, s, name, ext)
    decreases |a| - s
  {
    if s < |a| && MatchIn(a[s], 0, name, ext) == 16 { FindSame(a, b, s + 1, name, ext); }
  }

  lemma {:induction false} FindIs(dirs: seq<Dir>, s: nat, name: seq<byte>, ext: seq<byte>, p: Place)
    requires s <= |dirs| && p.Place? && s <= p.s < |dirs| && MatchIn(dirs[p.s], 0, name, ext) == p.i < 16
    requires forall r :: s <= r < p.s ==> MatchIn(dirs[r], 0, name, ext) == 16
    ensures Find(dirs, s, name, ext) == p
    decreases |dirs| - s
  {
    if s < p.s { FindIs(dirs, s + 1, name, ext, p); }
  }

  /** The slot a write chose is the one a later lookup finds. */
  lemma FindWritten(v: Volume, name: seq<byte>, ext: seq<byte>, size: nat)
    requires NameOk(name, ext) && |v.fat| >= 2
    ensures var t := WriteTarget(v, name, ext, size);
      t.Target? ==> Find(SetEntry(v.root, t.s, t.i, t.e), 0, name, ext) == Place(t.s, t.i)
  {
    hide MatchIn, EffSize, NameOk, SetEntry, LiveMatch;
    var t := WriteTarget(v, name, ext, size);
    if t.Target? {
      var dir := v.root[t.s];
      if Find(v.root, 0, name, ext).Place? {
        MatchInSkips(dir, 0, name, ext);
      } else {
        assert forall j :: 0 <= j < t.i ==> !Free(dir[j]);
      }
      MatchInPlaced(dir, t.i, t.e, 0, name, ext);
      SetEntrySectors(v.root, t.s, t.i, t.e);
      FindIs(SetEntry(v.root, t.s, t.i, t.e), 0, name, ext, Place(t.s, t.i));
    }
  }

  lemma SetEntrySectors(root: Root, s: nat, i: nat, e: Entry)
    requires Slot(s, i) && EntryOk(e)
    ensures forall r: nat :: r < 32 ==> SetEntry(root, s, i, e)[r] == if r == s then SetDir(root[s], i, e) else root[r]
  {
  }

  /** Setting a slot does not change where other names are found. */
  lemma FindOther(root: Root, s: nat, i: nat, e: Entry, name: seq<byte>, ext: seq<byte>)
    requires ZeroTail(root) && Slot(s, i) && EntryOk(e) && e.name[0] != 0
    requires !LiveMatch(e, name, ext) && !LiveMatch(At(root, s, i), name, ext)
    ensures Find(SetEntry(root, s, i, e), 0, name, ext) == Find(root, 0, name, ext)
    ensures var p := Find(root, 0, name, ext);
      p.Place? ==> (p.s != s || p.i != i) && At(SetEntry(root, s, i, e), p.s, p.i) == At(root, p.s, p.i)
  {
    hide MatchIn, SetEntry;
    TailOkAt(root, s);
    MatchInOther(root[s], i, e, 0, name, ext);
    SetEntrySectors(root, s, i, e);
    FindSame(SetEntry(root, s, i, e), root, 0, name, ext);
  }

  // ---------------------------------------------------------------- how much is loaded

  /** Whole sectors, at least one; the last 511 of all 32-bit sizes wrap to none. */
  lemma LoadedAmount(d: Disk, g: Geo, e: Entry)
    requires EntryOk(e) && e.attr / 16 % 2 == 0
    ensures var r := Load(d, g, Found(e));
      && |r.bytes| % 512 == 0 && (r.rc - e.size) % 0x1_0000_0000 == 0 && -0x8000_0000 <= r.rc < 0x8000_0000
      && (e.size == 0 ==> |r.bytes| == 512)
      && (0 < e.size <= 0xFFFF_FE00 ==> e.size <= |r.bytes| < e.size + 512)
      && (e.size > 0xFFFF_FE00 ==> r.bytes == [])
  {
    hide Span;
  }
}
