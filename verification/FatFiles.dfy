/** What `ardaos_write_file` and `ardaos_delete_file` do to the disk: the list of
    single-sector writes each one issues, in order. */
module FatFiles {
  import opened Bytes
  import opened FatCodec
  import opened FatVolume
  import opened FatDisk

  // ---------------------------------------------------------------- directory scans

  datatype Place = Nowhere | Place(s: nat, i: nat)

  /** What `strncmp` calls equal: it looks no further than a zero byte in both. */
  predicate SameText(a: seq<byte>, b: seq<byte>) {
    if a == [] || b == [] then a == b else a[0] == b[0] && (a[0] == 0 || SameText(a[1..], b[1..]))
  }

  /** Without zero bytes in one of them this is equality. */
  lemma {:induction false} SameTextIff(a: seq<byte>, b: seq<byte>)
    requires 0 !in a || 0 !in b
    ensures SameText(a, b) <==> a == b
    decreases |a|
  {
    if a != [] && b != [] {
      assert a == [a[0]] + a[1..] && b == [b[0]] + b[1..];
      if a[0] == b[0] { SameTextIff(a[1..], b[1..]); }
    }
  }

  lemma {:induction false} SameTextOf(a: seq<byte>)
    ensures SameText(a, a)
    decreases |a|
  {
    if a != [] { SameTextOf(a[1..]); }
  }

  lemma {:induction false} SameTextJoins(a: seq<byte>, b: seq<byte>, c: seq<byte>)
    requires SameText(a, b) && SameText(c, b)
    ensures SameText(a, c)
    decreases |a|
  {
    if a != [] && b != [] && c != [] && a[0] != 0 { SameTextJoins(a[1..], b[1..], c[1..]); }
  }

  predicate LiveMatch(e: Entry, name: seq<byte>, ext: seq<byte>)
    requires EntryOk(e)
  {
    !Free(e) && SameText(e.name, name) && SameText(e.ext, ext)
  }

  /** Two names `strncmp` tells apart. */
  predicate OtherName(name: seq<byte>, ext: seq<byte>, name2: seq<byte>, ext2: seq<byte>) {
    !SameText(name, name2) || !SameText(ext, ext2)
  }

  lemma OtherNameIff(name: seq<byte>, ext: seq<byte>, name2: seq<byte>, ext2: seq<byte>)
    requires 0 !in name2 && 0 !in ext2
    ensures OtherName(name, ext, name2, ext2) <==> name2 != name || ext2 != ext
  {
    SameTextIff(name, name2);
    SameTextIff(ext, ext2);
  }

  lemma SameTextSwaps(a: seq<byte>, b: seq<byte>)
    ensures SameText(a, b) == SameText(b, a)
  {
    SameTextOf(a);
    SameTextOf(b);
    if SameText(a, b) { SameTextJoins(b, b, a); }
    if SameText(b, a) { SameTextJoins(a, a, b); }
  }

  /** No entry matches two names that differ. */
  lemma MatchesOne(e: Entry, name: seq<byte>, ext: seq<byte>, name2: seq<byte>, ext2: seq<byte>)
    requires EntryOk(e) && LiveMatch(e, name, ext) && OtherName(name, ext, name2, ext2)
    ensures !LiveMatch(e, name2, ext2)
  {
    hide SameText;
    SameTextSwaps(e.name, name);
    SameTextSwaps(e.name, name2);
    SameTextSwaps(e.ext, ext);
    SameTextSwaps(e.ext, ext2);
    if LiveMatch(e, name2, ext2) {
      SameTextJoins(name, e.name, name2);
      SameTextJoins(ext, e.ext, ext2);
    }
  }

  /** First match in a directory sector from slot `i` on, or 16. The scan of a sector
      stops at a never-used entry. */
  function MatchIn(dir: Dir, i: nat, name: seq<byte>, ext: seq<byte>): (k: nat)
    requires i <= 16
    ensures k == 16 || (i <= k < 16 && LiveMatch(dir[k], name, ext))
    decreases 16 - i
  {
    if i == 16 || dir[i].name[0] == 0 then 16
    else if LiveMatch(dir[i], name, ext) then i
    else MatchIn(dir, i + 1, name, ext)
  }

  /** First match in directory sectors s, s + 1, ... */
  function Find(dirs: seq<Dir>, s: nat, name: seq<byte>, ext: seq<byte>): (p: Place)
    requires s <= |dirs|
    ensures p.Place? ==> s <= p.s < |dirs| && p.i < 16 && LiveMatch(dirs[p.s][p.i], name, ext)
    ensures p.Place? ==> MatchIn(dirs[p.s], 0, name, ext) == p.i
    ensures forall r :: s <= r < (if p.Place? then p.s else |dirs|) ==> MatchIn(dirs[r], 0, name, ext) == 16
    decreases |dirs| - s
  {
    if s == |dirs| then Nowhere
    else if MatchIn(dirs[s], 0, name, ext) < 16 then Place(s, MatchIn(dirs[s], 0, name, ext))
    else Find(dirs, s + 1, name, ext)
  }

  function FreeIn(dir: Dir, i: nat): (k: nat)
    requires i <= 16
    ensures i <= k <= 16 && (k < 16 ==> Free(dir[k]))
    ensures forall j :: i <= j < k ==> !Free(dir[j])
    decreases 16 - i
  {
    if i == 16 || Free(dir[i]) then i else FreeIn(dir, i + 1)
  }

  /** First unused slot in directory sectors s, s + 1, ... */
  function FindFree(dirs: seq<Dir>, s: nat): (p: Place)
    requires s <= |dirs|
    ensures p.Place? ==> s <= p.s < |dirs| && p.i < 16 && FreeIn(dirs[p.s], 0) == p.i
    ensures forall r :: s <= r < (if p.Place? then p.s else |dirs|) ==> FreeIn(dirs[r], 0) == 16
    decreases |dirs| - s
  {
    if s == |dirs| then Nowhere
    else if FreeIn(dirs[s], 0) < 16 then Place(s, FreeIn(dirs[s], 0))
    else FindFree(dirs, s + 1)
  }

  // ---------------------------------------------------------------- writing

  /** A name a caller may write: eleven bytes that do not read as an unused entry. */
  predicate NameOk(name: seq<byte>, ext: seq<byte>) {
    && |name| == 8 && |ext| == 3 && name[0] != 0 && name[0] != DELETED
  }

  /** The size the file gets: out-of-range sizes become one sector. */
  function EffSize(size: nat): (n: nat)
    ensures 1 <= n <= 10240
  {
    if size == 0 || size > 10240 then 512 else size
  }

  /** Sizes from 1 to 10240 are taken as they are, all others are one sector. */
  lemma EffSizeIs(size: nat)
    ensures EffSize(size) == if 1 <= size <= 10240 then size else 512
  {
  }

  function SectorCount(size: nat): nat { (size + 511) / 512 }

  /** Which slot a write goes to, the entry it leaves there, and whether the entry's
      cluster has to be claimed first. */
  datatype Target = NoRoom | Target(s: nat, i: nat, claim: bool, e: Entry)

  function WriteTarget(v: Volume, name: seq<byte>, ext: seq<byte>, size: nat): (t: Target)
    requires NameOk(name, ext) && |v.fat| >= 2
    ensures t.Target? ==>
      Slot(t.s, t.i) && EntryOk(t.e) && HasChain(t.e) && LiveMatch(t.e, name, ext) && t.e.size == EffSize(size)
    ensures t.Target? && t.claim ==> t.e.cluster < |v.fat| && v.fat[t.e.cluster] == 0 && !HasChain(At(v.root, t.s, t.i))
    ensures t.Target? && !t.claim ==> SameChain(t.e, At(v.root, t.s, t.i))
  {
    var found := Find(v.root, 0, name, ext);
    var p := if found.Place? then found else FindFree(v.root, 0);
    if p.Nowhere? then NoRoom else
    var was := At(v.root, p.s, p.i);
    if found.Place? && was.cluster >= 2 then Target(p.s, p.i, false, was.(size := EffSize(size))) else
    var c := FirstFree(v.fat, 2);
    SameTextOf(name);
    SameTextOf(ext);
    if c == |v.fat| then NoRoom
    else Target(p.s, p.i, true, Entry(name, ext, 0, was.reserved, 0, 0, c, EffSize(size)))
  }

  function SetTable(t: Table, i: nat, w: Word): Table
    requires i < 256
  {
    t[i := w]
  }

  /** A FAT sector going to both copies. */
  function TableWrites(g: Geo, f: nat, t: Table): seq<Wr> {
    [Wr(g.reserved + f, EncodeTable(t))] + if g.fatCount > 1 then [Wr(g.reserved + g.spf + f, EncodeTable(t))] else []
  }

  function ClaimWrites(d: Disk, g: Geo, c: nat): seq<Wr> {
    TableWrites(g, c / 256, SetTable(TableAt(d, g.reserved + c / 256), c % 256, END_MARK))
  }

  /** Sector `j` of a buffer. */
  function Chunk(buf: seq<byte>, j: nat): Sector
    requires 512 * (j + 1) <= |buf|
  {
    buf[512 * j..512 * (j + 1)]
  }

  function DataWrites(lba: nat, n: nat, buf: seq<byte>): (ws: seq<Wr>)
    requires 512 * n <= |buf|
    ensures |ws| == n && forall j :: 0 <= j < n ==> ws[j] == Wr(lba + j, Chunk(buf, j))
  {
    seq(n, j requires 0 <= j < n => Wr(lba + j, Chunk(buf, j)))
  }

  function SetDir(dir: Dir, i: nat, e: Entry): Dir
    requires i < 16 && EntryOk(e)
  {
    dir[i := e]
  }

  function DirWrite(d: Disk, g: Geo, s: nat, i: nat, e: Entry): Wr
    requires Slot(s, i) && EntryOk(e)
  {
    Wr(g.RootLba() + s, EncodeDir(SetDir(DirAt(d, g.RootLba() + s), i, e)))
  }

  /** The caller's buffer holds every sector that will be written. */
  predicate BufferOk(size: nat, buf: seq<byte>): (ok: bool)
    ensures ok ==> 512 <= |buf|
  {
    512 * SectorCount(EffSize(size)) <= |buf|
  }

  /** `ardaos_write_file`: claim in both FATs, then the data, then the entry. */
  function WritePlan(d: Disk, g: Geo, name: seq<byte>, ext: seq<byte>, size: nat, buf: seq<byte>): seq<Wr>
    requires NameOk(name, ext) && BufferOk(size, buf)
  {
    match WriteTarget(View(d, g), name, ext, size)
    case NoRoom => []
    case Target(s, i, claim, e) =>
      (if claim then ClaimWrites(d, g, e.cluster) else [])
      + DataWrites(g.ClusterLba(e.cluster), SectorCount(e.size), buf)
      + [DirWrite(d, g, s, i, e)]
  }

  // ---------------------------------------------------------------- deleting

  function Retired(e: Entry): (r: Entry)
    requires EntryOk(e)
    ensures EntryOk(r) && Free(r) && r.name[0] != 0
  {
    e.(name := [DELETED] + e.name[1..])
  }

  function ClearedTable(t: Table, c: nat, n: nat): (r: Table)
    requires c + n <= 256
    ensures forall x: nat :: x < 256 ==> r[x] == if c <= x < c + n then 0 else t[x]
  {
    seq<Word>(256, x requires 0 <= x < 256 => if c <= x < c + n then 0 else t[x])
  }

  /** What the code needs to delete a file: its chain is sound and lies in the part of
      the table that fits in one sector. */
  predicate DeleteOk(v: Volume, name: seq<byte>, ext: seq<byte>) {
    var p := Find(v.root, 0, name, ext);
    p.Place? && At(v.root, p.s, p.i).cluster >= 2 ==>
      var c := At(v.root, p.s, p.i).cluster;
      ChainOk(v.fat, c) && c + Length(v.fat, c) <= 256
  }

  /** The chain from `c` zeroed in both copies of the first FAT sector. */
  function ReturnWrites(d: Disk, g: Geo, c: nat): seq<Wr>
    requires c < g.Clusters() && c + Length(View(d, g).fat, c) <= 256
  {
    TableWrites(g, 0, ClearedTable(TableAt(d, g.reserved), c, Length(View(d, g).fat, c)))
  }

  /** `ardaos_delete_file`: retire the entry, then return its chain in both FATs. */
  function DeletePlan(d: Disk, g: Geo, name: seq<byte>, ext: seq<byte>): seq<Wr>
    requires DeleteOk(View(d, g), name, ext)
  {
    var v := View(d, g);
    var p := Find(v.root, 0, name, ext);
    if p.Nowhere? then [] else
    var e := At(v.root, p.s, p.i);
    [DirWrite(d, g, p.s, p.i, Retired(e))] + if e.cluster >= 2 then ReturnWrites(d, g, e.cluster) else []
  }
}
