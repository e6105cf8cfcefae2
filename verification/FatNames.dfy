/** Names in the root directory: lookups miss nothing, writes never duplicate a name, and
    a deleted file is gone. */
module FatNames {
  import opened Bytes
  import opened FatCodec
  import opened FatVolume
  import opened FatDisk
  import opened FatFiles
  import opened FatProofs
  import opened FatInvariant
  import opened FatRead
  import opened FatReadBack
  import opened PathSpec

  lemma {:induction false} MatchInComplete(dir: Dir, m: nat, name: seq<byte>, ext: seq<byte>)
    requires m <= 16 && TailOk(dir) && MatchIn(dir, m, name, ext) == 16
    ensures forall j :: m <= j < 16 ==> !LiveMatch(dir[j], name, ext)
    decreases 16 - m
  {
    if m < 16 && dir[m].name[0] != 0 { MatchInComplete(dir, m + 1, name, ext); }
  }

  /** Although the scan of a sector stops at a never-used entry, a lookup fails exactly
      when no live entry anywhere in the root has the name. */
  lemma FindFailsIff(root: Root, name: seq<byte>, ext: seq<byte>)
    requires ZeroTail(root)
    ensures Find(root, 0, name, ext).Nowhere? <==>
      forall s: nat, i: nat :: Slot(s, i) ==> !LiveMatch(At(root, s, i), name, ext)
  {
    hide MatchIn;
    var p := Find(root, 0, name, ext);
    if p.Place? {
      assert Slot(p.s, p.i) && LiveMatch(At(root, p.s, p.i), name, ext);
    } else {
      forall s: nat, i: nat | Slot(s, i) ensures !LiveMatch(At(root, s, i), name, ext) {
        TailOkAt(root, s);
        MatchInComplete(root[s], 0, name, ext);
      }
    }
  }

  predicate SameName(a: Entry, b: Entry)
    requires EntryOk(a) && EntryOk(b)
  {
    !Free(a) && !Free(b) && SameText(a.name, b.name) && SameText(a.ext, b.ext)
  }

  /** No two live entries share a name. */
  ghost predicate UniqueNames(root: Root) {
    forall s: nat, i: nat, r: nat, j: nat :: Slot(s, i) && Slot(r, j) && SameName(At(root, s, i), At(root, r, j)) ==>
        s == r && i == j
  }

  lemma SameNameJoins(a: Entry, b: Entry, name: seq<byte>, ext: seq<byte>)
    requires EntryOk(a) && EntryOk(b) && LiveMatch(a, name, ext)
    ensures LiveMatch(b, name, ext) <==> SameName(a, b)
    ensures SameName(a, b) == SameName(b, a)
  {
    hide SameText;
    if LiveMatch(b, name, ext) {
      SameTextJoins(a.name, name, b.name);
      SameTextJoins(a.ext, ext, b.ext);
    }
    SameTextSwaps(a.name, b.name);
    SameTextSwaps(a.ext, b.ext);
    SameTextSwaps(a.name, name);
    SameTextSwaps(a.ext, ext);
    if SameName(a, b) {
      SameTextJoins(b.name, a.name, name);
      SameTextJoins(b.ext, a.ext, ext);
    }
  }

  lemma SameNameSwaps(a: Entry, b: Entry)
    requires EntryOk(a) && EntryOk(b)
    ensures SameName(a, b) == SameName(b, a)
  {
    hide SameText;
    SameTextSwaps(a.name, b.name);
    SameTextSwaps(a.ext, b.ext);
  }

  /** What a lookup finds is the only live entry of that name. */
  lemma OnlyMatch(root: Root, name: seq<byte>, ext: seq<byte>)
    requires ZeroTail(root) && UniqueNames(root)
    ensures forall s: nat, i: nat :: Slot(s, i) && LiveMatch(At(root, s, i), name, ext) ==>
      Find(root, 0, name, ext) == Place(s, i)
  {
    hide MatchIn, ZeroTail;
    FindFailsIff(root, name, ext);
    forall s: nat, i: nat | Slot(s, i) && LiveMatch(At(root, s, i), name, ext)
      ensures Find(root, 0, name, ext) == Place(s, i)
    {
      var p := Find(root, 0, name, ext);
      SameNameJoins(At(root, p.s, p.i), At(root, s, i), name, ext);
      assert SameName(At(root, p.s, p.i), At(root, s, i));
    }
  }

  lemma WriteKeepsNames(v: Volume, name: seq<byte>, ext: seq<byte>, size: nat)
    requires NameOk(name, ext) && |v.fat| >= 2 && ZeroTail(v.root) && UniqueNames(v.root)
    ensures UniqueNames(Written(v, WriteTarget(v, name, ext, size)).root)
  {
    hide SetEntry, EffSize, MatchIn, ZeroTail, FirstFree;
    var t := WriteTarget(v, name, ext, size);
    OnlyMatch(v.root, name, ext);
    if t.Target? {
      var root' := SetEntry(v.root, t.s, t.i, t.e);
      forall r: nat, j: nat | Slot(r, j) && (r != t.s || j != t.i) ensures !SameName(At(root', r, j), t.e) {
        SameNameJoins(t.e, At(v.root, r, j), name, ext);
        assert !LiveMatch(At(v.root, r, j), name, ext);
      }
      SettingKeepsNames(v.root, t.s, t.i, t.e);
    }
  }

  lemma SettingKeepsNames(root: Root, s: nat, i: nat, e: Entry)
    requires Slot(s, i) && EntryOk(e) && UniqueNames(root)
    requires forall r: nat, j: nat :: Slot(r, j) && (r != s || j != i) ==> !SameName(At(root, r, j), e)
    ensures UniqueNames(SetEntry(root, s, i, e))
  {
    hide SetEntry;
    var root' := SetEntry(root, s, i, e);
    forall a: nat, b: nat, r: nat, j: nat | Slot(a, b) && Slot(r, j) && SameName(At(root', a, b), At(root', r, j))
      ensures a == r && b == j
    {
      SameNameSwaps(At(root', a, b), At(root', r, j));
      if (a != s || b != i) && (r != s || j != i) {
        assert SameName(At(root, a, b), At(root, r, j));
      }
    }
  }

  /** A deleted name is gone exactly when no second live entry had it. */
  lemma DeleteThenLookupIff(root: Root, name: seq<byte>, ext: seq<byte>)
    requires ZeroTail(root) && Find(root, 0, name, ext).Place?
    ensures var p := Find(root, 0, name, ext);
      Find(SetEntry(root, p.s, p.i, Retired(At(root, p.s, p.i))), 0, name, ext).Nowhere? <==>
      forall s: nat, i: nat :: Slot(s, i) && (s != p.s || i != p.i) ==> !LiveMatch(At(root, s, i), name, ext)
  {
    hide MatchIn, SetEntry, Retired;
    var p := Find(root, 0, name, ext);
    var e := Retired(At(root, p.s, p.i));
    var root' := SetEntry(root, p.s, p.i, e);
    LiveBefore(root, p.s, p.i);
    ZeroTailKept(root, p.s, p.i, e);
    FindFailsIff(root', name, ext);
    assert forall s: nat, i: nat :: Slot(s, i) ==>
      (LiveMatch(At(root', s, i), name, ext) <==> (LiveMatch(At(root, s, i), name, ext) && (s != p.s || i != p.i)));
  }

  lemma DeleteKeepsNames(d: Disk, g: Geo, name: seq<byte>, ext: seq<byte>)
    requires GeoOk(g, d) && UniqueNames(View(d, g).root) && DeleteOk(View(d, g), name, ext)
    ensures GeoOk(g, Apply(d, DeletePlan(d, g, name, ext))) &&
        UniqueNames(View(Apply(d, DeletePlan(d, g, name, ext)), g).root)
  {
    hide View, Apply, DeletePlan, GeoOk, DeleteOk, MatchIn, SetEntry, Retired;
    var p := Find(View(d, g).root, 0, name, ext);
    GeoStays(d, g, DeletePlan(d, g, name, ext));
    if p.Nowhere? {
      NothingToDelete(d, g, name, ext);
      ApplyNone(d);
    } else {
      AfterDelete(d, g, name, ext);
      SettingKeepsNames(View(d, g).root, p.s, p.i, Retired(At(View(d, g).root, p.s, p.i)));
    }
  }

  /** After a delete the file can no longer be read. */
  lemma DeleteThenRead(d: Disk, g: Geo, name: seq<byte>, ext: seq<byte>, out: Entry)
    requires GeoOk(g, d) && ZeroTail(View(d, g).root) && UniqueNames(View(d, g).root)
    requires DeleteOk(View(d, g), name, ext) && Canonical(name, ext)
    ensures GeoOk(g, Apply(d, DeletePlan(d, g, name, ext)))
    ensures ReadFile(Apply(d, DeletePlan(d, g, name, ext)), g, name, ext, out).rc == -1
    ensures Lookup(View(Apply(d, DeletePlan(d, g, name, ext)), g).root, name, ext).Missing?
  {
    hide View, Apply, DeletePlan, ZeroTail, GeoOk, FindEntry, BuildPath, ReadFile, Canonical, DeleteOk, MatchIn,
         SetEntry, Retired;
    var root, p := View(d, g).root, Find(View(d, g).root, 0, name, ext);
    var d' := Apply(d, DeletePlan(d, g, name, ext));
    GeoStays(d, g, DeletePlan(d, g, name, ext));
    ReadFileIs(d', g, name, ext, out);
    if p.Nowhere? {
      NothingToDelete(d, g, name, ext);
      ApplyNone(d);
    } else {
      AfterDelete(d, g, name, ext);
      CanonicalText(name, ext);
      OnlyMatch(root, name, ext);
      DeleteThenLookupIff(root, name, ext);
    }
  }
}
