/** Cluster chains and root entries of a FAT16 volume, as src/disk.c allocates and
    frees them: files are contiguous runs of clusters. */
module FatVolume {
  import opened Bytes
  import opened FatCodec

  const DELETED: byte := 0xE5
  const END_MARK: Word := 0xFFFF
  const END_MIN: nat := 0xFFF8

  type Fat = t: seq<Word> | |t| <= 0xFF00

  /** The root directory, sector by sector. */
  type Root = r: seq<Dir> | |r| == 32 witness seq(32, _ => EmptyDir())

  function EmptyEntry(): Entry { Entry(seq(8, _ => 0), seq(3, _ => 0), 0, seq(10, _ => 0), 0, 0, 0, 0) }
  function EmptyDir(): Dir { seq(16, _ => EmptyEntry()) }

  datatype Volume = Volume(fat: Fat, root: Root)

  predicate Slot(s: nat, i: nat) { s < 32 && i < 16 }

  function At(root: Root, s: nat, i: nat): (e: Entry)
    requires Slot(s, i)
    ensures EntryOk(e)
  {
    root[s][i]
  }

  predicate Free(e: Entry)
    requires EntryOk(e)
  {
    e.name[0] == 0 || e.name[0] == DELETED
  }

  /** A live entry that owns clusters. */
  predicate HasChain(e: Entry)
    requires EntryOk(e)
  {
    !Free(e) && e.cluster >= 2
  }

  /** Slot (s, i) of the root holds a live entry whose first cluster is `c`. */
  predicate Holds(root: Root, s: nat, i: nat, c: nat) {
    Slot(s, i) && HasChain(At(root, s, i)) && At(root, s, i).cluster == c
  }

  /** Number of clusters reached from `c` by following links to the next cluster. */
  function Length(fat: Fat, c: nat): (n: nat)
    requires c < |fat|
    ensures n >= 1 && c + n <= |fat|
    ensures forall x :: c <= x < c + n - 1 ==> fat[x] == x + 1
    ensures c + n == |fat| || fat[c + n - 1] != c + n
    decreases |fat| - c
  {
    if fat[c] == c + 1 && c + 1 < |fat| then 1 + Length(fat, c + 1) else 1
  }

  /** The chain from `c` is contiguous, allocated throughout and properly ended. */
  predicate ChainOk(fat: Fat, c: nat) {
    2 <= c < |fat| && fat[c + Length(fat, c) - 1] >= END_MIN
  }

  predicate InChain(fat: Fat, c: nat, x: nat) {
    c < |fat| && c <= x < c + Length(fat, c)
  }

  predicate Apart(fat: Fat, c: nat, d: nat)
    requires c < |fat| && d < |fat|
  {
    c + Length(fat, c) <= d || d + Length(fat, d) <= c
  }

  /** What must hold whenever the power may fail: no live entry stands on free space
      and no two live entries share a cluster. */
  ghost predicate CrashSafe(v: Volume) {
    && (forall s: nat, i: nat, c: nat :: Holds(v.root, s, i, c) ==> ChainOk(v.fat, c))
    && (forall s: nat, i: nat, c: nat, r: nat, j: nat, d: nat ::
          Holds(v.root, s, i, c) && Holds(v.root, r, j, d) && (s != r || i != j) ==> Apart(v.fat, c, d))
  }

  predicate OwnedBy(v: Volume, s: nat, i: nat, x: nat) {
    Slot(s, i) && HasChain(At(v.root, s, i)) && InChain(v.fat, At(v.root, s, i).cluster, x)
  }

  ghost predicate Owned(v: Volume, x: nat) {
    exists s: nat, i: nat :: OwnedBy(v, s, i, x)
  }

  /** The table entries in use are exactly those in chains: nothing is leaked. */
  ghost predicate Tight(v: Volume) {
    forall x: nat :: 2 <= x < |v.fat| ==> (v.fat[x] != 0 <==> Owned(v, x))
  }

  predicate Roomy(v: Volume, e: Entry, spc: nat)
    requires EntryOk(e)
  {
    HasChain(e) && e.cluster < |v.fat| ==> e.size <= 512 * Times(Length(v.fat, e.cluster), spc)
  }

  /** Every chain is long enough for its file's size. */
  ghost predicate Sized(v: Volume, spc: nat) {
    forall s: nat, i: nat :: Slot(s, i) ==> Roomy(v, At(v.root, s, i), spc)
  }

  /** After a never-used entry a directory sector holds no others. */
  ghost predicate ZeroTail(root: Root) {
    forall s: nat, i: nat, j: nat :: Slot(s, i) && Slot(s, j) && i < j && At(root, s, i).name[0] == 0 ==>
        At(root, s, j).name[0] == 0
  }

  ghost predicate VolumeInv(v: Volume, spc: nat) {
    CrashSafe(v) && Tight(v) && Sized(v, spc) && ZeroTail(v.root)
  }

  // ---------------------------------------------------------------- chains under FAT changes

  lemma {:induction false} LengthIs(fat: Fat, c: nat, n: nat)
    requires c < |fat| && n >= 1 && c + n <= |fat|
    requires forall x :: c <= x < c + n - 1 ==> fat[x] == x + 1
    requires c + n == |fat| || fat[c + n - 1] != c + n
    ensures Length(fat, c) == n
    decreases n
  {
    if n > 1 {
      assert fat[c] == c + 1;
      LengthIs(fat, c + 1, n - 1);
    }
  }

  /** Clusters linked one to the next are a sound chain exactly when the last of them
      holds an end mark, 0xFFF8 or more. */
  lemma ChainEndsIff(fat: Fat, c: nat, n: nat)
    requires 2 <= c && n >= 1 && c + n <= |fat|
    requires forall x :: c <= x < c + n - 1 ==> fat[x] == x + 1
    requires c + n == |fat| || fat[c + n - 1] != c + n
    ensures ChainOk(fat, c) <==> fat[c + n - 1] >= 0xFFF8
  {
    LengthIs(fat, c, n);
  }

  lemma ChainInUse(fat: Fat, c: nat, x: nat)
    requires ChainOk(fat, c) && InChain(fat, c, x)
    ensures fat[x] != 0
  {
  }

  /** The chain from `c` is sound in both tables and equally long. */
  predicate ChainKept(fat: Fat, fat': Fat, c: nat) {
    ChainOk(fat, c) && ChainOk(fat', c) && Length(fat', c) == Length(fat, c)
  }

  /** A chain does not notice changes outside it. */
  lemma ChainUnchanged(fat: Fat, fat': Fat, c: nat)
    requires |fat| == |fat'| && ChainOk(fat, c)
    requires forall x: nat :: InChain(fat, c, x) ==> fat'[x] == fat[x]
    ensures ChainKept(fat, fat', c)
  {
    var n := Length(fat, c);
    assert InChain(fat, c, c + n - 1);
    assert forall x: nat :: c <= x < c + n - 1 ==> InChain(fat, c, x) && fat'[x] == x + 1;
    LengthIs(fat', c, n);
  }

  function SetWord(fat: Fat, c: nat, w: Word): (r: Fat)
    requires c < |fat|
    ensures |r| == |fat| && forall x: nat :: x < |fat| ==> r[x] == if x == c then w else fat[x]
  {
    fat[c := w]
  }

  /** Claiming a free cluster makes it a chain of its own. */
  lemma ClaimIsChain(fat: Fat, c: nat)
    requires 2 <= c < |fat|
    ensures ChainOk(SetWord(fat, c, END_MARK), c) && Length(SetWord(fat, c, END_MARK), c) == 1
  {
    LengthIs(SetWord(fat, c, END_MARK), c, 1);
  }

  /** The clusters c, c + 1, ..., c + n - 1 set free. */
  function Cleared(fat: Fat, c: nat, n: nat): (r: Fat)
    requires c + n <= |fat|
    ensures |r| == |fat| && forall x: nat :: x < |fat| ==> r[x] == if c <= x < c + n then 0 else fat[x]
  {
    seq(|fat|, x requires 0 <= x < |fat| => if c <= x < c + n then 0 else fat[x])
  }

  // ---------------------------------------------------------------- slots and clusters

  /** First free cluster at or after `c`, or the table length. */
  function FirstFree(fat: Fat, c: nat): (k: nat)
    requires c <= |fat|
    ensures c <= k <= |fat|
    ensures k < |fat| ==> fat[k] == 0
    ensures forall x :: c <= x < k ==> fat[x] != 0
    decreases |fat| - c
  {
    if c == |fat| || fat[c] == 0 then c else FirstFree(fat, c + 1)
  }

  function SetEntry(root: Root, s: nat, i: nat, e: Entry): (r: Root)
    requires Slot(s, i) && EntryOk(e)
    ensures forall t: nat, j: nat :: Slot(t, j) ==> At(r, t, j) == if t == s && j == i then e else At(root, t, j)
  {
    var dir: Dir := root[s][i := e];
    root[s := dir]
  }

  // ---------------------------------------------------------------- steps that keep the volume safe

  /** Changing the table outside every live chain. */
  lemma FatChangeIsSafe(v: Volume, fat': Fat)
    requires CrashSafe(v) && |fat'| == |v.fat|
    requires forall s: nat, i: nat, x: nat :: OwnedBy(v, s, i, x) ==> fat'[x] == v.fat[x]
    ensures CrashSafe(v.(fat := fat'))
    ensures forall s: nat, i: nat, c: nat :: Holds(v.root, s, i, c) ==> ChainKept(v.fat, fat', c)
  {
    forall s: nat, i: nat, c: nat | Holds(v.root, s, i, c)
      ensures ChainKept(v.fat, fat', c)
    {
      forall x: nat | InChain(v.fat, c, x) ensures fat'[x] == v.fat[x] {
        assert OwnedBy(v, s, i, x);
      }
      ChainUnchanged(v.fat, fat', c);
    }
  }

  /** After the FAT write alone the new cluster is claimed and nobody owns it. */
  lemma ClaimIsSafe(v: Volume, c: nat)
    requires CrashSafe(v) && 2 <= c < |v.fat| && v.fat[c] == 0
    ensures CrashSafe(v.(fat := SetWord(v.fat, c, END_MARK)))
    ensures forall s: nat, i: nat, d: nat :: Holds(v.root, s, i, d) ==> ChainKept(v.fat, SetWord(v.fat, c, END_MARK), d)
    ensures forall s: nat, i: nat :: !OwnedBy(v, s, i, c)
  {
    forall s: nat, i: nat ensures !OwnedBy(v, s, i, c) {
      if OwnedBy(v, s, i, c) {
        assert Holds(v.root, s, i, At(v.root, s, i).cluster);
        ChainInUse(v.fat, At(v.root, s, i).cluster, c);
      }
    }
    FatChangeIsSafe(v, SetWord(v.fat, c, END_MARK));
  }

  /** Entry `e` may be written to slot (s, i): if it has a chain, no other live entry
      touches it. */
  ghost predicate MayPlace(v: Volume, s: nat, i: nat, e: Entry) {
    && Slot(s, i) && EntryOk(e)
    && (HasChain(e) ==> ChainOk(v.fat, e.cluster) && forall r: nat, j: nat, d: nat ::
          Holds(v.root, r, j, d) && (r != s || j != i) ==> d < |v.fat| && Apart(v.fat, e.cluster, d))
  }

  lemma PlaceIsSafe(v: Volume, s: nat, i: nat, e: Entry)
    requires CrashSafe(v) && MayPlace(v, s, i, e)
    ensures CrashSafe(v.(root := SetEntry(v.root, s, i, e)))
  {
    var root' := SetEntry(v.root, s, i, e);
    forall r: nat, j: nat, d: nat | Holds(root', r, j, d)
      ensures (r == s && j == i && HasChain(e) && d == e.cluster) || ((r != s || j != i) && Holds(v.root, r, j, d))
    {
    }
  }

  // ---------------------------------------------------------------- whole operations on tables and entries

  /** The volume after a write that gave slot (s, i) the free cluster `c`. */
  function Placed(v: Volume, s: nat, i: nat, e: Entry): (v': Volume)
    requires Slot(s, i) && EntryOk(e) && e.cluster < |v.fat|
  {
    Volume(SetWord(v.fat, e.cluster, END_MARK), SetEntry(v.root, s, i, e))
  }

  lemma PlacedIsSafe(v: Volume, s: nat, i: nat, e: Entry)
    requires CrashSafe(v) && Slot(s, i) && EntryOk(e) && HasChain(e)
    requires e.cluster < |v.fat| && v.fat[e.cluster] == 0
    ensures CrashSafe(Placed(v, s, i, e))
  {
    var c := e.cluster;
    var v1 := v.(fat := SetWord(v.fat, c, END_MARK));
    ClaimIsSafe(v, c);
    ClaimIsChain(v.fat, c);
    forall r: nat, j: nat, d: nat | Holds(v.root, r, j, d) && (r != s || j != i)
      ensures d < |v1.fat| && Apart(v1.fat, c, d)
    {
      assert ChainKept(v.fat, v1.fat, d);
      assert !OwnedBy(v, r, j, c);
    }
    PlaceIsSafe(v1, s, i, e);
  }

  lemma PlacedIsTight(v: Volume, s: nat, i: nat, e: Entry)
    requires CrashSafe(v) && Tight(v) && Slot(s, i) && EntryOk(e) && HasChain(e) && !HasChain(At(v.root, s, i))
    requires e.cluster < |v.fat| && v.fat[e.cluster] == 0
    ensures Tight(Placed(v, s, i, e))
  {
    var c := e.cluster;
    var v' := Placed(v, s, i, e);
    ClaimIsSafe(v, c);
    ClaimIsChain(v.fat, c);
    forall x: nat | 2 <= x < |v.fat| ensures v'.fat[x] != 0 <==> Owned(v', x) {
      forall r: nat, j: nat ensures OwnedBy(v', r, j, x) <==> (OwnedBy(v, r, j, x) || (r == s && j == i && x == c)) {
        if Slot(r, j) && (r != s || j != i) && HasChain(At(v.root, r, j)) {
          assert Holds(v.root, r, j, At(v.root, r, j).cluster);
        }
      }
      if x == c { assert OwnedBy(v', s, i, x); }
    }
  }

  /** The new volume has room for all its files exactly when the new file fits. */
  lemma PlacedIsSizedIff(v: Volume, s: nat, i: nat, e: Entry, spc: nat)
    requires CrashSafe(v) && Sized(v, spc) && Slot(s, i) && EntryOk(e) && HasChain(e)
    requires e.cluster < |v.fat| && v.fat[e.cluster] == 0
    ensures Sized(Placed(v, s, i, e), spc) <==> e.size <= 512 * spc
  {
    var v' := Placed(v, s, i, e);
    ClaimIsSafe(v, e.cluster);
    ClaimIsChain(v.fat, e.cluster);
    TimesIs(1, spc);
    assert Roomy(v', e, spc) <==> e.size <= 512 * spc;
    forall r: nat, j: nat | Slot(r, j) && (r != s || j != i) ensures Roomy(v', At(v'.root, r, j), spc) {
      assert Roomy(v, At(v.root, r, j), spc);
      if HasChain(At(v.root, r, j)) { assert Holds(v.root, r, j, At(v.root, r, j).cluster); }
    }
    assert Slot(s, i) && At(v'.root, s, i) == e;
  }

  /** The volume after an entry was rewritten without touching the table. */
  function Rewritten(v: Volume, s: nat, i: nat, e: Entry): (v': Volume)
    requires Slot(s, i) && EntryOk(e)
  {
    v.(root := SetEntry(v.root, s, i, e))
  }

  /** Same chain before and after, if any. */
  predicate SameChain(a: Entry, b: Entry)
    requires EntryOk(a) && EntryOk(b)
  {
    HasChain(a) == HasChain(b) && (HasChain(a) ==> a.cluster == b.cluster)
  }

  lemma RewrittenIsSafeAndTight(v: Volume, s: nat, i: nat, e: Entry)
    requires CrashSafe(v) && Slot(s, i) && EntryOk(e) && SameChain(e, At(v.root, s, i))
    ensures CrashSafe(Rewritten(v, s, i, e))
    ensures Tight(v) ==> Tight(Rewritten(v, s, i, e))
  {
    if HasChain(e) {
      assert Holds(v.root, s, i, e.cluster);
      forall r: nat, j: nat, d: nat | Holds(v.root, r, j, d) && (r != s || j != i)
        ensures d < |v.fat| && Apart(v.fat, e.cluster, d)
      {
        assert ChainOk(v.fat, d);
      }
    }
    PlaceIsSafe(v, s, i, e);
    var v' := Rewritten(v, s, i, e);
    forall x: nat | 2 <= x < |v.fat| ensures Owned(v', x) <==> Owned(v, x) {
      assert forall r: nat, j: nat :: OwnedBy(v', r, j, x) <==> OwnedBy(v, r, j, x);
    }
  }

  lemma RewrittenIsSizedIff(v: Volume, s: nat, i: nat, e: Entry, spc: nat)
    requires Sized(v, spc) && Slot(s, i) && EntryOk(e)
    ensures Sized(Rewritten(v, s, i, e), spc) <==> Roomy(v, e, spc)
  {
    var v' := Rewritten(v, s, i, e);
    forall r: nat, j: nat | Slot(r, j) && (r != s || j != i) ensures Roomy(v', At(v'.root, r, j), spc) {
      assert Roomy(v, At(v.root, r, j), spc);
    }
    assert Slot(s, i) && At(v'.root, s, i) == e;
  }

  /** Entry (s, i) retired but its chain not yet returned: clusters leak, nothing else. */
  lemma RetiredIsSafe(v: Volume, s: nat, i: nat, e: Entry)
    requires CrashSafe(v) && Slot(s, i) && EntryOk(e) && Free(e)
    ensures CrashSafe(Rewritten(v, s, i, e))
  {
    PlaceIsSafe(v, s, i, e);
  }

  /** Returning the chain of a retired entry. */
  lemma ReturnedIsSafe(v: Volume, s: nat, i: nat, c: nat, e: Entry)
    requires CrashSafe(v) && Holds(v.root, s, i, c) && EntryOk(e) && Free(e)
    ensures c < |v.fat| && c + Length(v.fat, c) <= |v.fat|
    ensures CrashSafe(Rewritten(v, s, i, e).(fat := Cleared(v.fat, c, Length(v.fat, c))))
    ensures forall r: nat, j: nat, d: nat :: Holds(v.root, r, j, d) && (r != s || j != i) ==>
      ChainKept(v.fat, Cleared(v.fat, c, Length(v.fat, c)), d)
  {
    assert ChainOk(v.fat, c);
    var v1 := Rewritten(v, s, i, e);
    RetiredIsSafe(v, s, i, e);
    var fat' := Cleared(v.fat, c, Length(v.fat, c));
    forall r: nat, j: nat, x: nat | OwnedBy(v1, r, j, x) ensures fat'[x] == v.fat[x] {
      var d := At(v1.root, r, j).cluster;
      assert Holds(v.root, r, j, d);
      assert Apart(v.fat, c, d);
    }
    FatChangeIsSafe(v1, fat');
    forall r: nat, j: nat, d: nat | Holds(v.root, r, j, d) && (r != s || j != i) ensures ChainKept(v.fat, fat', d) {
      assert Holds(v1.root, r, j, d);
    }
  }

  lemma ReturnedIsTight(v: Volume, s: nat, i: nat, c: nat, e: Entry)
    requires CrashSafe(v) && Tight(v) && Holds(v.root, s, i, c) && EntryOk(e) && Free(e)
    ensures c < |v.fat| && Tight(Rewritten(v, s, i, e).(fat := Cleared(v.fat, c, Length(v.fat, c))))
  {
    ReturnedIsSafe(v, s, i, c, e);
    var v' := Rewritten(v, s, i, e).(fat := Cleared(v.fat, c, Length(v.fat, c)));
    forall x: nat | 2 <= x < |v.fat| ensures v'.fat[x] != 0 <==> Owned(v', x) {
      forall r: nat, j: nat ensures OwnedBy(v', r, j, x) <==> (OwnedBy(v, r, j, x) && (r != s || j != i)) {
        if Slot(r, j) && (r != s || j != i) && HasChain(At(v.root, r, j)) {
          assert Holds(v.root, r, j, At(v.root, r, j).cluster);
        }
      }
      if InChain(v.fat, c, x) {
        assert OwnedBy(v, s, i, x);
        forall r: nat, j: nat | OwnedBy(v, r, j, x) ensures r == s && j == i {
          assert Holds(v.root, r, j, At(v.root, r, j).cluster);
        }
      } else {
        assert !OwnedBy(v, s, i, x);
      }
    }
  }

  lemma ReturnedIsSized(v: Volume, s: nat, i: nat, c: nat, e: Entry, spc: nat)
    requires CrashSafe(v) && Sized(v, spc) && Holds(v.root, s, i, c) && EntryOk(e) && Free(e)
    ensures c < |v.fat| && Sized(Rewritten(v, s, i, e).(fat := Cleared(v.fat, c, Length(v.fat, c))), spc)
  {
    ReturnedIsSafe(v, s, i, c, e);
    var v' := Rewritten(v, s, i, e).(fat := Cleared(v.fat, c, Length(v.fat, c)));
    forall r: nat, j: nat | Slot(r, j) ensures Roomy(v', At(v'.root, r, j), spc) {
      assert Roomy(v, At(v.root, r, j), spc);
      if HasChain(At(v'.root, r, j)) { assert Holds(v.root, r, j, At(v.root, r, j).cluster); }
    }
  }

  /** Filling or reusing a slot whose predecessors in the sector were all used. */
  lemma ZeroTailKept(root: Root, s: nat, i: nat, e: Entry)
    requires ZeroTail(root) && Slot(s, i) && EntryOk(e) && e.name[0] != 0
    requires forall j: nat :: j < i ==> At(root, s, j).name[0] != 0
    ensures ZeroTail(SetEntry(root, s, i, e))
  {
  }
}
