/** Power may fail after any single sector write: what the volume then looks like, and
    what holds again when the operation has finished. */
module FatProofs {
  import opened Bytes
  import opened FatCodec
  import opened FatVolume
  import opened FatDisk
  import opened FatFiles

  // ---------------------------------------------------------------- from sectors to the volume

  lemma SetWordIsWithTable(d: Disk, g: Geo, c: nat, w: Word)
    requires GeoOk(g, d) && c < g.Clusters()
    ensures WithTable(View(d, g).fat, c / 256, SetTable(TableAt(d, g.reserved + c / 256), c % 256, w)) ==
      SetWord(View(d, g).fat, c, w)
  {
    hide DecodeTable, DirsAt;
    var t := SetTable(TableAt(d, g.reserved + c / 256), c % 256, w);
    forall x: nat | x < g.Clusters()
      ensures WithTable(View(d, g).fat, c / 256, t)[x] == SetWord(View(d, g).fat, c, w)[x]
    {
      assert x == 256 * (x / 256) + x % 256 && c == 256 * (c / 256) + c % 256;
    }
  }

  lemma ClearedIsWithTable(d: Disk, g: Geo, c: nat, n: nat)
    requires GeoOk(g, d) && c + n <= 256
    ensures WithTable(View(d, g).fat, 0, ClearedTable(TableAt(d, g.reserved), c, n)) == Cleared(View(d, g).fat, c, n)
  {
    hide DecodeTable, DirsAt;
    var t := ClearedTable(TableAt(d, g.reserved), c, n);
    forall x: nat | x < g.Clusters() ensures WithTable(View(d, g).fat, 0, t)[x] == Cleared(View(d, g).fat, c, n)[x] {
      if x < 256 { assert x / 256 == 0 && x % 256 == x; }
    }
  }

  /** Writing one entry back changes that slot of the root and nothing else. */
  lemma DirWriteSetsEntry(d: Disk, d0: Disk, g: Geo, s: nat, i: nat, e: Entry)
    requires GeoOk(g, d) && |d0| == |d| && Slot(s, i) && EntryOk(e)
    requires View(d, g).root == View(d0, g).root
    ensures View(WriteSector(d, DirWrite(d0, g, s, i, e)), g) == Rewritten(View(d, g), s, i, e)
  {
    hide EncodeDir, DecodeDir, FatAt;
    DirWriteView(d, g, s, SetDir(DirAt(d0, g.RootLba() + s), i, e));
    assert View(d0, g).root[s] == DirAt(d0, g.RootLba() + s);
  }

  /** Writing a FAT sector to the first copy updates the view, writing it to the
      second does not. */
  lemma TableWritesView(d: Disk, g: Geo, f: nat, t: Table, k: nat)
    requires GeoOk(g, d) && f < g.spf && k <= |TableWrites(g, f, t)|
    ensures View(Apply(d, TableWrites(g, f, t)[..k]), g)
      == if k == 0 then View(d, g) else View(d, g).(fat := WithTable(View(d, g).fat, f, t))
  {
    hide View, WithTable, EncodeTable, WriteSector;
    var ws := TableWrites(g, f, t);
    FatLayout(g, d);
    assert Apply(d, ws[..0]) == d;
    if k >= 1 {
      ApplyPrefix(d, ws, 0);
      TableWriteView(d, g, f, t);
    }
    if k == 2 {
      ApplyPrefix(d, ws, 1);
      OtherWriteView(Apply(d, ws[..1]), g, ws[1]);
    }
  }

  lemma {:induction false} OtherWritesView(d: Disk, g: Geo, ws: seq<Wr>)
    requires GeoOk(g, d) && forall k :: 0 <= k < |ws| ==> Elsewhere(g, ws[k].lba)
    ensures View(Apply(d, ws), g) == View(d, g)
    decreases |ws|
  {
    hide View, WriteSector;
    if ws != [] {
      OtherWritesView(d, g, ws[..|ws| - 1]);
      OtherWriteView(Apply(d, ws[..|ws| - 1]), g, ws[|ws| - 1]);
    }
  }

  // ---------------------------------------------------------------- the volume during a write

  /** The volume with the target's cluster claimed, if it has to be. */
  function Claimed(v: Volume, t: Target): Volume
    requires t.Target? && (t.claim ==> t.e.cluster < |v.fat|)
  {
    if t.claim then v.(fat := SetWord(v.fat, t.e.cluster, END_MARK)) else v
  }

  /** The volume after a completed write. */
  function Written(v: Volume, t: Target): Volume
    requires t.Target? ==> Slot(t.s, t.i) && EntryOk(t.e) && (t.claim ==> t.e.cluster < |v.fat|)
  {
    if t.NoRoom? then v else Rewritten(Claimed(v, t), t.s, t.i, t.e)
  }

  lemma WriteSplits(a: seq<Wr>, b: seq<Wr>, w: Wr, k: nat)
    requires k <= |a| + |b|
    ensures (a + b + [w])[..k] == if k <= |a| then a[..k] else a + b[..k - |a|]
  {
  }

  lemma DataLbas(g: Geo, c: nat, n: nat, buf: seq<byte>)
    requires 512 * n <= |buf| && c >= 2
    ensures forall k :: 0 <= k < n ==> Elsewhere(g, DataWrites(g.ClusterLba(c), n, buf)[k].lba)
  {
  }

  lemma ClaimWritesView(d: Disk, g: Geo, c: nat, k: nat)
    requires GeoOk(g, d) && c < g.Clusters() && k <= |ClaimWrites(d, g, c)|
    ensures View(Apply(d, ClaimWrites(d, g, c)[..k]), g)
      == if k == 0 then View(d, g) else View(d, g).(fat := SetWord(View(d, g).fat, c, END_MARK))
  {
    hide View, WithTable, SetWord, Apply;
    TableWritesView(d, g, c / 256, SetTable(TableAt(d, g.reserved + c / 256), c % 256, END_MARK), k);
    SetWordIsWithTable(d, g, c, END_MARK);
  }

  /** The volume after the first `k` sector writes of a file write. */
  lemma WriteStages(d: Disk, g: Geo, name: seq<byte>, ext: seq<byte>, size: nat, buf: seq<byte>, k: nat)
    requires GeoOk(g, d) && NameOk(name, ext) && BufferOk(size, buf)
    requires k <= |WritePlan(d, g, name, ext, size, buf)|
    ensures var v, ws, t := View(d, g), WritePlan(d, g, name, ext, size, buf), WriteTarget(View(d, g), name, ext, size);
      View(Apply(d, ws[..k]), g) ==
        if k == |ws| then Written(v, t) else if k == 0 then v else Claimed(v, t)
  {
    hide View, WriteTarget, Apply, WriteSector, DirWrite, SetWord, SetEntry, GeoOk, ClaimWrites, DataWrites, Written,
         Claimed;
    var t := WriteTarget(View(d, g), name, ext, size);
    var ws := WritePlan(d, g, name, ext, size, buf);
    if t.NoRoom? {
      assert ws == [] && Apply(d, ws[..k]) == d by { ApplyNone(d); }
      NothingWritten(View(d, g));
    } else {
      var a := if t.claim then ClaimWrites(d, g, t.e.cluster) else [];
      TargetStages(d, g, t, a, DataWrites(g.ClusterLba(t.e.cluster), SectorCount(t.e.size), buf), k,
          SectorCount(t.e.size), buf);
    }
  }

  lemma NothingWritten(v: Volume)
    ensures Written(v, NoRoom) == v
  {
  }

  lemma TargetStages(d: Disk, g: Geo, t: Target, a: seq<Wr>, b: seq<Wr>, k: nat, n: nat, buf: seq<byte>)
    requires GeoOk(g, d) && t.Target? && Slot(t.s, t.i) && EntryOk(t.e) && 2 <= t.e.cluster &&
        (t.claim ==> t.e.cluster < g.Clusters())
    requires a == (if t.claim then ClaimWrites(d, g, t.e.cluster) else [])
    requires 1 <= n && 512 * n <= |buf| && b == DataWrites(g.ClusterLba(t.e.cluster), n, buf)
    requires k <= |a| + |b| + 1
    ensures var v, ws := View(d, g), a + b + [DirWrite(d, g, t.s, t.i, t.e)];
      View(Apply(d, ws[..k]), g) == if k == |ws| then Written(v, t) else if k == 0 then v else Claimed(v, t)
  {
    hide View, Apply, WriteSector, DirWrite, SetWord, SetEntry, Geo.DataLba, ClaimWrites, DataWrites, Elsewhere;
    var ws := a + b + [DirWrite(d, g, t.s, t.i, t.e)];
    var m := if k == |ws| then k - 1 else k;
    WriteSplits(a, b, DirWrite(d, g, t.s, t.i, t.e), m);
    DataLbas(g, t.e.cluster, n, buf);
    BeforeEntry(d, g, t, a, b, m);
    if k == |ws| {
      ApplyPrefix(d, ws, m);
      assert ws[..m + 1] == ws[..k];
      assert ws[m] == DirWrite(d, g, t.s, t.i, t.e);
      DirWriteSetsEntry(Apply(d, ws[..m]), d, g, t.s, t.i, t.e);
    }
  }

  lemma ApplyNone(d: Disk)
    ensures forall ws: seq<Wr> :: ws == [] ==> Apply(d, ws) == d
  {
  }

  lemma BeforeEntry(d: Disk, g: Geo, t: Target, a: seq<Wr>, b: seq<Wr>, m: nat)
    requires GeoOk(g, d) && t.Target? && 2 <= t.e.cluster && (t.claim ==> t.e.cluster < g.Clusters())
    requires a == (if t.claim then ClaimWrites(d, g, t.e.cluster) else [])
    requires forall k :: 0 <= k < |b| ==> Elsewhere(g, b[k].lba)
    requires m <= |a| + |b|
    ensures View(Apply(d, if m <= |a| then a[..m] else a + b[..m - |a|]), g)
      == if m == 0 then View(d, g) else Claimed(View(d, g), t)
  {
    hide View, Apply, WriteSector, SetWord, ClaimWrites, Elsewhere, Geo.DataLba, Times;
    ApplyNone(d);
    if t.claim {
      ClaimsSomething(d, g, t.e.cluster);
      ClaimWritesView(d, g, t.e.cluster, if m <= |a| then m else |a|);
    }
    if m > |a| {
      assert a[..|a|] == a;
      ApplyConcat(d, a, b[..m - |a|]);
      OtherWritesView(Apply(d, a), g, b[..m - |a|]);
    }
  }

  lemma ClaimsSomething(d: Disk, g: Geo, c: nat)
    requires c < g.Clusters()
    ensures |ClaimWrites(d, g, c)| >= 1
  {
  }

  /** Retiring the entry first and returning its chain in the table second. */
  lemma ChainReturned(d: Disk, g: Geo, s: nat, i: nat, k: nat)
    requires GeoOk(g, d) && Slot(s, i)
    requires var e, fat := At(View(d, g).root, s, i), View(d, g).fat;
      e.cluster < |fat| && e.cluster + Length(fat, e.cluster) <= 256
    requires k <= |ReturnWrites(d, g, At(View(d, g).root, s, i).cluster)|
    ensures var w := DirWrite(d, g, s, i, Retired(At(View(d, g).root, s, i)));
      View(Apply(WriteSector(d, w), ReturnWrites(d, g, At(View(d, g).root, s, i).cluster)[..k]), g) ==
          Deleted(View(d, g), s, i, k >= 1)
  {
    hide View, Apply, WriteSector, DirWrite, SetEntry, Cleared, ClearedTable, Retired, WithTable;
    var v := View(d, g);
    var e := At(v.root, s, i);
    var n := Length(v.fat, e.cluster);
    DirWriteSetsEntry(d, d, g, s, i, Retired(e));
    TableWritesView(WriteSector(d, DirWrite(d, g, s, i, Retired(e))), g, 0,
        ClearedTable(TableAt(d, g.reserved), e.cluster, n), k);
    ClearedIsWithTable(d, g, e.cluster, n);
  }

  /** The volume after the first `k` sector writes of a delete. */
  lemma DeleteStages(d: Disk, g: Geo, name: seq<byte>, ext: seq<byte>, k: nat)
    requires GeoOk(g, d) && DeleteOk(View(d, g), name, ext)
    requires k <= |DeletePlan(d, g, name, ext)|
    ensures var v, ws := View(d, g), DeletePlan(d, g, name, ext);
      var p := Find(v.root, 0, name, ext);
      View(Apply(d, ws[..k]), g) == if k == 0 then v else Deleted(v, p.s, p.i, k >= 2)
  {
    hide View, Apply, WriteSector, DirWrite, GeoOk, Deleted, ReturnWrites, Length, Retired;
    ApplyNone(d);
    var v, ws := View(d, g), DeletePlan(d, g, name, ext);
    var p := Find(v.root, 0, name, ext);
    if k >= 1 {
      var e := At(v.root, p.s, p.i);
      var w := DirWrite(d, g, p.s, p.i, Retired(e));
      var b := if e.cluster >= 2 then ReturnWrites(d, g, e.cluster) else [];
      assert ws == [w] + b;
      assert ws[..k] == [w] + b[..k - 1];
      ApplyConcat(d, [w], b[..k - 1]);
      ApplyOne(d, w);
      if e.cluster >= 2 {
        ChainReturned(d, g, p.s, p.i, k - 1);
      } else {
        DirWriteSetsEntry(d, d, g, p.s, p.i, Retired(e));
        ApplyNone(WriteSector(d, w));
        RetiredIsDeleted(v, p.s, p.i);
      }
    }
  }

  lemma ApplyOne(d: Disk, w: Wr)
    ensures Apply(d, [w]) == WriteSector(d, w)
  {
    ApplyNone(d);
  }

  lemma RetiredIsDeleted(v: Volume, s: nat, i: nat)
    requires Slot(s, i)
    ensures Deleted(v, s, i, false) == Rewritten(v, s, i, Retired(At(v.root, s, i)))
  {
  }

  /** The volume once the entry is retired and, if `returned`, its chain is free again. */
  function Deleted(v: Volume, s: nat, i: nat, returned: bool): Volume
    requires Slot(s, i)
    requires returned ==> At(v.root, s, i).cluster < |v.fat|
  {
    var v1 := Rewritten(v, s, i, Retired(At(v.root, s, i)));
    if returned then
      var c := At(v.root, s, i).cluster;
      v1.(fat := Cleared(v.fat, c, Length(v.fat, c)))
    else v1
  }
}
