/** Isolation of the address spaces, over every run. */
module PagingProofs {
  import opened PagingSpec

  lemma AddTableShape(s: Spaces, pd: nat, x: nat)
    requires Shaped(s) && pd < 9 && x < 1024
    ensures var t, table := AddTable(s, pd, x), RoundUp(s.dmaPtr);
      && Present(t.pds[pd][x]) && Base(t.pds[pd][x]) == table && table in t.pts
      && (forall y :: 0 <= y < 1024 ==> !Present(t.pts[table][y]))
      && (forall a :: a in s.pts && a != table ==> a in t.pts && t.pts[a] == s.pts[a])
      && (forall i, z :: 0 <= i < 9 && 0 <= z < 1024 && (i != pd || z != x) ==> t.pds[i][z] == s.pds[i][z])
  {
    var e := Entry(RoundUp(s.dmaPtr));
  }

  lemma AddTableUnshared(s: Spaces, pd: nat, x: nat)
    requires Inv(s) && pd < Dirs(s) && x < 1024
    requires !Present(s.pds[pd][x]) && !Present(s.kern[x])
    ensures Unshared(AddTable(s, pd, x))
  {
    hide Present, Base, Entry;
    AddTableShape(s, pd, x);
    var t := AddTable(s, pd, x);
    forall i: nat, z: nat | i < Dirs(s) && z < 1024 && Owns(t, i, z)
      ensures if i == pd && z == x then Base(t.pds[i][z]) >= s.dmaPtr
        else Owns(s, i, z) && t.pds[i][z] == s.pds[i][z] && Base(t.pds[i][z]) + PAGE <= s.dmaPtr
    {
      if i != pd || z != x { assert Owns(s, i, z); }
    }
  }

  /** Hanging an empty table into a private slot keeps the tables apart ... */
  lemma AddTableInv(s: Spaces, pd: nat, x: nat)
    requires Inv(s) && pd < Dirs(s) && x < 1024
    requires !Present(s.pds[pd][x]) && !Present(s.kern[x])
    requires s.dmaPtr + 2 * PAGE <= POOL_END
    ensures var t := AddTable(s, pd, x);
      && Inv(t) && Owns(t, pd, x) && t.nextTask == s.nextTask && t.userPhys == s.userPhys
      && t.kern == s.kern
  {
    hide Present, Base, Entry, Unshared;
    AddTableShape(s, pd, x);
    AddTableUnshared(s, pd, x);
    var t := AddTable(s, pd, x);
    forall i: nat, z: nat | i < Dirs(s) && z < 1024 && Owns(t, i, z)
      ensures if i == pd && z == x then Base(t.pds[i][z]) == RoundUp(s.dmaPtr)
        else Owns(s, i, z) && t.pds[i][z] == s.pds[i][z] && Base(t.pds[i][z]) + PAGE <= s.dmaPtr
    {
      if i != pd || z != x { assert Owns(s, i, z); }
    }
  }

  /** ... and changes no translation. */
  lemma AddTableLeaf(s: Spaces, pd: nat, x: nat, i: nat, z: nat, y: nat)
    requires Inv(s) && pd < Dirs(s) && x < 1024 && !Present(s.pds[pd][x])
    requires i < Dirs(s) && z < 1024 && y < 1024
    ensures Leaf(AddTable(s, pd, x), i, z, y) == Leaf(s, i, z, y)
  {
    hide Present, Base, Entry;
    AddTableShape(s, pd, x);
    if Present(s.pds[i][z]) {
      if Present(s.kern[z]) {
        assert s.pds[i][z] == s.kern[z];
      } else {
        assert Owns(s, i, z);
      }
    }
  }

  /** The tables of other slots are other tables. */
  lemma OtherTables(s: Spaces, pd: nat, x: nat, i: nat, z: nat)
    requires Inv(s) && pd < Dirs(s) && x < 1024 && i < Dirs(s) && z < 1024 && Present(s.pds[pd][x])
    requires Present(s.pds[i][z])
    ensures Base(s.pds[i][z]) == Base(s.pds[pd][x]) ==> z == x && (i == pd || Present(s.kern[x]))
  {
    hide Present, Base;
    if Present(s.kern[z]) { assert s.pds[i][z] == s.kern[z]; } else { assert Owns(s, i, z); }
    if Present(s.kern[x]) { assert s.pds[pd][x] == s.kern[x]; } else { assert Owns(s, pd, x); }
  }

  /** Writing an entry of any table keeps the tables apart ... */
  lemma SetPteInv(s: Spaces, table: nat, y: nat, f: nat)
    requires Inv(s) && table in s.pts && y < 1024
    ensures var t := SetPte(s, table, y, Base(f));
      && Inv(t) && t.pds == s.pds && t.kern == s.kern && t.nextTask == s.nextTask && t.userPhys == s.userPhys &&
          t.dmaPtr == s.dmaPtr
  {
    hide Present;
    var t := SetPte(s, table, y, Base(f));
    assert forall i, x :: 0 <= i < 9 && 0 <= x < 1024 ==> Owns(t, i, x) == Owns(s, i, x);
  }

  /** ... and changes translations of that table alone. */
  lemma SetPteLeaf(s: Spaces, table: nat, y: nat, f: nat, i: nat, z: nat, w: nat)
    requires Shaped(s) && table in s.pts && y < 1024 && i < 9 && z < 1024 && w < 1024
    ensures Leaf(SetPte(s, table, y, Base(f)), i, z, w) ==
      if Present(s.pds[i][z]) && Base(s.pds[i][z]) == table && w == y then Some(Base(f)) else Leaf(s, i, z, w)
  {
    hide Present;
  }

  /** Of a table of its own: that one translation. */
  lemma SetPteKeeps(s: Spaces, pd: nat, x: nat, y: nat, f: nat)
    requires Inv(s) && pd < Dirs(s) && x < 1024 && y < 1024 && Owns(s, pd, x)
    ensures Base(s.pds[pd][x]) in s.pts
    ensures var t := SetPte(s, Base(s.pds[pd][x]), y, Base(f));
      && Inv(t) && t.pds == s.pds && t.kern == s.kern && t.nextTask == s.nextTask && t.userPhys == s.userPhys &&
          t.dmaPtr == s.dmaPtr
    ensures forall i, z, w :: 0 <= i < Dirs(s) && 0 <= z < 1024 && 0 <= w < 1024 ==>
      Leaf(SetPte(s, Base(s.pds[pd][x]), y, Base(f)), i, z, w) ==
        if i == pd && z == x && w == y then Some(Base(f)) else Leaf(s, i, z, w)
  {
    hide Present, Inv, Leaf, Base, SetPte;
    InvFacts(s);
    OwnTable(s, pd, x);
    var table := Base(s.pds[pd][x]);
    SetPteInv(s, table, y, f);
    forall i, z, w | 0 <= i < Dirs(s) && 0 <= z < 1024 && 0 <= w < 1024
      ensures Leaf(SetPte(s, table, y, Base(f)), i, z, w) == if i == pd && z == x && w == y then Some(Base(f))
          else Leaf(s, i, z, w)
    {
      SetPteLeaf(s, table, y, f, i, z, w);
      if Present(s.pds[i][z]) { OtherTables(s, pd, x, i, z); }
    }
  }

  lemma OwnTable(s: Spaces, pd: nat, x: nat)
    requires Inv(s) && pd < Dirs(s) && x < 1024 && Owns(s, pd, x)
    ensures Base(s.pds[pd][x]) in s.pts
  {
  }

  /** Mapping a private page of one task keeps the tables apart, sets that one
      translation and changes no other translation in any task. */
  lemma MapIsolated(s: Spaces, pd: nat, p: nat, f: nat)
    requires Inv(s) && pd < Dirs(s) && Private(s, p)
    requires Present(s.pds[pd][p / 1024]) || s.dmaPtr + 2 * PAGE <= POOL_END
    ensures Present(s.pds[pd][p / 1024]) ==> Base(s.pds[pd][p / 1024]) in s.pts
    ensures var t := MapSpec(s, pd, p, f);
      && Inv(t) && t.nextTask == s.nextTask && t.userPhys == s.userPhys
      && t.kern == s.kern && Present(t.pds[pd][p / 1024])
    ensures forall i, q :: 0 <= i < Dirs(s) && 0 <= q < 0x100000 ==>
      Walk(MapSpec(s, pd, p, f), i, q) == if i == pd && q == p then Some(Base(f)) else Walk(s, i, q)
  {
    hide Present, Base, Inv;
    InvFacts(s);
    var x, y := p / 1024, p % 1024;
    if Present(s.pds[pd][x]) {
      assert Owns(s, pd, x);
      SetPteKeeps(s, pd, x, y, f);
    } else {
      AddTableInv(s, pd, x);
      var u := AddTable(s, pd, x);
      SetPteKeeps(u, pd, x, y, f);
      forall i, z, w | 0 <= i < Dirs(s) && 0 <= z < 1024 && 0 <= w < 1024
        ensures Leaf(u, i, z, w) == Leaf(s, i, z, w)
      {
        AddTableLeaf(s, pd, x, i, z, w);
      }
    }
    forall q | 0 <= q < 0x100000 && q / 1024 == x && q % 1024 == y ensures q == p {}
  }

  /** Writing an entry of a kernel table changes that translation in every directory. */
  lemma KernelSetKeeps(s: Spaces, x: nat, y: nat, f: nat)
    requires Inv(s) && x < 1024 && y < 1024 && Present(s.kern[x])
    ensures Base(s.kern[x]) in s.pts
    ensures var t := SetPte(s, Base(s.kern[x]), y, Base(f));
      && Inv(t) && t.pds == s.pds && t.kern == s.kern && t.nextTask == s.nextTask && t.userPhys == s.userPhys
    ensures forall i, z, w :: 0 <= i < Dirs(s) && 0 <= z < 1024 && 0 <= w < 1024 ==>
      Leaf(SetPte(s, Base(s.kern[x]), y, Base(f)), i, z, w) == if z == x && w == y then Some(Base(f))
          else Leaf(s, i, z, w)
  {
    hide Present, Inv, Leaf, Base, SetPte;
    InvFacts(s);
    KernelTable(s, x);
    var table := Base(s.kern[x]);
    SetPteInv(s, table, y, f);
    forall i, z, w | 0 <= i < Dirs(s) && 0 <= z < 1024 && 0 <= w < 1024
      ensures Leaf(SetPte(s, table, y, Base(f)), i, z, w) == if z == x && w == y then Some(Base(f))
          else Leaf(s, i, z, w)
    {
      SetPteLeaf(s, table, y, f, i, z, w);
      KernelSlot(s, i, x);
      if Present(s.pds[i][z]) { OtherTables(s, i, x, i, z); }
    }
  }

  lemma KernelTable(s: Spaces, x: nat)
    requires Inv(s) && x < 1024 && Present(s.kern[x])
    ensures Base(s.kern[x]) in s.pts
  {
  }

  /** Who sees page `p` change when directory `pd` maps it: that directory alone, or
      everybody if the page lies behind a kernel table. */
  predicate Reached(s: Spaces, pd: nat, p: nat, i: nat)
    requires Shaped(s) && p < 0x100000
  {
    i == pd || Present(s.kern[p / 1024])
  }

  /** Mapping any page, private or not. */
  lemma MapReaches(s: Spaces, pd: nat, p: nat, f: nat)
    requires Inv(s) && pd < Dirs(s) && p < 0x100000
    requires Present(s.pds[pd][p / 1024]) || s.dmaPtr + 2 * PAGE <= POOL_END
    ensures Present(s.pds[pd][p / 1024]) ==> Base(s.pds[pd][p / 1024]) in s.pts
    ensures var t := MapSpec(s, pd, p, f);
      && Inv(t) && t.nextTask == s.nextTask && t.userPhys == s.userPhys
      && t.kern == s.kern && Present(t.pds[pd][p / 1024])
    ensures forall i, q :: 0 <= i < Dirs(s) && 0 <= q < 0x100000 ==>
      Walk(MapSpec(s, pd, p, f), i, q) == if q == p && Reached(s, pd, p, i) then Some(Base(f)) else Walk(s, i, q)
  {
    hide Present, Base, Inv;
    InvFacts(s);
    if Private(s, p) {
      MapIsolated(s, pd, p, f);
    } else {
      var x, y := p / 1024, p % 1024;
      KernelSlot(s, pd, x);
      KernelSetKeeps(s, x, y, f);
      forall q | 0 <= q < 0x100000 && q / 1024 == x && q % 1024 == y ensures q == p {}
    }
  }

  lemma KernelSlot(s: Spaces, pd: nat, x: nat)
    requires Inv(s) && pd < Dirs(s) && x < 1024 && Present(s.kern[x])
    ensures s.pds[pd][x] == s.kern[x] && Base(s.kern[x]) in s.pts
  {
  }

  /** So mapping a page for one task leaves another task's translations alone exactly when
      the page is a private one, or the other had that frame there already. */
  lemma IsolatedIff(s: Spaces, pd: nat, p: nat, f: nat, i: nat)
    requires Inv(s) && pd < Dirs(s) && p < 0x100000 && i < Dirs(s) && i != pd
    requires Present(s.pds[pd][p / 1024]) || s.dmaPtr + 2 * PAGE <= POOL_END
    ensures Present(s.pds[pd][p / 1024]) ==> Base(s.pds[pd][p / 1024]) in s.pts
    ensures Walk(MapSpec(s, pd, p, f), i, p) == Walk(s, i, p) <==> Private(s, p) || Walk(s, i, p) == Some(Base(f))
  {
    hide Walk, MapSpec, Inv;
    InvFacts(s);
    MapReaches(s, pd, p, f);
  }
}
