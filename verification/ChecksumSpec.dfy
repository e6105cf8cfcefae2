/** The Internet checksum (section 1 of RFC 1071) as src/rtl8139.c computes it. */
module ChecksumSpec {
  import opened Bytes

  function Word(hi: byte, lo: byte): (w: nat)
    ensures w < 0x10000
  {
    256 * hi + lo
  }

  /** Sum of the big-endian 16-bit words; an odd last byte is padded with a zero. */
  function Sum(b: seq<byte>): nat {
    if b == [] then 0
    else if |b| == 1 then Word(b[0], 0)
    else Word(b[0], b[1]) + Sum(b[2..])
  }

  /** `while (sum >> 16) sum = (sum & 0xFFFF) + (sum >> 16)` */
  function Fold(x: nat): (f: nat)
    ensures f < 0x10000
    decreases x
  {
    if x < 0x10000 then x else Fold(x % 0x10000 + x / 0x10000)
  }

  /** One's complement in 16 bits. */
  function Comp(x: nat): (c: nat)
    requires x < 0x10000
    ensures c < 0x10000
  {
    0xFFFF - x
  }

  /** Folding keeps the value modulo 0xFFFF, and 0 only comes from 0. */
  lemma {:induction false} FoldModulo(x: nat)
    ensures Fold(x) % 0xFFFF == x % 0xFFFF
    ensures Fold(x) == 0 <==> x == 0
    decreases x
  {
    if x >= 0x10000 {
      var hi, lo := x / 0x10000, x % 0x10000;
      FoldModulo(lo + hi);
      assert x == (lo + hi) + 0xFFFF * hi;
      AddMultiple(lo + hi, hi);
    }
  }

  lemma AddMultiple(a: nat, k: nat)
    ensures (a + 0xFFFF * k) % 0xFFFF == a % 0xFFFF
  {
  }

  lemma FoldsToOnes(x: nat)
    ensures Fold(x) == 0xFFFF <==> x > 0 && x % 0xFFFF == 0
  {
    FoldModulo(x);
  }

  /** Adding the complement of the folded sum makes a sum that folds to all ones. */
  lemma ComplementCompletes(x: nat)
    ensures Fold(x + Comp(Fold(x))) == 0xFFFF
  {
    hide Fold;
    FoldModulo(x);
    var r := Fold(x);
    var k := SameResidue(x, r);
    AddMultipleInt(0xFFFF, k);
    FoldsToOnes(x + Comp(r));
  }

  lemma SameResidue(x: nat, r: nat) returns (k: int)
    requires x % 0xFFFF == r % 0xFFFF
    ensures x == r + 0xFFFF * k
  {
    k := x / 0xFFFF - r / 0xFFFF;
  }

  lemma AddMultipleInt(a: nat, k: int)
    ensures (a + 0xFFFF * k) % 0xFFFF == a % 0xFFFF
  {
  }

  lemma {:induction false} SumConcat(a: seq<byte>, b: seq<byte>)
    requires |a| % 2 == 0
    ensures Sum(a + b) == Sum(a) + Sum(b)
    decreases |a|
  {
    if a == [] {
      assert a + b == b;
    } else {
      assert (a + b)[2..] == a[2..] + b;
      SumConcat(a[2..], b);
    }
  }

  function SetWord(b: seq<byte>, k: nat, hi: byte, lo: byte): (r: seq<byte>)
    requires k + 1 < |b|
    ensures |r| == |b|
    ensures forall i :: 0 <= i < |b| ==> r[i] == if i == k then hi else if i == k + 1 then lo else b[i]
  {
    b[..k] + [hi, lo] + b[k + 2..]
  }

  /** Replacing the aligned word at `k` changes the sum by the difference of the words. */
  lemma SumUpdate(b: seq<byte>, k: nat, hi: byte, lo: byte)
    requires k % 2 == 0 && k + 1 < |b|
    ensures Sum(SetWord(b, k, hi, lo)) + Word(b[k], b[k + 1]) == Sum(b) + Word(hi, lo)
  {
    hide Sum, Word;
    SumSplit(b[..k], hi, lo, b[k + 2..]);
    SumSplit(b[..k], b[k], b[k + 1], b[k + 2..]);
    Rejoin(b, k);
  }

  lemma Rejoin(b: seq<byte>, k: nat)
    requires k + 1 < |b|
    ensures b[..k] + [b[k], b[k + 1]] + b[k + 2..] == b
  {
  }

  lemma SumSplit(pre: seq<byte>, hi: byte, lo: byte, post: seq<byte>)
    requires |pre| % 2 == 0
    ensures Sum(pre + [hi, lo] + post) == Sum(pre) + Word(hi, lo) + Sum(post)
  {
    var w := [hi, lo];
    assert pre + w + post == pre + (w + post);
    assert (w + post)[2..] == post && (w + post)[0] == hi && (w + post)[1] == lo;
    SumConcat(pre, w + post);
  }

  /** One more word, or an odd last byte, at the end. */
  lemma SumSnoc(b: seq<byte>, i: nat)
    requires i % 2 == 0 && i < |b|
    ensures i + 1 < |b| ==> Sum(b[..i + 2]) == Sum(b[..i]) + Word(b[i], b[i + 1])
    ensures i + 1 == |b| ==> Sum(b) == Sum(b[..i]) + Word(b[i], 0)
  {
    if i + 1 < |b| {
      var w := [b[i], b[i + 1]];
      assert b[..i + 2] == b[..i] + w + [];
      SumSplit(b[..i], b[i], b[i + 1], []);
    } else {
      assert b == b[..i] + [b[i]];
      SumConcat(b[..i], [b[i]]);
    }
  }

  /** The loop of `net_checksum` also takes the byte behind an odd range: the checksum of
      the range comes out exactly when that byte is zero. */
  lemma OddRangeIff(b: seq<byte>, behind: byte)
    requires |b| % 2 == 1
    ensures Comp(Fold(Sum(b + [behind]))) == Comp(Fold(Sum(b))) <==> behind == 0
  {
    hide Sum, Fold;
    var i, t := |b| - 1, b + [behind];
    SumSnoc(b, i);
    SumSnoc(t, i);
    assert t[..i] == b[..i] && t[..i + 2] == t;
    assert Sum(t) == Sum(b) + behind;
    if behind != 0 {
      FoldModulo(Sum(b));
      FoldModulo(Sum(b) + behind);
      SmallStep(Sum(b), behind);
    }
  }

  lemma SmallStep(x: nat, d: nat)
    requires 0 < d < 0xFFFF
    ensures (x + d) % 0xFFFF != x % 0xFFFF
  {
    assert x == x / 0xFFFF * 0xFFFF + x % 0xFFFF;
  }

  lemma {:induction false} SumBound(b: seq<byte>)
    ensures Sum(b) <= 0xFFFF * ((|b| + 1) / 2)
    decreases |b|
  {
    if |b| >= 2 { SumBound(b[2..]); }
  }

  /** A header or segment with a zero checksum field checks out once the field holds
      the complement of the folded sum, whatever `extra` (a pseudo-header) is added. */
  lemma FilledFieldChecks(b: seq<byte>, k: nat, extra: nat, hi: byte, lo: byte)
    requires k % 2 == 0 && k + 1 < |b| && b[k] == 0 && b[k + 1] == 0
    requires Word(hi, lo) == Comp(Fold(extra + Sum(b)))
    ensures Fold(extra + Sum(SetWord(b, k, hi, lo))) == 0xFFFF
  {
    SumUpdate(b, k, hi, lo);
    ComplementCompletes(extra + Sum(b));
  }
}
