/** Algebra of the matrix product over exact reals: the identity laws,
    associativity, and how the elementary row operations of Gauss-Jordan
    elimination interact with products. */
module MatrixAlgebra {
  import opened Sums
  import opened MatrixSpec

  /** Shape of a product, and its elements as inner products. */
  lemma MulEntries(a: Mat, b: Mat)
    ensures Mul(a, b).m == a.m && Mul(a, b).n == b.n
    ensures Wf(a) && Wf(b) ==> Wf(Mul(a, b))
    ensures forall i: nat, j: nat :: i < a.m && j < b.n ==> Entry(Mul(a, b), i, j) == Dot(a, b, i, j)
  {
    BuildEntries(a.m, b.n, (i: nat, j: nat) => Dot(a, b, i, j));
  }

  /** Row i of x and row i' of y hold the same elements, so their inner
      products with any column agree. */
  lemma DotRowsAgree(x: Mat, y: Mat, a: Mat, i: nat, i': nat, j: nat)
    requires x.n == y.n
    requires forall k: nat :: k < x.n ==> Entry(x, i, k) == Entry(y, i', k)
    ensures Dot(x, a, i, j) == Dot(y, a, i', j)
  {
    SumAgree((k: nat) => Entry(x, i, k) * Entry(a, k, j), (k: nat) => Entry(y, i', k) * Entry(a, k, j), x.n);
  }

  /** Multiplying by the identity on the left changes nothing. */
  lemma MulEyeLeft(x: Mat)
    requires Wf(x)
    ensures Mul(Eye(x.m), x) == x
  {
    var e := Eye(x.m);
    EyeEntries(x.m);
    MulEntries(e, x);
    forall i: nat, j: nat | i < x.m && j < x.n
      ensures Entry(Mul(e, x), i, j) == Entry(x, i, j)
    {
      SumOnePoint((k: nat) => Entry(e, i, k) * Entry(x, k, j), x.m, i);
    }
    Ext(Mul(e, x), x);
  }

  /** The product of two 1 x 1 matrices is the product of their elements. */
  lemma MulOneByOne(x: real, y: real)
    ensures Mul(Mat(1, 1, [x]), Mat(1, 1, [y])) == Mat(1, 1, [x * y])
  {
    var a, b := Mat(1, 1, [x]), Mat(1, 1, [y]);
    MulEntries(a, b);
    EntryAt(a, 0, 0);
    EntryAt(b, 0, 0);
    EntryAt(Mat(1, 1, [x * y]), 0, 0);
    assert Entry(Mul(a, b), 0, 0) == x * y;
    Ext(Mul(a, b), Mat(1, 1, [x * y]));
  }

  /** Multiplying by the identity on the right changes nothing. */
  lemma MulEyeRight(x: Mat)
    requires Wf(x)
    ensures Mul(x, Eye(x.n)) == x
  {
    var e := Eye(x.n);
    EyeEntries(x.n);
    MulEntries(x, e);
    forall i: nat, j: nat | i < x.m && j < x.n
      ensures Entry(Mul(x, e), i, j) == Entry(x, i, j)
    {
      SumOnePoint((k: nat) => Entry(x, i, k) * Entry(e, k, j), x.n, j);
    }
    Ext(Mul(x, e), x);
  }

  /** The matrix product is associative. */
  lemma MulAssoc(a: Mat, b: Mat, c: Mat)
    requires Wf(a) && Wf(b) && Wf(c) && a.n == b.m && b.n == c.m
    ensures Mul(Mul(a, b), c) == Mul(a, Mul(b, c))
  {
    var ab, bc := Mul(a, b), Mul(b, c);
    MulEntries(a, b);
    MulEntries(b, c);
    MulEntries(ab, c);
    MulEntries(a, bc);
    forall i: nat, j: nat | i < a.m && j < c.n
      ensures Entry(Mul(ab, c), i, j) == Entry(Mul(a, bc), i, j)
    {
      AssocEntry(a, b, c, ab, bc, i, j);
    }
    Ext(Mul(ab, c), Mul(a, bc));
  }

  /** One element of (a b) c and of a (b c), where ab and bc hold those
      two products. */
  lemma AssocEntry(a: Mat, b: Mat, c: Mat, ab: Mat, bc: Mat, i: nat, j: nat)
    requires ab.n == b.n && forall k: nat :: k < b.n ==> Entry(ab, i, k) == Dot(a, b, i, k)
    requires forall l: nat :: l < a.n ==> Entry(bc, l, j) == Dot(b, c, l, j)
    ensures Dot(ab, c, i, j) == Dot(a, bc, i, j)
  {
    AssocLeft(a, b, c, ab, i, j);
    AssocRight(a, b, c, bc, i, j);
    SumSwap(Triple(a, b, c, i, j), b.n, a.n);
  }

  /** The terms a_il * b_lk * c_kj of both ways of summing (a b c)_ij. */
  function Triple(a: Mat, b: Mat, c: Mat, i: nat, j: nat): (nat, nat) -> real
  {
    (k: nat, l: nat) => Entry(a, i, l) * Entry(b, l, k) * Entry(c, k, j)
  }

  lemma MulEntry(a: Mat, b: Mat, i: nat, j: nat)
    requires i < a.m && j < b.n
    ensures Entry(Mul(a, b), i, j) == Dot(a, b, i, j)
  {
    BuildEntry(a.m, b.n, (i: nat, j: nat) => Dot(a, b, i, j), i, j);
  }

  /** ((a b) c)_ij as a double sum: over k outside, l inside. */
  lemma AssocLeft(a: Mat, b: Mat, c: Mat, ab: Mat, i: nat, j: nat)
    requires ab.n == b.n && forall k: nat :: k < b.n ==> Entry(ab, i, k) == Dot(a, b, i, k)
    ensures Dot(ab, c, i, j) == Sum((k: nat) => SumSecond(Triple(a, b, c, i, j), k, a.n), b.n)
  {
    forall k: nat | k < b.n
      ensures Entry(ab, i, k) * Entry(c, k, j) == SumSecond(Triple(a, b, c, i, j), k, a.n)
    {
      AssocLeftTerm(a, b, c, i, j, k);
    }
    SumAgree((k: nat) => Entry(ab, i, k) * Entry(c, k, j),
             (k: nat) => SumSecond(Triple(a, b, c, i, j), k, a.n), b.n);
  }

  lemma AssocLeftTerm(a: Mat, b: Mat, c: Mat, i: nat, j: nat, k: nat)
    ensures Dot(a, b, i, k) * Entry(c, k, j) == SumSecond(Triple(a, b, c, i, j), k, a.n)
  {
    var F := Triple(a, b, c, i, j);
    var u := (l: nat) => F(k, l);
    var g := (l: nat) => Entry(a, i, l) * Entry(b, l, k);
    SumScaledTerms(u, g, Entry(c, k, j), a.n);
  }

  /** (a (b c))_ij as a double sum: over l outside, k inside. */
  lemma AssocRight(a: Mat, b: Mat, c: Mat, bc: Mat, i: nat, j: nat)
    requires forall l: nat :: l < a.n ==> Entry(bc, l, j) == Dot(b, c, l, j)
    ensures Dot(a, bc, i, j) == Sum((l: nat) => SumFirst(Triple(a, b, c, i, j), l, b.n), a.n)
  {
    forall l: nat | l < a.n
      ensures Entry(a, i, l) * Entry(bc, l, j) == SumFirst(Triple(a, b, c, i, j), l, b.n)
    {
      AssocRightTerm(a, b, c, i, j, l);
    }
    SumAgree((l: nat) => Entry(a, i, l) * Entry(bc, l, j),
             (l: nat) => SumFirst(Triple(a, b, c, i, j), l, b.n), a.n);
  }

  lemma AssocRightTerm(a: Mat, b: Mat, c: Mat, i: nat, j: nat, l: nat)
    ensures Entry(a, i, l) * Dot(b, c, l, j) == SumFirst(Triple(a, b, c, i, j), l, b.n)
  {
    var F := Triple(a, b, c, i, j);
    var u := (k: nat) => F(k, l);
    var g := (k: nat) => Entry(b, l, k) * Entry(c, k, j);
    forall k: nat | k < b.n
      ensures u(k) == Entry(a, i, l) * g(k)
    {
      RealAssoc(Entry(a, i, l), Entry(b, l, k), Entry(c, k, j));
    }
    SumScaledTermsLeft(u, g, Entry(a, i, l), b.n);
  }

  lemma RealAssoc(x: real, y: real, z: real)
    ensures x * (y * z) == x * y * z
  {
  }

  /** Row r of y is row r of x times s, so its inner products are too. */
  lemma DotScaledRow(x: Mat, y: Mat, a: Mat, r: nat, s: real, j: nat)
    requires x.n == y.n
    requires forall k: nat :: k < x.n ==> Entry(y, r, k) == Entry(x, r, k) * s
    ensures Dot(y, a, r, j) == Dot(x, a, r, j) * s
  {
    var u := (k: nat) => Entry(y, r, k) * Entry(a, k, j);
    var g := (k: nat) => Entry(x, r, k) * Entry(a, k, j);
    forall k: nat | k < x.n
      ensures u(k) == g(k) * s
    {
      RealShuffle(Entry(y, r, k), Entry(x, r, k), Entry(a, k, j), s);
    }
    SumScaledTerms(u, g, s, x.n);
  }

  lemma RealShuffle(e: real, x: real, y: real, s: real)
    requires e == x * s
    ensures e * y == x * y * s
  {
  }

  /** Row i of y is row i of x minus f times row p of x; so are its inner
      products. */
  lemma DotRowCombination(x: Mat, y: Mat, a: Mat, i: nat, p: nat, f: real, j: nat)
    requires x.n == y.n
    requires forall k: nat :: k < x.n ==> Entry(y, i, k) == Entry(x, i, k) - Entry(x, p, k) * f
    ensures Dot(y, a, i, j) == Dot(x, a, i, j) - Dot(x, a, p, j) * f
  {
    var u := (k: nat) => Entry(y, i, k) * Entry(a, k, j);
    var g := (k: nat) => Entry(x, i, k) * Entry(a, k, j);
    var h := (k: nat) => Entry(x, p, k) * Entry(a, k, j);
    forall k: nat | k < x.n
      ensures u(k) == g(k) - f * h(k)
    {
      RealDistribute(Entry(y, i, k), Entry(x, i, k), Entry(x, p, k), Entry(a, k, j), f);
    }
    SumCombination(u, g, h, f, x.n);
  }

  lemma RealDistribute(e: real, xi: real, xp: real, y: real, f: real)
    requires e == xi - xp * f
    ensures e * y == xi * y - f * (xp * y)
  {
  }

  // ---------------------------------------------------------------------
  // Row operations commute with multiplication on the right

  lemma MulSwappedRows(x: Mat, a: Mat, r1: nat, r2: nat)
    requires Wf(x) && Wf(a) && x.n == a.m && r1 < x.m && r2 < x.m
    ensures Mul(SwappedRows(x, r1, r2), a) == SwappedRows(Mul(x, a), r1, r2)
  {
    var sx := SwappedRows(x, r1, r2);
    SwappedRowsEntries(x, r1, r2);
    MulEntries(sx, a);
    MulEntries(x, a);
    SwappedRowsEntries(Mul(x, a), r1, r2);
    forall i: nat, j: nat | i < x.m && j < a.n
      ensures Entry(Mul(sx, a), i, j) == Entry(SwappedRows(Mul(x, a), r1, r2), i, j)
    {
      var src := if i == r1 then r2 else if i == r2 then r1 else i;
      DotRowsAgree(sx, x, a, i, src, j);
    }
    Ext(Mul(sx, a), SwappedRows(Mul(x, a), r1, r2));
  }

  lemma MulScaledRow(x: Mat, a: Mat, r: nat, s: real)
    requires Wf(x) && Wf(a) && x.n == a.m && r < x.m
    ensures Mul(ScaledRow(x, r, s), a) == ScaledRow(Mul(x, a), r, s)
  {
    var sx := ScaledRow(x, r, s);
    ScaledRowEntries(x, r, s);
    MulEntries(sx, a);
    MulEntries(x, a);
    ScaledRowEntries(Mul(x, a), r, s);
    forall i: nat, j: nat | i < x.m && j < a.n
      ensures Entry(Mul(sx, a), i, j) == Entry(ScaledRow(Mul(x, a), r, s), i, j)
    {
      if i == r {
        DotScaledRow(x, sx, a, r, s, j);
      } else {
        DotRowsAgree(sx, x, a, i, i, j);
      }
    }
    Ext(Mul(sx, a), ScaledRow(Mul(x, a), r, s));
  }

  lemma MulRowSubtracted(x: Mat, a: Mat, i: nat, p: nat, f: real)
    requires Wf(x) && Wf(a) && x.n == a.m && i < x.m && p < x.m && i != p
    ensures Mul(RowSubtracted(x, i, p, f), a) == RowSubtracted(Mul(x, a), i, p, f)
  {
    var sx := RowSubtracted(x, i, p, f);
    RowSubtractedEntries(x, i, p, f);
    MulEntries(sx, a);
    MulEntries(x, a);
    RowSubtractedEntries(Mul(x, a), i, p, f);
    forall r: nat, j: nat | r < x.m && j < a.n
      ensures Entry(Mul(sx, a), r, j) == Entry(RowSubtracted(Mul(x, a), i, p, f), r, j)
    {
      if r == i {
        DotRowCombination(x, sx, a, i, p, f, j);
      } else {
        DotRowsAgree(sx, x, a, r, r, j);
      }
    }
    Ext(Mul(sx, a), RowSubtracted(Mul(x, a), i, p, f));
  }
}
