/** The theory behind inv in matrix.h: what an inverse is, and why
    Gauss-Jordan elimination with partial pivoting finds it exactly when it
    exists. Each row operation applied to the working copies is paired with
    a column operation on a ghost matrix that undoes it. */
module MatrixInverse {
  import opened Errors
  import opened Sums
  import opened MatrixSpec
  import opened MatrixAlgebra

  // ---------------------------------------------------------------------
  // Inverses

  /** b is a two-sided inverse of a. */
  predicate IsInverse(a: Mat, b: Mat)
  {
    Wf(b) && b.m == a.n && b.n == a.m && Mul(a, b) == Eye(a.m) && Mul(b, a) == Eye(a.n)
  }

  ghost predicate Invertible(a: Mat)
  {
    exists b :: IsInverse(a, b)
  }

  /** What inv promises: a non-square matrix is rejected, an invertible one
      yields its inverse, any other is reported singular. */
  ghost function InvSpec(a: Mat): (r: Result<Mat>)
    ensures r.Ok? <==> a.m == a.n && Invertible(a)
    ensures r.Ok? ==> IsInverse(a, r.value)
    ensures r.Err? && a.m == a.n ==> r.error == Singular
    ensures a.m != a.n ==> r == Err(NotSquare)
  {
    if a.m != a.n then Err(NotSquare)
    else if Invertible(a) then Ok(var b :| IsInverse(a, b); b)
    else Err(Singular)
  }

  /** A left inverse and a right inverse of one matrix coincide. */
  lemma InverseUnique(a: Mat, b: Mat, c: Mat)
    requires Wf(a) && Wf(b) && Wf(c) && b.n == a.m && c.m == a.n
    requires Mul(b, a) == Eye(a.n) && Mul(a, c) == Eye(a.m)
    ensures b == c
  {
    MulAssoc(b, a, c);
    MulEyeRight(b);
    MulEyeLeft(c);
  }

  /** inv yields the one inverse there is. */
  lemma InvSpecIsTheInverse(a: Mat, b: Mat)
    requires Wf(a) && a.m == a.n && IsInverse(a, b)
    ensures InvSpec(a) == Ok(b)
  {
    assert Invertible(a);
    var c := InvSpec(a).value;
    InverseUnique(a, b, c);
  }

  /** A matrix with an inverse can be cancelled on the left of a product. */
  lemma InverseCancels(a: Mat, b: Mat, x: Mat, y: Mat)
    requires Wf(a) && IsInverse(a, b) && Wf(x) && Wf(y) && x.m == a.n && y.m == a.n
    requires Mul(a, x) == Mul(a, y)
    ensures x == y
  {
    MulAssoc(b, a, x);
    MulAssoc(b, a, y);
    MulEyeLeft(x);
    MulEyeLeft(y);
  }

  /** A nonzero 1 x 1 matrix has its reciprocal as inverse. */
  lemma InvOneByOne(x: real)
    requires x != 0.0
    ensures InvSpec(Mat(1, 1, [x])) == Ok(Mat(1, 1, [1.0 / x]))
  {
    var y := 1.0 / x;
    var a, b, e := Mat(1, 1, [x]), Mat(1, 1, [y]), Mat(1, 1, [1.0]);
    assert x * y == 1.0 && y * x == 1.0;
    MulOneByOne(x, y);
    MulOneByOne(y, x);
    assert Mul(a, b) == e && Mul(b, a) == e;
    EyeEntries(1);
    EntryAt(Eye(1), 0, 0);
    EntryAt(e, 0, 0);
    Ext(Eye(1), e);
    InvSpecIsTheInverse(a, b);
  }

  /** Inverting twice gives back the matrix. */
  lemma InvSpecInvolutive(a: Mat)
    requires Wf(a) && InvSpec(a).Ok?
    ensures InvSpec(InvSpec(a).value) == Ok(a)
  {
    var b := InvSpec(a).value;
    assert IsInverse(b, a);
    InvSpecIsTheInverse(b, a);
  }

  /** The identity is its own inverse. */
  lemma EyeInverse(n: nat)
    requires n > 0
    ensures InvSpec(Eye(n)) == Ok(Eye(n))
  {
    EyeEntries(n);
    MulEyeLeft(Eye(n));
    InvSpecIsTheInverse(Eye(n), Eye(n));
  }

  // ---------------------------------------------------------------------
  // Matrices with a nonzero null vector have no inverse

  lemma ZerosEntries(m: nat, n: nat)
    ensures Zeros(m, n).m == m && Zeros(m, n).n == n
    ensures m > 0 && n > 0 ==> Wf(Zeros(m, n))
    ensures forall i: nat, j: nat :: Entry(Zeros(m, n), i, j) == 0.0
  {
    forall i: nat, j: nat
      ensures Entry(Zeros(m, n), i, j) == 0.0
    {
      EntryIsRaw(Zeros(m, n), i, j);
    }
  }

  /** A product with a zero right factor is zero. */
  lemma MulZerosRight(b: Mat, k: nat)
    requires Wf(b) && k > 0
    ensures Mul(b, Zeros(b.n, k)) == Zeros(b.m, k)
  {
    var z := Zeros(b.n, k);
    ZerosEntries(b.n, k);
    ZerosEntries(b.m, k);
    MulEntries(b, z);
    forall i: nat, j: nat | i < b.m && j < k
      ensures Entry(Mul(b, z), i, j) == Entry(Zeros(b.m, k), i, j)
    {
      SumZero((l: nat) => Entry(b, i, l) * Entry(z, l, j), b.n);
    }
    Ext(Mul(b, z), Zeros(b.m, k));
  }

  /** If a x = 0 for a nonzero column x, then no b has b a = I. */
  lemma NullVectorNoLeftInverse(a: Mat, x: Mat, b: Mat)
    requires Wf(a) && Wf(x) && x.m == a.n && x.n == 1
    requires Mul(a, x) == Zeros(a.m, 1) && x != Zeros(a.n, 1)
    requires Wf(b) && b.n == a.m && b.m == a.n
    ensures Mul(b, a) != Eye(a.n)
  {
    if Mul(b, a) == Eye(a.n) {
      MulAssoc(b, a, x);
      MulZerosRight(b, 1);
      MulEyeLeft(x);
      assert false;
    }
  }

  lemma NullVectorNotInvertible(a: Mat, x: Mat)
    requires Wf(a) && Wf(x) && x.m == a.n && x.n == 1
    requires Mul(a, x) == Zeros(a.m, 1) && x != Zeros(a.n, 1)
    ensures !Invertible(a)
  {
    if Invertible(a) {
      var b :| IsInverse(a, b);
      NullVectorNoLeftInverse(a, x, b);
    }
  }

  /** [[1, 2], [2, 4]] sends (2, -1) to zero, so it has no inverse. */
  lemma SingularExample()
    ensures InvSpec(Mat(2, 2, [1.0, 2.0, 2.0, 4.0])) == Err(Singular)
  {
    var a := Mat(2, 2, [1.0, 2.0, 2.0, 4.0]);
    var x := Mat(2, 1, [2.0, -1.0]);
    MulEntries(a, x);
    ZerosEntries(2, 1);
    forall i: nat, j: nat | i < 2 && j < 1
      ensures Entry(Mul(a, x), i, j) == Entry(Zeros(2, 1), i, j)
    {
      assert Dot(a, x, i, j) == Entry(a, i, 0) * Entry(x, 0, j) + Entry(a, i, 1) * Entry(x, 1, j);
    }
    Ext(Mul(a, x), Zeros(2, 1));
    assert Entry(x, 0, 0) != Entry(Zeros(2, 1), 0, 0);
    NullVectorNotInvertible(a, x);
  }

  // ---------------------------------------------------------------------
  // Column operations that undo the row operations of elimination

  /** Columns c1 and c2 exchanged. */
  function SwappedCols(a: Mat, c1: nat, c2: nat): Mat
  {
    Build(a.m, a.n, (i: nat, j: nat) => Entry(a, i, if j == c1 then c2 else if j == c2 then c1 else j))
  }

  /** Column c multiplied by t. */
  function ScaledCol(a: Mat, c: nat, t: real): Mat
  {
    Build(a.m, a.n, (i: nat, j: nat) => if j == c then Entry(a, i, j) * t else Entry(a, i, j))
  }

  /** Column c plus f times column d. */
  function ColAdded(a: Mat, c: nat, d: nat, f: real): Mat
  {
    Build(a.m, a.n, (i: nat, j: nat) => if j == c then Entry(a, i, c) + Entry(a, i, d) * f else Entry(a, i, j))
  }

  /** Swapping columns p, q of b and rows p, q of x leaves b x unchanged. */
  lemma SwapPairCancels(b: Mat, x: Mat, p: nat, q: nat)
    requires Wf(b) && Wf(x) && b.n == x.m && p < x.m && q < x.m
    ensures Mul(SwappedCols(b, p, q), SwappedRows(x, p, q)) == Mul(b, x)
  {
    var sb, sx := SwappedCols(b, p, q), SwappedRows(x, p, q);
    MulEntries(sb, sx);
    MulEntries(b, x);
    forall r: nat, j: nat | r < b.m && j < x.n
      ensures Entry(Mul(sb, sx), r, j) == Entry(Mul(b, x), r, j)
    {
      DotSwapPair(b, x, p, q, r, j);
    }
    Ext(Mul(sb, sx), Mul(b, x));
  }

  lemma DotSwapPair(b: Mat, x: Mat, p: nat, q: nat, r: nat, j: nat)
    requires b.n == x.m && p < x.m && q < x.m && r < b.m && j < x.n
    ensures Dot(SwappedCols(b, p, q), SwappedRows(x, p, q), r, j) == Dot(b, x, r, j)
  {
    var sb, sx := SwappedCols(b, p, q), SwappedRows(x, p, q);
    var f := (k: nat) => Entry(sb, r, k) * Entry(sx, k, j);
    var g := (k: nat) => Entry(b, r, k) * Entry(x, k, j);
    forall k: nat | k < b.n
      ensures f(k) == g(if k == p then q else if k == q then p else k)
    {
      SwapPairTerm(b, x, p, q, r, j, k);
    }
    if p == q {
      SumAgree(f, g, b.n);
    } else {
      assert f(p) == g(q) && f(q) == g(p);
      SumDiffTwo(f, g, b.n, p, q);
    }
  }

  lemma SwapPairTerm(b: Mat, x: Mat, p: nat, q: nat, r: nat, j: nat, k: nat)
    requires b.n == x.m && r < b.m && j < x.n && k < b.n
    ensures var k' := if k == p then q else if k == q then p else k;
      Entry(SwappedCols(b, p, q), r, k) * Entry(SwappedRows(x, p, q), k, j) == Entry(b, r, k') * Entry(x, k', j)
  {
    BuildEntry(b.m, b.n, (i: nat, j: nat) => Entry(b, i, if j == p then q else if j == q then p else j), r, k);
    BuildEntry(x.m, x.n, (i: nat, j: nat) => Entry(x, if i == p then q else if i == q then p else i, j), k, j);
  }

  /** Scaling column p of b by t and row p of x by s, with t s = 1, leaves
      b x unchanged. */
  lemma ScalePairCancels(b: Mat, x: Mat, p: nat, t: real, s: real)
    requires Wf(b) && Wf(x) && b.n == x.m && p < x.m && t * s == 1.0
    ensures Mul(ScaledCol(b, p, t), ScaledRow(x, p, s)) == Mul(b, x)
  {
    var sb, sx := ScaledCol(b, p, t), ScaledRow(x, p, s);
    MulEntries(sb, sx);
    MulEntries(b, x);
    forall r: nat, j: nat | r < b.m && j < x.n
      ensures Entry(Mul(sb, sx), r, j) == Entry(Mul(b, x), r, j)
    {
      DotScalePair(b, x, p, t, s, r, j);
    }
    Ext(Mul(sb, sx), Mul(b, x));
  }

  lemma DotScalePair(b: Mat, x: Mat, p: nat, t: real, s: real, r: nat, j: nat)
    requires b.n == x.m && p < x.m && r < b.m && j < x.n && t * s == 1.0
    ensures Dot(ScaledCol(b, p, t), ScaledRow(x, p, s), r, j) == Dot(b, x, r, j)
  {
    var sb, sx := ScaledCol(b, p, t), ScaledRow(x, p, s);
    var f := (k: nat) => Entry(sb, r, k) * Entry(sx, k, j);
    var g := (k: nat) => Entry(b, r, k) * Entry(x, k, j);
    forall k: nat | k < b.n
      ensures f(k) == g(k)
    {
      BuildEntry(b.m, b.n, (i: nat, j: nat) => if j == p then Entry(b, i, j) * t else Entry(b, i, j), r, k);
      BuildEntry(x.m, x.n, (i: nat, j: nat) => if i == p then Entry(x, i, j) * s else Entry(x, i, j), k, j);
      if k == p {
        RealCancel(Entry(b, r, k), Entry(x, k, j), t, s);
      }
    }
    SumAgree(f, g, b.n);
  }

  lemma RealCancel(u: real, w: real, t: real, s: real)
    requires t * s == 1.0
    ensures (u * t) * (w * s) == u * w
  {
    assert (u * t) * (w * s) == (u * w) * (t * s);
  }

  /** Subtracting f times row p from row i of x, and adding f times column
      i to column p of b, leaves b x unchanged. */
  lemma SubtractPairCancels(b: Mat, x: Mat, i: nat, p: nat, f: real)
    requires Wf(b) && Wf(x) && b.n == x.m && i < x.m && p < x.m && i != p
    ensures Mul(ColAdded(b, p, i, f), RowSubtracted(x, i, p, f)) == Mul(b, x)
  {
    var sb, sx := ColAdded(b, p, i, f), RowSubtracted(x, i, p, f);
    MulEntries(sb, sx);
    MulEntries(b, x);
    forall r: nat, j: nat | r < b.m && j < x.n
      ensures Entry(Mul(sb, sx), r, j) == Entry(Mul(b, x), r, j)
    {
      forall k: nat | k < b.n
        ensures Entry(sb, r, k) == if k == p then Entry(b, r, p) + Entry(b, r, i) * f else Entry(b, r, k)
        ensures Entry(sx, k, j) == if k == i then Entry(x, i, j) - Entry(x, p, j) * f else Entry(x, k, j)
      {
        ColAddedEntry(b, p, i, f, r, k);
        RowSubtractedEntry(x, i, p, f, k, j);
      }
      DotSubtractPair(b, x, sb, sx, i, p, f, r, j);
    }
    Ext(Mul(sb, sx), Mul(b, x));
  }

  /** The inner product of row r of sb and column j of sx, where sb and sx
      are b and x after the paired operations. */
  lemma DotSubtractPair(b: Mat, x: Mat, sb: Mat, sx: Mat, i: nat, p: nat, f: real, r: nat, j: nat)
    requires b.n == x.m && sb.n == b.n && i < x.m && p < x.m && i != p
    requires forall k: nat :: k < b.n ==>
      Entry(sb, r, k) == if k == p then Entry(b, r, p) + Entry(b, r, i) * f else Entry(b, r, k)
    requires forall k: nat :: k < b.n ==>
      Entry(sx, k, j) == if k == i then Entry(x, i, j) - Entry(x, p, j) * f else Entry(x, k, j)
    ensures Dot(sb, sx, r, j) == Dot(b, x, r, j)
  {
    var u := (k: nat) => Entry(sb, r, k) * Entry(sx, k, j);
    var g := (k: nat) => Entry(b, r, k) * Entry(x, k, j);
    RealSubtractPair(Entry(b, r, i), Entry(b, r, p), Entry(x, i, j), Entry(x, p, j), f);
    SumDiffTwo(u, g, b.n, i, p);
  }

  lemma ColAddedEntry(a: Mat, c: nat, d: nat, f: real, i: nat, j: nat)
    requires i < a.m && j < a.n
    ensures Entry(ColAdded(a, c, d, f), i, j) == if j == c then Entry(a, i, c) + Entry(a, i, d) * f else Entry(a, i, j)
  {
    var g := (i: nat, j: nat) => if j == c then Entry(a, i, c) + Entry(a, i, d) * f else Entry(a, i, j);
    BuildEntry(a.m, a.n, g, i, j);
  }

  lemma RowSubtractedEntry(a: Mat, i: nat, p: nat, f: real, r: nat, j: nat)
    requires r < a.m && j < a.n
    ensures Entry(RowSubtracted(a, i, p, f), r, j) == if r == i then Entry(a, i, j) - Entry(a, p, j) * f else Entry(a, r, j)
  {
    var g := (r: nat, j: nat) => if r == i then Entry(a, i, j) - Entry(a, p, j) * f else Entry(a, r, j);
    BuildEntry(a.m, a.n, g, r, j);
  }

  lemma RealSubtractPair(bi: real, bp: real, xi: real, xp: real, f: real)
    ensures bi * (xi - xp * f) + (bp + bi * f) * xp == bi * xi + bp * xp
  {
  }

  // ---------------------------------------------------------------------
  // The state of inv before each pivot

  /** x is an n-by-n matrix. */
  predicate Square(x: Mat, n: nat)
  {
    Wf(x) && x.m == n && x.n == n
  }

  /** Columns 0 .. p-1 of w are the first p columns of the identity. */
  predicate UnitColumns(w: Mat, p: nat)
  {
    forall i: nat, c: nat :: i < w.m && c < p ==> Entry(w, i, c) == if i == c then 1.0 else 0.0
  }

  /** Before pivot p, inv holds its working copy w of a and its augmented
      matrix g with g a = w, and the first p columns of w already reduced;
      h is a ghost inverse of g, built from the inverses of the row
      operations applied so far. */
  predicate Reduced(a: Mat, w: Mat, g: Mat, h: Mat, p: nat)
  {
    Wf(a) && a.m == a.n && Square(w, a.n) && Square(g, a.n) && Square(h, a.n) &&
    Mul(g, a) == w && Mul(h, g) == Eye(a.n) && p <= a.n && UnitColumns(w, p)
  }

  /** The start of inv: w is a copy of a and g = eye(n). */
  lemma ReducedInitially(a: Mat)
    requires Wf(a) && a.m == a.n
    ensures Reduced(a, a, Eye(a.n), Eye(a.n), 0)
  {
    EyeEntries(a.n);
    MulEyeLeft(a);
    MulEyeLeft(Eye(a.n));
  }

  lemma SwappedColsEntries(a: Mat, c1: nat, c2: nat)
    ensures SameShape(SwappedCols(a, c1, c2), a)
    ensures Wf(a) ==> Wf(SwappedCols(a, c1, c2))
  {
  }

  /** swapRows(p, q) on both matrices keeps the state, for q at or below p. */
  lemma SwapStep(a: Mat, w: Mat, g: Mat, h: Mat, p: nat, q: nat)
    requires Reduced(a, w, g, h, p) && p <= q < a.n
    ensures Reduced(a, SwappedRows(w, p, q), SwappedRows(g, p, q), SwappedCols(h, p, q), p)
  {
    MulSwappedRows(g, a, p, q);
    SwapPairCancels(h, g, p, q);
    SwappedRowsEntries(w, p, q);
    SwappedRowsEntries(g, p, q);
    var w' := SwappedRows(w, p, q);
    forall i: nat, c: nat | i < w.m && c < p
      ensures Entry(w', i, c) == if i == c then 1.0 else 0.0
    {
      if i == p {
        assert Entry(w', i, c) == Entry(w, q, c);
      } else if i == q {
        assert Entry(w', i, c) == Entry(w, p, c);
      }
    }
  }

  /** scaleRow(p, 1 / w_pp) on both matrices keeps the state and puts 1 on
      the diagonal. */
  lemma ScaleStep(a: Mat, w: Mat, g: Mat, h: Mat, p: nat)
    requires Reduced(a, w, g, h, p) && p < a.n && Entry(w, p, p) != 0.0
    ensures var s := 1.0 / Entry(w, p, p);
      Reduced(a, ScaledRow(w, p, s), ScaledRow(g, p, s), ScaledCol(h, p, Entry(w, p, p)), p) &&
      Entry(ScaledRow(w, p, s), p, p) == 1.0
  {
    var t := Entry(w, p, p);
    var s := 1.0 / t;
    MulScaledRow(g, a, p, s);
    ScalePairCancels(h, g, p, t, s);
    ScaledRowEntries(w, p, s);
    ScaledRowEntries(g, p, s);
    ScaledColEntries(h, p, t);
  }

  lemma ScaledColEntries(a: Mat, c: nat, t: real)
    ensures SameShape(ScaledCol(a, c, t), a)
    ensures Wf(a) ==> Wf(ScaledCol(a, c, t))
  {
  }

  lemma ColAddedEntries(a: Mat, c: nat, d: nat, f: real)
    ensures SameShape(ColAdded(a, c, d, f), a)
    ensures Wf(a) ==> Wf(ColAdded(a, c, d, f))
  {
  }

  /** Subtracting w_ip times row p from row i, on both matrices, keeps the
      state, clears element (i, p) and changes no other row. */
  lemma SubtractStep(a: Mat, w: Mat, g: Mat, h: Mat, p: nat, i: nat)
    requires Reduced(a, w, g, h, p) && p < a.n && i < a.n && i != p && Entry(w, p, p) == 1.0
    ensures var f := Entry(w, i, p);
      Reduced(a, RowSubtracted(w, i, p, f), RowSubtracted(g, i, p, f), ColAdded(h, p, i, f), p) &&
      Entry(RowSubtracted(w, i, p, f), i, p) == 0.0
    ensures var f := Entry(w, i, p);
      forall r: nat, j: nat :: r < a.n && j < a.n && r != i ==> Entry(RowSubtracted(w, i, p, f), r, j) == Entry(w, r, j)
  {
    var f := Entry(w, i, p);
    MulRowSubtracted(g, a, i, p, f);
    SubtractPairCancels(h, g, i, p, f);
    RowSubtractedEntries(w, i, p, f);
    RowSubtractedEntries(g, i, p, f);
    ColAddedEntries(h, p, i, f);
    var w' := RowSubtracted(w, i, p, f);
    forall r: nat, c: nat | r < w.m && c < p
      ensures Entry(w', r, c) == if r == c then 1.0 else 0.0
    {
      if r == i {
        assert Entry(w', r, c) == Entry(w, i, c) - Entry(w, p, c) * f;
      }
    }
  }

  /** Once column p is zero off the diagonal and 1 on it, p + 1 columns
      are reduced. */
  lemma ColumnDone(w: Mat, p: nat)
    requires UnitColumns(w, p) && Entry(w, p, p) == 1.0
    requires forall r: nat :: r < w.m && r != p ==> Entry(w, r, p) == 0.0
    ensures UnitColumns(w, p + 1)
  {
  }

  /** When every column is reduced, g is the inverse of a. */
  lemma ReducedFinally(a: Mat, w: Mat, g: Mat, h: Mat)
    requires Reduced(a, w, g, h, a.n)
    ensures IsInverse(a, g)
  {
    var n := a.n;
    EyeEntries(n);
    Ext(w, Eye(n));
    MulAssoc(h, g, a);
    MulEyeLeft(a);
    MulEyeRight(h);
    assert h == a;
  }

  /** When column p of w is zero from row p down, a has no inverse. */
  lemma ReducedSingular(a: Mat, w: Mat, g: Mat, h: Mat, p: nat)
    requires Reduced(a, w, g, h, p) && p < a.n
    requires forall r: nat :: p <= r < a.n ==> Entry(w, r, p) == 0.0
    ensures !Invertible(a)
  {
    var n := a.n;
    var x := NullVector(w, p);
    NullVectorEntries(w, p);
    NullVectorKills(w, x, p);
    MulAssoc(h, g, a);
    MulEyeLeft(a);
    assert Mul(h, w) == a;
    MulAssoc(h, w, x);
    MulZerosRight(h, 1);
    ZerosEntries(n, 1);
    assert Entry(x, p, 0) != Entry(Zeros(n, 1), p, 0);
    NullVectorNotInvertible(a, x);
  }

  /** The column with x_c = -w_cp above row p, 1 at row p and 0 below:
      a reduced w sends it to zero when its column p has no pivot. */
  function NullVector(w: Mat, p: nat): Mat
  {
    Build(w.n, 1, (c: nat, _: nat) => if c < p then -Entry(w, c, p) else if c == p then 1.0 else 0.0)
  }

  lemma NullVectorEntries(w: Mat, p: nat)
    ensures NullVector(w, p).m == w.n && NullVector(w, p).n == 1
    ensures w.n > 0 ==> Wf(NullVector(w, p))
    ensures forall c: nat :: c < w.n ==>
      Entry(NullVector(w, p), c, 0) == if c < p then -Entry(w, c, p) else if c == p then 1.0 else 0.0
  {
    BuildEntries(w.n, 1, (c: nat, _: nat) => if c < p then -Entry(w, c, p) else if c == p then 1.0 else 0.0);
  }

  lemma NullVectorKills(w: Mat, x: Mat, p: nat)
    requires Wf(w) && w.m == w.n && p < w.n && UnitColumns(w, p)
    requires forall r: nat :: p <= r < w.m ==> Entry(w, r, p) == 0.0
    requires Wf(x) && x.m == w.n && x.n == 1
    requires forall c: nat :: c < w.n ==> Entry(x, c, 0) == if c < p then -Entry(w, c, p) else if c == p then 1.0 else 0.0
    ensures Mul(w, x) == Zeros(w.m, 1)
  {
    MulEntries(w, x);
    ZerosEntries(w.m, 1);
    forall i: nat, j: nat | i < w.m && j < 1
      ensures Entry(Mul(w, x), i, j) == Entry(Zeros(w.m, 1), i, j)
    {
      DotNullVector(w, x, p, i);
    }
    Ext(Mul(w, x), Zeros(w.m, 1));
  }

  lemma DotNullVector(w: Mat, x: Mat, p: nat, i: nat)
    requires w.m == w.n && p < w.n && i < w.m && UnitColumns(w, p)
    requires forall r: nat :: p <= r < w.m ==> Entry(w, r, p) == 0.0
    requires forall c: nat :: c < w.n ==> Entry(x, c, 0) == if c < p then -Entry(w, c, p) else if c == p then 1.0 else 0.0
    ensures Dot(w, x, i, 0) == 0.0
  {
    var u := (c: nat) => Entry(w, i, c) * Entry(x, c, 0);
    var z := (c: nat) => 0.0;
    if i < p {
      forall c: nat | c < w.n && c != i && c != p
        ensures u(c) == z(c)
      {
        if c < p {
          assert Entry(w, i, c) == 0.0;
        } else {
          assert Entry(x, c, 0) == 0.0;
        }
      }
      assert Entry(w, i, i) == 1.0;
      assert u(i) + u(p) == z(i) + z(p);
      SumDiffTwo(u, z, w.n, i, p);
    } else {
      forall c: nat | c < w.n
        ensures u(c) == z(c)
      {
        if c < p {
          assert Entry(w, i, c) == 0.0;
        } else if c > p {
          assert Entry(x, c, 0) == 0.0;
        }
      }
      SumAgree(u, z, w.n);
    }
    SumZero(z, w.n);
  }
}
