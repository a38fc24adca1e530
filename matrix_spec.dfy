/** The mathematical value of a matrix of matrix.h: an m-by-n grid kept as
    one flat row-major sequence, element (i, j) at offset n*i + j, together
    with the operations of matrix.h stated as functions on such values. */
module MatrixSpec {
  import opened Errors
  import opened Sums

  /** An m-by-n matrix value; v is the row-major backing store. */
  datatype Mat = Mat(m: nat, n: nat, v: seq<real>)

  /** The invariant every Matrix object keeps: both dimensions positive and
      the store exactly m*n long. */
  predicate Wf(a: Mat)
  {
    a.m > 0 && a.n > 0 && |a.v| == a.m * a.n
  }

  /** Element (i, j), read at offset n*i + j; 0 outside the grid. */
  function RawEntry(a: Mat, i: nat, j: nat): real
  {
    if i < a.m && j < a.n then Flat(a.v, a.n * i + j) else 0.0
  }

  /** Element (i, j) as the proofs see it. It equals RawEntry (lemma
      EntryIsRaw), but is reached through a recursion on a depth d that the
      verifier unfolds only one level, so products of elements stay
      unexpanded unless a proof asks for the store. */
  function Entry(a: Mat, i: nat, j: nat): real
  {
    EntryAtDepth(a, i, j, a.m + 1)
  }

  function EntryAtDepth(a: Mat, i: nat, j: nat, d: nat): real
  {
    if d == 0 then RawEntry(a, i, j) else EntryAtDepth(a, i, j, d - 1)
  }

  lemma {:induction false} EntryAtDepthIsRaw(a: Mat, i: nat, j: nat, d: nat)
    ensures EntryAtDepth(a, i, j, d) == RawEntry(a, i, j)
  {
    if d > 0 {
      EntryAtDepthIsRaw(a, i, j, d - 1);
    }
  }

  lemma EntryIsRaw(a: Mat, i: nat, j: nat)
    ensures Entry(a, i, j) == RawEntry(a, i, j)
  {
    EntryAtDepthIsRaw(a, i, j, a.m + 1);
  }

  /** The store at offset k; 0 past its end. */
  function Flat(v: seq<real>, k: nat): real
  {
    if k < |v| then v[k] else 0.0
  }

  predicate SameShape(a: Mat, b: Mat)
  {
    a.m == b.m && a.n == b.n
  }

  // ---------------------------------------------------------------------
  // Row-major offsets

  lemma OffsetBound(m: nat, n: nat, i: nat, j: nat)
    requires i < m && j < n
    ensures n * i + j < m * n
  {
    assert n * i + j < n * (i + 1);
    assert n * (i + 1) <= n * m by {
      MulMonotone(n, i + 1, m);
    }
  }

  lemma MulMonotone(n: nat, x: nat, y: nat)
    requires x <= y
    ensures n * x <= n * y
  {
    assert n * y == n * x + n * (y - x);
  }

  /** The offset n*i + j decodes back to row i and column j. */
  lemma OffsetDecode(n: nat, i: nat, j: nat)
    requires j < n
    ensures (n * i + j) / n == i && (n * i + j) % n == j
  {
    var k := n * i + j;
    var q, r := k / n, k % n;
    assert k == n * q + r && 0 <= r < n;
    assert n * (q - i) == j - r;
    if q > i {
      MulMonotone(n, 1, q - i);
    } else if q < i {
      MulMonotone(n, 1, i - q);
    }
  }

  /** Distinct positions have distinct offsets. */
  lemma OffsetInjective(n: nat, i: nat, j: nat, i': nat, j': nat)
    requires j < n && j' < n && (i != i' || j != j')
    ensures n * i + j != n * i' + j'
  {
    OffsetDecode(n, i, j);
    OffsetDecode(n, i', j');
  }

  /** For a column j < n, offset n*i + j lies in row r's block
      [n*r, n*r + n) exactly when i == r. */
  lemma OffsetInRow(n: nat, i: nat, j: nat, r: nat)
    requires j < n
    ensures n * r <= n * i + j < n * r + n <==> i == r
  {
    var k := n * i + j;
    if n * r <= k < n * r + n {
      OffsetDecode(n, i, j);
      OffsetDecode(n, r, k - n * r);
    }
  }

  /** Every offset below m*n encodes a row below m and a column below n. */
  lemma OffsetEncode(m: nat, n: nat, k: nat)
    requires k < m * n
    ensures n > 0 && k / n < m && k % n < n && k == n * (k / n) + k % n
  {
    assert 0 < m * n;
    assert n > 0;
  }

  lemma EntryAt(a: Mat, i: nat, j: nat)
    requires Wf(a) && i < a.m && j < a.n
    ensures 0 <= a.n * i + j < |a.v| && Entry(a, i, j) == a.v[a.n * i + j]
  {
    OffsetBound(a.m, a.n, i, j);
    MulMonotone(a.n, 0, i);
    EntryIsRaw(a, i, j);
  }

  /** Two well-formed matrices of one shape with the same elements are equal. */
  lemma Ext(a: Mat, b: Mat)
    requires Wf(a) && Wf(b) && SameShape(a, b)
    requires forall i: nat, j: nat :: i < a.m && j < a.n ==> Entry(a, i, j) == Entry(b, i, j)
    ensures a == b
  {
    forall k | 0 <= k < |a.v|
      ensures a.v[k] == b.v[k]
    {
      OffsetEncode(a.m, a.n, k);
      EntryAt(a, k / a.n, k % a.n);
      EntryAt(b, k / a.n, k % a.n);
    }
  }

  // ---------------------------------------------------------------------
  // Building a matrix from its elements

  /** The m-by-n matrix whose element (i, j) is f(i, j). */
  function Build(m: nat, n: nat, f: (nat, nat) -> real): (r: Mat)
    ensures r.m == m && r.n == n && |r.v| == m * n
    ensures m > 0 && n > 0 ==> Wf(r)
  {
    Mat(m, n, Rows(m, n, f))
  }

  /** Rows 0 .. m-1 of f laid out one after the other. */
  function Rows(m: nat, n: nat, f: (nat, nat) -> real): (v: seq<real>)
    ensures |v| == m * n
  {
    if m == 0 then [] else Rows(m - 1, n, f) + seq(n, j requires 0 <= j < n => f(m - 1, j))
  }

  lemma {:induction false} RowsAt(m: nat, n: nat, f: (nat, nat) -> real, i: nat, j: nat)
    requires i < m && j < n
    ensures n * i + j < |Rows(m, n, f)| && Rows(m, n, f)[n * i + j] == f(i, j)
  {
    OffsetBound(m, n, i, j);
    if i < m - 1 {
      RowsAt(m - 1, n, f, i, j);
    } else {
      assert n * i + j == n * (m - 1) + j;
    }
  }

  lemma BuildEntry(m: nat, n: nat, f: (nat, nat) -> real, i: nat, j: nat)
    requires i < m && j < n
    ensures Entry(Build(m, n, f), i, j) == f(i, j)
  {
    RowsAt(m, n, f, i, j);
    EntryIsRaw(Build(m, n, f), i, j);
  }

  lemma BuildEntries(m: nat, n: nat, f: (nat, nat) -> real)
    ensures forall i: nat, j: nat :: i < m && j < n ==> Entry(Build(m, n, f), i, j) == f(i, j)
  {
    forall i: nat, j: nat | i < m && j < n
      ensures Entry(Build(m, n, f), i, j) == f(i, j)
    {
      BuildEntry(m, n, f, i, j);
    }
  }

  // ---------------------------------------------------------------------
  // Operations of matrix.h on values

  /** The zero-filled store the dimension-only constructor allocates. */
  function Zeros(m: nat, n: nat): Mat
  {
    Mat(m, n, seq(m * n, _ => 0.0))
  }

  /** The store after v[n*i + j] = x. */
  function SetAt(a: Mat, i: nat, j: nat, x: real): (r: Mat)
    requires Wf(a) && i < a.m && j < a.n
    ensures Wf(r) && SameShape(r, a)
  {
    OffsetBound(a.m, a.n, i, j);
    Mat(a.m, a.n, a.v[a.n * i + j := x])
  }

  function Transpose(a: Mat): Mat
  {
    Build(a.n, a.m, (i: nat, j: nat) => Entry(a, j, i))
  }

  /** Row r1 and row r2 exchanged. */
  function SwappedRows(a: Mat, r1: nat, r2: nat): Mat
  {
    Build(a.m, a.n, (i: nat, j: nat) => Entry(a, if i == r1 then r2 else if i == r2 then r1 else i, j))
  }

  /** Row r multiplied by s: what scaleRow is meant to do. */
  function ScaledRow(a: Mat, r: nat, s: real): Mat
  {
    Build(a.m, a.n, (i: nat, j: nat) => if i == r then Entry(a, i, j) * s else Entry(a, i, j))
  }

  /** What scaleRow does as written: the n offsets starting at m*r are
      multiplied by s. */
  function ScaleRowAsWritten(a: Mat, r: nat, s: real): Mat
  {
    Mat(a.m, a.n, ScaledRange(a.v, a.m * r, a.m * r + a.n, s))
  }

  /** The store with offsets lo .. hi-1 multiplied by s, one offset after
      the other as the loop of scaleRow does; offsets past the end of the
      store are skipped. */
  function ScaledRange(v: seq<real>, lo: nat, hi: nat, s: real): (w: seq<real>)
    ensures |w| == |v|
  {
    if hi <= lo then v
    else
      var w := ScaledRange(v, lo, hi - 1, s);
      if hi - 1 < |w| then w[hi - 1 := Scaled(w[hi - 1], s)] else w
  }

  /** x *= s, kept as a function so that the offsets, not the products,
      are what the proofs about ScaledRange reason about. */
  function Scaled(x: real, s: real): real
  {
    x * s
  }

  /** Offset k of ScaledRange: multiplied by s exactly when lo <= k < hi. */
  lemma {:induction false} ScaledRangeAt(v: seq<real>, lo: nat, hi: nat, s: real, k: nat)
    requires k < |v|
    ensures ScaledRange(v, lo, hi, s)[k] == if lo <= k < hi then Scaled(v[k], s) else v[k]
  {
    if hi > lo {
      ScaledRangeAt(v, lo, hi - 1, s, k);
    }
  }

  /** Row i minus f times row p: one elimination step of inv. */
  function RowSubtracted(a: Mat, i: nat, p: nat, f: real): Mat
  {
    Build(a.m, a.n, (r: nat, j: nat) => if r == i then Entry(a, i, j) - Entry(a, p, j) * f else Entry(a, r, j))
  }

  /** Column p of w cleared by row p of x: every row r other than p loses
      w(r, p) times row p of x; row p itself stays. */
  function Eliminated(x: Mat, w: Mat, p: nat): Mat
  {
    Build(x.m, x.n, (r: nat, j: nat) => if r == p then Entry(x, r, j) else Entry(x, r, j) - Entry(x, p, j) * Entry(w, r, p))
  }

  function Add(a: Mat, b: Mat): Mat
    requires |a.v| == |b.v|
  {
    Mat(a.m, a.n, seq(|a.v|, k requires 0 <= k < |a.v| => a.v[k] + b.v[k]))
  }

  function AddScalar(a: Mat, x: real): Mat
  {
    Mat(a.m, a.n, seq(|a.v|, k requires 0 <= k < |a.v| => a.v[k] + x))
  }

  function Scale(a: Mat, x: real): Mat
  {
    Mat(a.m, a.n, seq(|a.v|, k requires 0 <= k < |a.v| => a.v[k] * x))
  }

  /** Row i of a times column j of b, accumulated from k = 0 upwards. */
  function Dot(a: Mat, b: Mat, i: nat, j: nat): real
  {
    Sum((k: nat) => Entry(a, i, k) * Entry(b, k, j), a.n)
  }

  function Mul(a: Mat, b: Mat): Mat
  {
    Build(a.m, b.n, (i: nat, j: nat) => Dot(a, b, i, j))
  }

  function Eye(n: nat): Mat
  {
    Build(n, n, (i: nat, j: nat) => if i == j then 1.0 else 0.0)
  }

  function Col(n: nat, x: real): Mat
  {
    Mat(n, 1, seq(n, _ => x))
  }

  function Scalar(x: real): Mat
  {
    Mat(1, 1, [x])
  }

  // The throwing operators, with their error conditions.

  /** matrix + matrix: the shapes must agree. */
  function AddR(a: Mat, b: Mat): Result<Mat>
    requires Wf(a) && Wf(b)
  {
    if a.m != b.m || a.n != b.n then Err(ShapeMismatch) else Ok(Add(a, b))
  }

  /** matrix * matrix: the inner dimensions must agree. */
  function MulR(a: Mat, b: Mat): Result<Mat>
  {
    if a.n != b.m then Err(InnerMismatch) else Ok(Mul(a, b))
  }

  /** lhs - rhs is lhs + (-1 * rhs). */
  function SubR(a: Mat, b: Mat): Result<Mat>
    requires Wf(a) && Wf(b)
  {
    AddR(a, Scale(b, -1.0))
  }

  /** lhs / x is lhs * (1 / x); x must not be 0. */
  function DivR(a: Mat, x: real): Result<Mat>
  {
    if x == 0.0 then Err(DivideByZero) else Ok(Scale(a, 1.0 / x))
  }

  // ---------------------------------------------------------------------
  // Properties of the operations

  /** Writing x at (i, j) and reading (i, j) back yields x; every other
      element is kept. */
  lemma SetAtEntries(a: Mat, i: nat, j: nat, x: real)
    requires Wf(a) && i < a.m && j < a.n
    ensures Wf(SetAt(a, i, j, x)) && SameShape(SetAt(a, i, j, x), a)
    ensures Entry(SetAt(a, i, j, x), i, j) == x
    ensures forall i': nat, j': nat :: i' < a.m && j' < a.n && (i' != i || j' != j) ==>
              Entry(SetAt(a, i, j, x), i', j') == Entry(a, i', j')
  {
    var k := a.n * i + j;
    var b := SetAt(a, i, j, x);
    EntryAt(a, i, j);
    assert b.v == a.v[k := x];
    EntryAt(b, i, j);
    forall i': nat, j': nat | i' < a.m && j' < a.n && (i' != i || j' != j)
      ensures Entry(b, i', j') == Entry(a, i', j')
    {
      var k' := a.n * i' + j';
      EntryAt(a, i', j');
      EntryAt(b, i', j');
      OffsetInjective(a.n, i, j, i', j');
      assert k' != k;
      assert b.v[k'] == a.v[k'];
    }
  }

  lemma TransposeEntries(a: Mat)
    ensures Transpose(a).m == a.n && Transpose(a).n == a.m
    ensures Wf(a) ==> Wf(Transpose(a))
    ensures forall i: nat, j: nat :: i < a.m && j < a.n ==> Entry(Transpose(a), j, i) == Entry(a, i, j)
  {
    BuildEntries(a.n, a.m, (i: nat, j: nat) => Entry(a, j, i));
  }

  /** A 1 x 1 matrix is its own transpose. */
  lemma TransposeOneByOne(x: real)
    ensures Transpose(Mat(1, 1, [x])) == Mat(1, 1, [x])
  {
    var a := Mat(1, 1, [x]);
    TransposeEntries(a);
    EntryAt(a, 0, 0);
    EntryAt(Transpose(a), 0, 0);
    Ext(Transpose(a), a);
  }

  /** Transposing twice gives back the original matrix. */
  lemma TransposeTwice(a: Mat)
    requires Wf(a)
    ensures Transpose(Transpose(a)) == a
  {
    TransposeEntries(a);
    TransposeEntries(Transpose(a));
    Ext(Transpose(Transpose(a)), a);
  }

  /** swapRows exchanges rows r1 and r2 and leaves every other row alone. */
  lemma SwappedRowsEntries(a: Mat, r1: nat, r2: nat)
    ensures SameShape(SwappedRows(a, r1, r2), a)
    ensures Wf(a) ==> Wf(SwappedRows(a, r1, r2))
    ensures forall j: nat :: j < a.n && r1 < a.m && r2 < a.m ==>
              Entry(SwappedRows(a, r1, r2), r1, j) == Entry(a, r2, j) &&
              Entry(SwappedRows(a, r1, r2), r2, j) == Entry(a, r1, j)
    ensures forall i: nat, j: nat :: i < a.m && j < a.n && i != r1 && i != r2 ==>
              Entry(SwappedRows(a, r1, r2), i, j) == Entry(a, i, j)
  {
    BuildEntries(a.m, a.n, (i: nat, j: nat) => Entry(a, if i == r1 then r2 else if i == r2 then r1 else i, j));
  }

  /** Swapping the same two rows twice restores the matrix. */
  lemma SwapTwice(a: Mat, r1: nat, r2: nat)
    requires Wf(a) && r1 < a.m && r2 < a.m
    ensures SwappedRows(SwappedRows(a, r1, r2), r1, r2) == a
  {
    SwappedRowsEntries(a, r1, r2);
    SwappedRowsEntries(SwappedRows(a, r1, r2), r1, r2);
    Ext(SwappedRows(SwappedRows(a, r1, r2), r1, r2), a);
  }

  /** The intended scaleRow: row r is multiplied by s, nothing else changes. */
  lemma ScaledRowEntries(a: Mat, r: nat, s: real)
    ensures SameShape(ScaledRow(a, r, s), a)
    ensures Wf(a) ==> Wf(ScaledRow(a, r, s))
    ensures forall j: nat :: j < a.n && r < a.m ==> Entry(ScaledRow(a, r, s), r, j) == Entry(a, r, j) * s
    ensures forall i: nat, j: nat :: i < a.m && j < a.n && i != r ==> Entry(ScaledRow(a, r, s), i, j) == Entry(a, i, j)
  {
    BuildEntries(a.m, a.n, (i: nat, j: nat) => if i == r then Entry(a, i, j) * s else Entry(a, i, j));
  }

  /** On a square matrix, scaleRow as written scales exactly row r. */
  lemma ScaleRowAsWrittenSquare(a: Mat, r: nat, s: real)
    requires Wf(a) && a.m == a.n && r < a.m
    ensures ScaleRowAsWritten(a, r, s) == ScaledRow(a, r, s)
  {
    var w := ScaleRowAsWritten(a, r, s);
    ScaledRowEntries(a, r, s);
    forall i: nat, j: nat | i < a.m && j < a.n
      ensures Entry(w, i, j) == Entry(ScaledRow(a, r, s), i, j)
    {
      ScaleRowAsWrittenEntry(a, r, s, i, j);
    }
    Ext(w, ScaledRow(a, r, s));
  }

  lemma ScaleRowAsWrittenEntry(a: Mat, r: nat, s: real, i: nat, j: nat)
    requires Wf(a) && a.m == a.n && r < a.m && i < a.m && j < a.n
    ensures Entry(ScaleRowAsWritten(a, r, s), i, j) == if i == r then Entry(a, i, j) * s else Entry(a, i, j)
  {
    var k := a.n * i + j;
    var lo := a.m * r;
    assert lo == a.n * r;
    EntryAt(a, i, j);
    EntryAt(ScaleRowAsWritten(a, r, s), i, j);
    OffsetInRow(a.n, i, j, r);
    assert lo <= k < lo + a.n <==> i == r;
    ScaledRangeAt(a.v, lo, lo + a.n, s, k);
    assert ScaleRowAsWritten(a, r, s).v[k] == if i == r then Scaled(a.v[k], s) else a.v[k];
  }

  /** On a 2-by-3 matrix, scaleRow(1, 2) as written doubles offsets 2, 3, 4
      (the last element of row 0 and the first two of row 1) instead of
      row 1, that is offsets 3, 4, 5. */
  lemma ScaleRowAsWrittenCounterexample()
    ensures ScaleRowAsWritten(Mat(2, 3, [1.0, 1.0, 1.0, 1.0, 1.0, 1.0]), 1, 2.0)
         == Mat(2, 3, [1.0, 1.0, 2.0, 2.0, 2.0, 1.0])
    ensures ScaledRow(Mat(2, 3, [1.0, 1.0, 1.0, 1.0, 1.0, 1.0]), 1, 2.0)
         == Mat(2, 3, [1.0, 1.0, 1.0, 2.0, 2.0, 2.0])
  {
    var a := Mat(2, 3, [1.0, 1.0, 1.0, 1.0, 1.0, 1.0]);
    var w := ScaleRowAsWritten(a, 1, 2.0);
    assert w.v == [1.0, 1.0, 2.0, 2.0, 2.0, 1.0];
    var e := Mat(2, 3, [1.0, 1.0, 1.0, 2.0, 2.0, 2.0]);
    ScaledRowEntries(a, 1, 2.0);
    forall i: nat, j: nat | i < 2 && j < 3
      ensures Entry(ScaledRow(a, 1, 2.0), i, j) == Entry(e, i, j)
    {
      EntryAt(a, i, j);
      EntryAt(e, i, j);
    }
    Ext(ScaledRow(a, 1, 2.0), e);
  }

  /** One elimination step: row i loses f times row p, other rows stay. */
  lemma RowSubtractedEntries(a: Mat, i: nat, p: nat, f: real)
    ensures SameShape(RowSubtracted(a, i, p, f), a)
    ensures Wf(a) ==> Wf(RowSubtracted(a, i, p, f))
    ensures forall j: nat :: j < a.n && i < a.m ==>
              Entry(RowSubtracted(a, i, p, f), i, j) == Entry(a, i, j) - Entry(a, p, j) * f
    ensures forall r: nat, j: nat :: r < a.m && j < a.n && r != i ==>
              Entry(RowSubtracted(a, i, p, f), r, j) == Entry(a, r, j)
  {
    var g := (r: nat, j: nat) => if r == i then Entry(a, i, j) - Entry(a, p, j) * f else Entry(a, r, j);
    forall r: nat, j: nat | r < a.m && j < a.n
      ensures Entry(RowSubtracted(a, i, p, f), r, j) == g(r, j)
    {
      BuildEntry(a.m, a.n, g, r, j);
    }
  }

  lemma EliminatedEntries(x: Mat, w: Mat, p: nat)
    ensures SameShape(Eliminated(x, w, p), x)
    ensures Wf(x) ==> Wf(Eliminated(x, w, p))
    ensures forall r: nat, j: nat :: r < x.m && j < x.n ==>
              Entry(Eliminated(x, w, p), r, j) ==
              if r == p then Entry(x, r, j) else Entry(x, r, j) - Entry(x, p, j) * Entry(w, r, p)
  {
    BuildEntries(x.m, x.n, (r: nat, j: nat) => if r == p then Entry(x, r, j) else Entry(x, r, j) - Entry(x, p, j) * Entry(w, r, p));
  }

  /** Elementwise addition, element by element. */
  lemma AddEntries(a: Mat, b: Mat)
    requires Wf(a) && Wf(b) && SameShape(a, b)
    ensures Wf(Add(a, b)) && SameShape(Add(a, b), a)
    ensures forall i: nat, j: nat :: i < a.m && j < a.n ==> Entry(Add(a, b), i, j) == Entry(a, i, j) + Entry(b, i, j)
  {
    forall i: nat, j: nat | i < a.m && j < a.n
      ensures Entry(Add(a, b), i, j) == Entry(a, i, j) + Entry(b, i, j)
    {
      EntryAt(a, i, j);
      EntryAt(b, i, j);
      EntryAt(Add(a, b), i, j);
    }
  }

  /** Matrix addition is commutative, error cases included. */
  lemma AddCommutes(a: Mat, b: Mat)
    requires Wf(a) && Wf(b)
    ensures AddR(a, b) == AddR(b, a)
  {
    if SameShape(a, b) {
      assert Add(a, b).v == Add(b, a).v;
    }
  }

  /** The last two terms of a sum of three can be exchanged. */
  lemma AddSwapLast(x: Mat, y: Mat, z: Mat)
    requires |x.v| == |y.v| == |z.v|
    ensures Add(Add(x, y), z) == Add(Add(x, z), y)
  {
    assert Add(Add(x, y), z).v == Add(Add(x, z), y).v;
  }

  /** The first two terms of a sum of three can be exchanged. */
  lemma AddSwapFirst(x: Mat, y: Mat, z: Mat)
    requires SameShape(x, y) && |x.v| == |y.v| == |z.v|
    ensures Add(x, Add(y, z)) == Add(y, Add(x, z))
  {
    assert Add(x, Add(y, z)).v == Add(y, Add(x, z)).v;
  }

  lemma AddScalarEntries(a: Mat, x: real)
    requires Wf(a)
    ensures Wf(AddScalar(a, x)) && SameShape(AddScalar(a, x), a)
    ensures forall i: nat, j: nat :: i < a.m && j < a.n ==> Entry(AddScalar(a, x), i, j) == Entry(a, i, j) + x
  {
    forall i: nat, j: nat | i < a.m && j < a.n
      ensures Entry(AddScalar(a, x), i, j) == Entry(a, i, j) + x
    {
      EntryAt(a, i, j);
      EntryAt(AddScalar(a, x), i, j);
    }
  }

  lemma ScaleEntries(a: Mat, x: real)
    requires Wf(a)
    ensures Wf(Scale(a, x)) && SameShape(Scale(a, x), a)
    ensures forall i: nat, j: nat :: i < a.m && j < a.n ==> Entry(Scale(a, x), i, j) == Entry(a, i, j) * x
  {
    forall i: nat, j: nat | i < a.m && j < a.n
      ensures Entry(Scale(a, x), i, j) == Entry(a, i, j) * x
    {
      EntryAt(a, i, j);
      EntryAt(Scale(a, x), i, j);
    }
  }

  /** lhs - rhs subtracts element by element, and needs equal shapes. */
  lemma SubEntries(a: Mat, b: Mat)
    requires Wf(a) && Wf(b)
    ensures SubR(a, b).Ok? <==> SameShape(a, b)
    ensures SubR(a, b).Err? ==> SubR(a, b).error == ShapeMismatch
    ensures SubR(a, b).Ok? ==> Wf(SubR(a, b).value) && SameShape(SubR(a, b).value, a)
    ensures SubR(a, b).Ok? ==>
              forall i: nat, j: nat :: i < a.m && j < a.n ==> Entry(SubR(a, b).value, i, j) == Entry(a, i, j) - Entry(b, i, j)
  {
    ScaleEntries(b, -1.0);
    if SameShape(a, b) {
      AddEntries(a, Scale(b, -1.0));
    }
  }

  /** Division by a nonzero scalar divides every element. */
  lemma DivEntries(a: Mat, x: real)
    requires Wf(a)
    ensures DivR(a, x).Ok? <==> x != 0.0
    ensures DivR(a, x).Ok? ==> Wf(DivR(a, x).value) && SameShape(DivR(a, x).value, a)
    ensures DivR(a, x).Ok? ==>
              forall i: nat, j: nat :: i < a.m && j < a.n ==> Entry(DivR(a, x).value, i, j) == Entry(a, i, j) / x
  {
    if x != 0.0 {
      ScaleEntries(a, 1.0 / x);
    }
  }

  lemma EyeEntries(n: nat)
    ensures Eye(n).m == n && Eye(n).n == n && (n > 0 ==> Wf(Eye(n)))
    ensures forall i: nat, j: nat :: i < n && j < n ==> Entry(Eye(n), i, j) == if i == j then 1.0 else 0.0
  {
    BuildEntries(n, n, (i: nat, j: nat) => if i == j then 1.0 else 0.0);
  }

  /** col(n, x) is an n-by-1 column holding x in every row. */
  lemma ColEntries(n: nat, x: real)
    requires n > 0
    ensures Wf(Col(n, x)) && Col(n, x).m == n && Col(n, x).n == 1
    ensures forall i: nat :: i < n ==> Entry(Col(n, x), i, 0) == x
  {
    forall i: nat | i < n
      ensures Entry(Col(n, x), i, 0) == x
    {
      EntryAt(Col(n, x), i, 0);
    }
  }

  /** The three sums checked by the addition smoke test. */
  lemma AdditionExamples()
    ensures AddR(Mat(2, 2, [1.0, 2.0, 3.0, 4.0]), Mat(2, 2, [8.0, 7.0, 6.0, 5.0]))
         == Ok(Mat(2, 2, [9.0, 9.0, 9.0, 9.0]))
    ensures AddScalar(Mat(2, 2, [1.0, 2.0, 3.0, 4.0]), 11.0) == Mat(2, 2, [12.0, 13.0, 14.0, 15.0])
    ensures AddScalar(Mat(2, 2, [8.0, 7.0, 6.0, 5.0]), 9.0) == Mat(2, 2, [17.0, 16.0, 15.0, 14.0])
  {
    assert Add(Mat(2, 2, [1.0, 2.0, 3.0, 4.0]), Mat(2, 2, [8.0, 7.0, 6.0, 5.0])).v == [9.0, 9.0, 9.0, 9.0];
    assert AddScalar(Mat(2, 2, [1.0, 2.0, 3.0, 4.0]), 11.0).v == [12.0, 13.0, 14.0, 15.0];
    assert AddScalar(Mat(2, 2, [8.0, 7.0, 6.0, 5.0]), 9.0).v == [17.0, 16.0, 15.0, 14.0];
  }
}
