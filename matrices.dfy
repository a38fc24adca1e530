/** The Matrix struct of matrix.h as a class over its row-major store, with
    its members and the free operators. Every method is proved against the
    value functions of MatrixSpec and MatrixInverse. */
module Matrices {
  import opened Errors
  import opened Sums
  import opened MatrixSpec
  import opened MatrixAlgebra
  import opened MatrixInverse
  import opened MatrixLoops

  class Matrix {
    const m: nat
    const n: nat
    var v: seq<real>

    /** The class invariant: positive dimensions, a store of m*n elements. */
    ghost predicate Valid()
      reads this
    {
      Wf(Value())
    }

    /** The value the object holds. */
    function Value(): Mat
      reads this
    {
      Mat(m, n, v)
    }

    /** Member initialisation, before the checks of the two constructors. */
    constructor (M: nat, N: nat, V: seq<real>)
      ensures m == M && n == N && v == V
    {
      m, n, v := M, N, V;
    }

    /** Matrix(M, N): an M-by-N matrix of zeros; a zero dimension throws. */
    static method Create(M: nat, N: nat) returns (r: Result<Matrix>)
      ensures r.Ok? <==> M > 0 && N > 0
      ensures r.Err? ==> r.error == ZeroDimension
      ensures r.Ok? ==> fresh(r.value) && r.value.Valid() && r.value.Value() == Zeros(M, N)
    {
      var out := new Matrix(M, N, seq(M * N, _ => 0.0));
      if M == 0 || N == 0 {
        return Err(ZeroDimension);
      }
      return Ok(out);
    }

    /** Matrix(M, N, V): an M-by-N matrix over the store V; a zero dimension
        throws, and so does a store whose length is not M*N. */
    static method FromVector(M: nat, N: nat, V: seq<real>) returns (r: Result<Matrix>)
      ensures r.Ok? <==> M > 0 && N > 0 && |V| == M * N
      ensures M == 0 || N == 0 ==> r == Err(ZeroDimension)
      ensures M > 0 && N > 0 && |V| != M * N ==> r == Err(LengthMismatch)
      ensures r.Ok? ==> fresh(r.value) && r.value.Valid() && r.value.Value() == Mat(M, N, V)
    {
      var out := new Matrix(M, N, V);
      if M == 0 || N == 0 {
        return Err(ZeroDimension);
      }
      if M * N != |V| {
        return Err(LengthMismatch);
      }
      return Ok(out);
    }

    /** get(mi, ni): element (mi, ni), or OutOfBounds off the grid. */
    function Get(mi: nat, ni: nat): (r: Result<real>)
      reads this
      requires Valid()
      ensures r.Ok? <==> mi < m && ni < n
      ensures r.Err? ==> r.error == OutOfBounds
      ensures r.Ok? ==> r.value == Entry(Value(), mi, ni)
    {
      if mi >= m || ni >= n then Err(OutOfBounds)
      else
        EntryAt(Value(), mi, ni);
        Ok(v[n * mi + ni])
    }

    /** set(mi, ni, x): element (mi, ni) becomes x, or OutOfBounds off the
        grid with nothing changed. */
    method Set(mi: nat, ni: nat, x: real) returns (o: Outcome)
      requires Valid()
      modifies this
      ensures Valid()
      ensures o.Pass? <==> mi < m && ni < n
      ensures o.Fail? ==> o.error == OutOfBounds && v == old(v)
      ensures o.Pass? ==> Value() == SetAt(old(Value()), mi, ni, x)
      ensures o.Pass? ==> Entry(Value(), mi, ni) == x
      ensures o.Pass? ==> forall i: nat, j: nat :: i < m && j < n && (i != mi || j != ni) ==>
                Entry(Value(), i, j) == Entry(old(Value()), i, j)
    {
      if mi >= m || ni >= n {
        return Fail(OutOfBounds);
      }
      SetAtEntries(Value(), mi, ni, x);
      OffsetBound(m, n, mi, ni);
      v := v[n * mi + ni := x];
      return Pass;
    }

    /** t(): a new n-by-m matrix, filled element by element. */
    method T() returns (out: Matrix)
      requires Valid()
      ensures fresh(out) && out.Valid() && out.Value() == Transpose(Value())
    {
      var created := Create(n, m);
      out := created.value;
      ZerosEntries(n, m);
      var i := 0;
      while i < m
        invariant 0 <= i <= m
        invariant out.Valid() && out.m == n && out.n == m
        invariant forall r: nat, c: nat :: r < n && c < m ==>
                    Entry(out.Value(), r, c) == if c < i then Entry(Value(), c, r) else 0.0
      {
        var j := 0;
        while j < n
          invariant 0 <= j <= n
          invariant out.Valid() && out.m == n && out.n == m
          invariant forall r: nat, c: nat :: r < n && c < m ==>
                      Entry(out.Value(), r, c) == if c < i || (c == i && r < j) then Entry(Value(), c, r) else 0.0
        {
          var _ := out.Set(j, i, Get(i, j).value);
          j := j + 1;
        }
        i := i + 1;
      }
      TransposeEntries(Value());
      Ext(out.Value(), Transpose(Value()));
    }

    /** scaleRow(r, s) as written: the n elements from offset m*r on are
        multiplied by s. That is row r only when m == n (see
        ScaleRowAsWrittenSquare); the offsets must stay inside the store. */
    method ScaleRow(r: nat, s: real) returns (o: Outcome)
      requires Valid()
      requires r < m ==> m * r + n <= m * n
      modifies this
      ensures Valid()
      ensures o.Pass? <==> r < m
      ensures o.Fail? ==> o.error == OutOfBounds && v == old(v)
      ensures o.Pass? ==> Value() == ScaleRowAsWritten(old(Value()), r, s)
    {
      if r >= m {
        return Fail(OutOfBounds);
      }
      ghost var a, lo := v, m * r;
      var ni := 0;
      while ni < n
        invariant 0 <= ni <= n && v == ScaledRange(a, lo, lo + ni, s)
      {
        ScaledRangeStep(a, lo, lo + ni, s);
        v := v[m * r + ni := Scaled(v[m * r + ni], s)];
        ni := ni + 1;
      }
      return Pass;
    }

    /** swapRows(r1, r2): the two rows exchanged, element by element. */
    method SwapRows(r1: nat, r2: nat) returns (o: Outcome)
      requires Valid()
      modifies this
      ensures Valid()
      ensures o.Pass? <==> r1 < m && r2 < m
      ensures o.Fail? ==> o.error == OutOfBounds && v == old(v)
      ensures o.Pass? ==> Value() == SwappedRows(old(Value()), r1, r2)
    {
      if r1 >= m || r2 >= m {
        return Fail(OutOfBounds);
      }
      ghost var a := Value();
      SwapStateStart(a, r1, r2);
      var ni := 0;
      while ni < n
        invariant 0 <= ni <= n && SwapState(Value(), a, r1, r2, ni)
      {
        ghost var before := Value();
        EntryAt(before, r1, ni);
        EntryAt(before, r2, ni);
        var x, y := v[n * r1 + ni], v[n * r2 + ni];
        v := v[n * r1 + ni := y][n * r2 + ni := x];
        assert Value() == SetAt(SetAt(before, r1, ni, y), r2, ni, x);
        SwapStateStep(before, a, r1, r2, ni);
        ni := ni + 1;
      }
      SwapStateEnd(Value(), a, r1, r2);
      return Pass;
    }

    /** inv(): Gauss-Jordan elimination with partial pivoting on a copy of
        the matrix, every row operation mirrored on an identity matrix that
        ends up as the inverse. A non-square matrix, and a matrix with no
        nonzero pivot left in some column, throw. */
    method Inv() returns (r: Result<Matrix>)
      requires Valid()
      ensures Models(r, InvSpec(Value()))
      ensures r.Ok? ==> fresh(r.value)
    {
      if m != n {
        return Err(NotSquare);
      }
      ghost var a := Value();
      var mat := new Matrix(m, n, v);
      var augmented := Eye(n);
      ghost var h := MatrixSpec.Eye(n);
      ReducedInitially(a);
      var p := 0;
      while p < n
        invariant p <= n && Reduced(a, mat.Value(), augmented.Value(), h, p)
      {
        var colMax, iRowMax := mat.FindPivot(p);
        if !(colMax > 0.0) {
          ReducedSingular(a, mat.Value(), augmented.Value(), h, p);
          return Err(Singular);
        }
        ghost var w0, g0 := mat.Value(), augmented.Value();
        SwapStep(a, w0, g0, h, p, iRowMax);
        SwappedRowsEntries(w0, p, iRowMax);
        var _ := mat.SwapRows(p, iRowMax);
        var _ := augmented.SwapRows(p, iRowMax);
        h := SwappedCols(h, p, iRowMax);

        assert Entry(mat.Value(), p, p) == Entry(w0, iRowMax, p);
        h := NormalizePivot(mat, augmented, p, a, h);
        h := EliminateColumn(mat, augmented, p, a, h);
        p := p + 1;
      }
      ReducedFinally(a, mat.Value(), augmented.Value(), h);
      InvSpecIsTheInverse(a, augmented.Value());
      return Ok(augmented);
    }

    /** The pivot search of inv: from row p down, the first row whose
        element in column p is largest in absolute value, compared strictly
        against a maximum that starts at 0 in row 0. */
    method FindPivot(p: nat) returns (colMax: real, iRowMax: nat)
      requires Valid() && m == n && p < n
      ensures colMax >= 0.0
      ensures colMax > 0.0 <==> exists r: nat :: p <= r < n && Entry(Value(), r, p) != 0.0
      ensures colMax > 0.0 ==> p <= iRowMax < n && Abs(Entry(Value(), iRowMax, p)) == colMax
      ensures colMax == 0.0 ==> iRowMax == 0
      ensures forall r: nat :: p <= r < n ==> Abs(Entry(Value(), r, p)) <= colMax
      ensures forall r: nat :: p <= r < iRowMax ==> Abs(Entry(Value(), r, p)) < colMax
    {
      colMax, iRowMax := 0.0, 0;
      var i := p;
      while i < n
        invariant p <= i <= n && colMax >= 0.0
        invariant colMax > 0.0 ==> p <= iRowMax < i && Abs(Entry(Value(), iRowMax, p)) == colMax
        invariant colMax == 0.0 ==> iRowMax == 0
        invariant forall r: nat :: p <= r < i ==> Abs(Entry(Value(), r, p)) <= colMax
        invariant forall r: nat :: p <= r < iRowMax ==> Abs(Entry(Value(), r, p)) < colMax
      {
        var colAbs := Abs(Get(i, p).value);
        if colAbs > colMax {
          colMax, iRowMax := colAbs, i;
        }
        i := i + 1;
      }
      if colMax > 0.0 {
        assert Entry(Value(), iRowMax, p) != 0.0;
      }
    }

    /** The pivot row of both matrices divided through by the pivot, which
        the debug assertion requires to be nonzero; the pivot becomes 1. */
    static method NormalizePivot(mat: Matrix, augmented: Matrix, p: nat, ghost a: Mat, ghost h: Mat)
      returns (ghost h': Mat)
      requires mat != augmented && mat.Valid() && augmented.Valid()
      requires Reduced(a, mat.Value(), augmented.Value(), h, p) && p < a.n && Entry(mat.Value(), p, p) != 0.0
      modifies mat, augmented
      ensures Reduced(a, mat.Value(), augmented.Value(), h', p) && Entry(mat.Value(), p, p) == 1.0
      ensures mat.Value() == ScaledRow(old(mat.Value()), p, 1.0 / old(Entry(mat.Value(), p, p)))
      ensures augmented.Value() == ScaledRow(old(augmented.Value()), p, 1.0 / old(Entry(mat.Value(), p, p)))
    {
      ghost var w1, g1 := mat.Value(), augmented.Value();
      var n := mat.n;
      assert Abs(mat.Get(p, p).value) > 0.0;
      var f := 1.0 / mat.Get(p, p).value;
      OffsetBound(n, n, p, n - 1);
      ScaleRowAsWrittenSquare(w1, p, f);
      ScaleRowAsWrittenSquare(g1, p, f);
      ScaleStep(a, w1, g1, h, p);
      var _ := mat.ScaleRow(p, f);
      var _ := augmented.ScaleRow(p, f);
      h' := ScaledCol(h, p, Entry(w1, p, p));
    }

    /** The loop of inv over the rows i != p: each loses ftmp times the
        pivot row p, ftmp being its element in column p; afterwards column
        p is a column of the identity. */
    static method EliminateColumn(mat: Matrix, augmented: Matrix, p: nat, ghost a: Mat, ghost h: Mat)
      returns (ghost h': Mat)
      requires mat != augmented && mat.Valid() && augmented.Valid()
      requires Reduced(a, mat.Value(), augmented.Value(), h, p) && p < a.n && Entry(mat.Value(), p, p) == 1.0
      modifies mat, augmented
      ensures Reduced(a, mat.Value(), augmented.Value(), h', p + 1)
      ensures mat.Value() == Eliminated(old(mat.Value()), old(mat.Value()), p)
      ensures augmented.Value() == Eliminated(old(augmented.Value()), old(mat.Value()), p)
    {
      ghost var w0, g0 := mat.Value(), augmented.Value();
      EliminateStateStart(w0, w0, p);
      EliminateStateStart(g0, w0, p);
      h' := h;
      var i := 0;
      while i < mat.n
        invariant i <= mat.n && Reduced(a, mat.Value(), augmented.Value(), h', p)
        invariant Entry(mat.Value(), p, p) == 1.0
        invariant forall r: nat :: r < i && r != p ==> Entry(mat.Value(), r, p) == 0.0
        invariant EliminateState(mat.Value(), w0, w0, p, i)
        invariant EliminateState(augmented.Value(), g0, w0, p, i)
      {
        if i != p {
          var ftmp := mat.Get(i, p).value;
          assert ftmp == Entry(w0, i, p);
          SubtractStep(a, mat.Value(), augmented.Value(), h', p, i);
          EliminateStateStep(mat.Value(), w0, w0, p, i);
          EliminateStateStep(augmented.Value(), g0, w0, p, i);
          EliminateRow(mat, augmented, i, p, ftmp);
          h' := ColAdded(h', p, i, ftmp);
        } else {
          EliminateStateSkip(mat.Value(), w0, w0, p);
          EliminateStateSkip(augmented.Value(), g0, w0, p);
        }
        i := i + 1;
      }
      ColumnDone(mat.Value(), p);
      EliminateStateEnd(mat.Value(), w0, w0, p);
      EliminateStateEnd(augmented.Value(), g0, w0, p);
    }

    /** The innermost loop of inv: row i of mat and of augmented loses f
        times row p, one column at a time. */
    static method EliminateRow(mat: Matrix, augmented: Matrix, i: nat, p: nat, f: real)
      requires mat != augmented && mat.Valid() && augmented.Valid()
      requires mat.m == mat.n && augmented.m == mat.n && augmented.n == mat.n
      requires i < mat.n && p < mat.n && i != p
      modifies mat, augmented
      ensures mat.Value() == RowSubtracted(old(mat.Value()), i, p, f)
      ensures augmented.Value() == RowSubtracted(old(augmented.Value()), i, p, f)
    {
      ghost var w0, g0 := mat.Value(), augmented.Value();
      SubtractStateStart(w0, i, p, f);
      SubtractStateStart(g0, i, p, f);
      var j := 0;
      while j < mat.n
        invariant j <= mat.n
        invariant SubtractState(mat.Value(), w0, i, p, f, j)
        invariant SubtractState(augmented.Value(), g0, i, p, f, j)
      {
        mat.SubtractAt(i, p, j, f, w0);
        augmented.SubtractAt(i, p, j, f, g0);
        j := j + 1;
      }
      SubtractStateEnd(mat.Value(), w0, i, p, f);
      SubtractStateEnd(augmented.Value(), g0, i, p, f);
    }

    /** One step of that loop: element (i, j) loses f times element (p, j). */
    method SubtractAt(i: nat, p: nat, j: nat, f: real, ghost w0: Mat)
      requires Valid() && i < w0.m && p < w0.m && i != p && j < w0.n
      requires SubtractState(Value(), w0, i, p, f, j)
      modifies this
      ensures SubtractState(Value(), w0, i, p, f, j + 1)
    {
      ghost var w := Value();
      var x := Get(i, j).value - Get(p, j).value * f;
      assert x == Entry(w, i, j) - Entry(w, p, j) * f;
      SubtractStateStep(w, w0, i, p, f, j);
      var _ := Set(i, j, x);
      assert Value() == SetAt(w, i, j, x);
    }

    /** scalar(x): the 1-by-1 matrix holding x. */
    static method Scalar(x: real) returns (out: Matrix)
      ensures fresh(out) && out.Valid() && out.Value() == MatrixSpec.Scalar(x)
    {
      var created := Create(1, 1);
      out := created.value;
      out.v := out.v[0 := x];
    }

    /** eye(n): the n-by-n identity, set one diagonal element at a time.
        eye is noexcept, so eye(0) would terminate the program. */
    static method Eye(n: nat) returns (out: Matrix)
      requires n > 0
      ensures fresh(out) && out.Valid() && out.Value() == MatrixSpec.Eye(n)
    {
      var created := Create(n, n);
      out := created.value;
      ZerosEntries(n, n);
      var i := 0;
      while i < n
        invariant 0 <= i <= n
        invariant out.Valid() && out.m == n && out.n == n
        invariant forall r: nat, c: nat :: r < n && c < n ==>
                    Entry(out.Value(), r, c) == if r == c && r < i then 1.0 else 0.0
      {
        var _ := out.Set(i, i, 1.0);
        i := i + 1;
      }
      EyeEntries(n);
      Ext(out.Value(), MatrixSpec.Eye(n));
    }

    /** col(n, x): the n-by-1 column filled with x. col is noexcept, so
        col(0, x) would terminate the program. */
    static method Col(n: nat, x: real) returns (out: Matrix)
      requires n > 0
      ensures fresh(out) && out.Valid() && out.Value() == MatrixSpec.Col(n, x)
    {
      var created := Create(n, 1);
      out := created.value;
      out.v := seq(|out.v|, _ => x);
    }
  }

  function Abs(x: real): real
  {
    if x < 0.0 then -x else x
  }

  /** r is the object form of the value-level outcome s. */
  ghost predicate Models(r: Result<Matrix>, s: Result<Mat>)
    reads if r.Ok? then {r.value} else {}
  {
    match r
    case Ok(x) => s.Ok? && x.Valid() && x.Value() == s.value
    case Err(e) => s == Err(e)
  }

  /** lhs + rhs for two matrices: a copy of lhs with rhs added element by
      element; the shapes must agree. */
  method Plus(lhs: Matrix, rhs: Matrix) returns (r: Result<Matrix>)
    requires lhs.Valid() && rhs.Valid()
    ensures Models(r, AddR(lhs.Value(), rhs.Value()))
    ensures r.Ok? ==> fresh(r.value)
  {
    if lhs.m != rhs.m || lhs.n != rhs.n {
      return Err(ShapeMismatch);
    }
    var out := new Matrix(lhs.m, lhs.n, lhs.v);
    var i := 0;
    while i < |out.v|
      invariant |out.v| == |lhs.v| && 0 <= i <= |out.v|
      invariant forall k: int :: 0 <= k < |out.v| ==> out.v[k] == if k < i then lhs.v[k] + rhs.v[k] else lhs.v[k]
    {
      out.v := out.v[i := out.v[i] + rhs.v[i]];
      i := i + 1;
    }
    assert out.v == Add(lhs.Value(), rhs.Value()).v;
    return Ok(out);
  }

  /** lhs + x: a copy of lhs with x added to every element. */
  method PlusScalar(lhs: Matrix, x: real) returns (out: Matrix)
    requires lhs.Valid()
    ensures fresh(out) && out.Valid() && out.Value() == AddScalar(lhs.Value(), x)
  {
    out := new Matrix(lhs.m, lhs.n, lhs.v);
    var i := 0;
    while i < |out.v|
      invariant |out.v| == |lhs.v| && 0 <= i <= |out.v|
      invariant forall k: int :: 0 <= k < |out.v| ==> out.v[k] == if k < i then lhs.v[k] + x else lhs.v[k]
    {
      out.v := out.v[i := out.v[i] + x];
      i := i + 1;
    }
    assert out.v == AddScalar(lhs.Value(), x).v;
  }

  /** x + rhs is rhs + x. */
  method ScalarPlus(x: real, rhs: Matrix) returns (out: Matrix)
    requires rhs.Valid()
    ensures fresh(out) && out.Valid() && out.Value() == AddScalar(rhs.Value(), x)
  {
    out := PlusScalar(rhs, x);
  }

  /** lhs * rhs for two matrices: the triple loop accumulating each element
      of the product from zero; the inner dimensions must agree. */
  method Times(lhs: Matrix, rhs: Matrix) returns (r: Result<Matrix>)
    requires lhs.Valid() && rhs.Valid()
    ensures Models(r, MulR(lhs.Value(), rhs.Value()))
    ensures r.Ok? ==> fresh(r.value)
  {
    if lhs.n != rhs.m {
      return Err(InnerMismatch);
    }
    ghost var a, b := lhs.Value(), rhs.Value();
    var created := Matrix.Create(lhs.m, rhs.n);
    var out := created.value;
    MulStateStart(a, b);
    var i := 0;
    while i < out.m
      invariant 0 <= i <= out.m && MulState(out.Value(), a, b, i, 0, 0)
    {
      var j := 0;
      while j < out.n
        invariant 0 <= j <= out.n && MulState(out.Value(), a, b, i, j, 0)
      {
        Accumulate(out, lhs, rhs, i, j);
        MulStateNextCol(out.Value(), a, b, i, j);
        j := j + 1;
      }
      MulStateNextRow(out.Value(), a, b, i);
      i := i + 1;
    }
    MulStateEnd(out.Value(), a, b);
    return Ok(out);
  }

  /** The innermost loop of lhs * rhs: element (i, j) of out accumulates
      the products lhs(i, k) * rhs(k, j) for k = 0, 1, ... */
  method Accumulate(out: Matrix, lhs: Matrix, rhs: Matrix, i: nat, j: nat)
    requires lhs.Valid() && rhs.Valid() && lhs.n == rhs.m && out != lhs && out != rhs
    requires MulState(out.Value(), lhs.Value(), rhs.Value(), i, j, 0) && i < lhs.m && j < rhs.n
    modifies out
    ensures MulState(out.Value(), lhs.Value(), rhs.Value(), i, j, lhs.n)
  {
    ghost var a, b := lhs.Value(), rhs.Value();
    var k := 0;
    while k < lhs.n
      invariant 0 <= k <= lhs.n && MulState(out.Value(), a, b, i, j, k)
    {
      ghost var before := out.Value();
      var x := out.Get(i, j).value + lhs.Get(i, k).value * rhs.Get(k, j).value;
      assert x == Entry(before, i, j) + Entry(a, i, k) * Entry(b, k, j);
      MulStateStep(before, a, b, i, j, k);
      var _ := out.Set(i, j, x);
      k := k + 1;
    }
  }

  /** lhs * x: a copy of lhs with every element multiplied by x. */
  method TimesScalar(lhs: Matrix, x: real) returns (out: Matrix)
    requires lhs.Valid()
    ensures fresh(out) && out.Valid() && out.Value() == Scale(lhs.Value(), x)
  {
    out := new Matrix(lhs.m, lhs.n, lhs.v);
    var i := 0;
    while i < |out.v|
      invariant |out.v| == |lhs.v| && 0 <= i <= |out.v|
      invariant forall k: int :: 0 <= k < |out.v| ==> out.v[k] == if k < i then lhs.v[k] * x else lhs.v[k]
    {
      out.v := out.v[i := out.v[i] * x];
      i := i + 1;
    }
    forall k | 0 <= k < |out.v|
      ensures out.v[k] == Scale(lhs.Value(), x).v[k]
    {
    }
  }

  /** x * rhs is rhs * x. */
  method ScalarTimes(x: real, rhs: Matrix) returns (out: Matrix)
    requires rhs.Valid()
    ensures fresh(out) && out.Valid() && out.Value() == Scale(rhs.Value(), x)
  {
    out := TimesScalar(rhs, x);
  }

  /** lhs - rhs is lhs + (-1 * rhs). */
  method Minus(lhs: Matrix, rhs: Matrix) returns (r: Result<Matrix>)
    requires lhs.Valid() && rhs.Valid()
    ensures Models(r, SubR(lhs.Value(), rhs.Value()))
    ensures r.Ok? ==> fresh(r.value)
  {
    var negated := ScalarTimes(-1.0, rhs);
    r := Plus(lhs, negated);
  }

  /** lhs / x is lhs * (1 / x); dividing by 0 throws. */
  method Over(lhs: Matrix, x: real) returns (r: Result<Matrix>)
    requires lhs.Valid()
    ensures Models(r, DivR(lhs.Value(), x))
    ensures r.Ok? ==> fresh(r.value)
  {
    if x == 0.0 {
      return Err(DivideByZero);
    }
    var out := TimesScalar(lhs, 1.0 / x);
    return Ok(out);
  }
}
