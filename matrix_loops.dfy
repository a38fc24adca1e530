/** The intermediate values the loops of matrix.h pass through, as states
    over MatrixSpec values, with one lemma per loop step: how far swapRows,
    the product's triple loop and inv's row subtraction have got. */
module MatrixLoops {
  import opened Sums
  import opened MatrixSpec
  import opened MatrixAlgebra
  import opened MatrixInverse

  // ---------------------------------------------------------------------
  // swapRows

  /** Row r1 or r2 of a, whichever i is not; any other row is row i. */
  function Partner(i: nat, r1: nat, r2: nat): nat
  {
    if i == r1 then r2 else if i == r2 then r1 else i
  }

  /** The first k columns of rows r1 and r2 of a are exchanged in w. */
  ghost predicate SwapState(w: Mat, a: Mat, r1: nat, r2: nat, k: nat)
  {
    Wf(w) && SameShape(w, a) &&
    forall i: nat, j: nat :: i < a.m && j < a.n ==>
      Entry(w, i, j) == if j < k then Entry(a, Partner(i, r1, r2), j) else Entry(a, i, j)
  }

  lemma SwapStateStart(a: Mat, r1: nat, r2: nat)
    requires Wf(a)
    ensures SwapState(a, a, r1, r2, 0)
  {
  }

  /** One exchange of the two elements in column k. */
  lemma SwapStateStep(w: Mat, a: Mat, r1: nat, r2: nat, k: nat)
    requires SwapState(w, a, r1, r2, k) && r1 < a.m && r2 < a.m && k < a.n
    ensures SwapState(SetAt(SetAt(w, r1, k, Entry(w, r2, k)), r2, k, Entry(w, r1, k)), a, r1, r2, k + 1)
  {
    var mid := SetAt(w, r1, k, Entry(w, r2, k));
    SetAtEntries(w, r1, k, Entry(w, r2, k));
    SetAtEntries(mid, r2, k, Entry(w, r1, k));
  }

  lemma SwapStateEnd(w: Mat, a: Mat, r1: nat, r2: nat)
    requires SwapState(w, a, r1, r2, a.n) && Wf(a) && r1 < a.m && r2 < a.m
    ensures w == SwappedRows(a, r1, r2)
  {
    SwappedRowsEntries(a, r1, r2);
    forall i: nat, j: nat | i < a.m && j < a.n
      ensures Entry(w, i, j) == Entry(SwappedRows(a, r1, r2), i, j)
    {
      if i == r1 {
      } else if i == r2 {
      }
    }
    Ext(w, SwappedRows(a, r1, r2));
  }

  // ---------------------------------------------------------------------
  // scaleRow

  /** One more offset of the range multiplied by s. */
  lemma ScaledRangeStep(v: seq<real>, lo: nat, hi: nat, s: real)
    requires lo <= hi < |v|
    ensures ScaledRange(v, lo, hi + 1, s) == ScaledRange(v, lo, hi, s)[hi := Scaled(ScaledRange(v, lo, hi, s)[hi], s)]
  {
  }

  // ---------------------------------------------------------------------
  // The product's triple loop

  /** The first k terms of the inner product of row i of a and column j of b. */
  ghost function PartialDot(a: Mat, b: Mat, i: nat, j: nat, k: nat): real
  {
    Sum((l: nat) => Entry(a, i, l) * Entry(b, l, j), k)
  }

  /** Element (r, c) of the product once the loops stand at (i, j, k). */
  ghost function MulProgress(a: Mat, b: Mat, i: nat, j: nat, k: nat, r: nat, c: nat): real
  {
    if r < i || (r == i && c < j) then Dot(a, b, r, c)
    else if r == i && c == j then PartialDot(a, b, i, j, k)
    else 0.0
  }

  ghost predicate MulState(w: Mat, a: Mat, b: Mat, i: nat, j: nat, k: nat)
  {
    Wf(w) && w.m == a.m && w.n == b.n &&
    forall r: nat, c: nat :: r < a.m && c < b.n ==> Entry(w, r, c) == MulProgress(a, b, i, j, k, r, c)
  }

  /** The output starts as zeros. */
  lemma MulStateStart(a: Mat, b: Mat)
    requires a.m > 0 && b.n > 0
    ensures MulState(Zeros(a.m, b.n), a, b, 0, 0, 0)
  {
    ZerosEntries(a.m, b.n);
  }

  /** out(i, j) += lhs(i, k) * rhs(k, j). */
  lemma MulStateStep(w: Mat, a: Mat, b: Mat, i: nat, j: nat, k: nat)
    requires MulState(w, a, b, i, j, k) && i < a.m && j < b.n
    ensures MulState(SetAt(w, i, j, Entry(w, i, j) + Entry(a, i, k) * Entry(b, k, j)), a, b, i, j, k + 1)
  {
    SetAtEntries(w, i, j, Entry(w, i, j) + Entry(a, i, k) * Entry(b, k, j));
  }

  /** Element (i, j) is complete after a.n terms. */
  lemma MulStateNextCol(w: Mat, a: Mat, b: Mat, i: nat, j: nat)
    requires MulState(w, a, b, i, j, a.n)
    ensures MulState(w, a, b, i, j + 1, 0)
  {
    assert PartialDot(a, b, i, j, a.n) == Dot(a, b, i, j);
  }

  lemma MulStateNextRow(w: Mat, a: Mat, b: Mat, i: nat)
    requires MulState(w, a, b, i, b.n, 0)
    ensures MulState(w, a, b, i + 1, 0, 0)
  {
  }

  lemma MulStateEnd(w: Mat, a: Mat, b: Mat)
    requires MulState(w, a, b, a.m, 0, 0) && Wf(a) && Wf(b) && a.n == b.m
    ensures w == Mul(a, b)
  {
    MulEntries(a, b);
    Ext(w, Mul(a, b));
  }

  // ---------------------------------------------------------------------
  // inv's row subtraction

  /** The first k elements of row i of w0 have lost f times row p. */
  ghost predicate SubtractState(w: Mat, w0: Mat, i: nat, p: nat, f: real, k: nat)
  {
    Wf(w) && SameShape(w, w0) &&
    forall r: nat, c: nat :: r < w0.m && c < w0.n ==>
      Entry(w, r, c) == if r == i && c < k then Entry(w0, i, c) - Entry(w0, p, c) * f else Entry(w0, r, c)
  }

  lemma SubtractStateStart(w0: Mat, i: nat, p: nat, f: real)
    requires Wf(w0)
    ensures SubtractState(w0, w0, i, p, f, 0)
  {
  }

  /** Element (i, k) loses f times element (p, k); row p is never written. */
  lemma SubtractStateStep(w: Mat, w0: Mat, i: nat, p: nat, f: real, k: nat)
    requires SubtractState(w, w0, i, p, f, k) && i < w0.m && p < w0.m && i != p && k < w0.n
    ensures SubtractState(SetAt(w, i, k, Entry(w, i, k) - Entry(w, p, k) * f), w0, i, p, f, k + 1)
  {
    SetAtEntries(w, i, k, Entry(w, i, k) - Entry(w, p, k) * f);
  }

  lemma SubtractStateEnd(w: Mat, w0: Mat, i: nat, p: nat, f: real)
    requires SubtractState(w, w0, i, p, f, w0.n) && Wf(w0)
    ensures w == RowSubtracted(w0, i, p, f)
  {
    RowSubtractedEntries(w0, i, p, f);
    Ext(w, RowSubtracted(w0, i, p, f));
  }

  // ---------------------------------------------------------------------
  // inv's loop over the rows of the pivot column

  /** The rows before i, other than p, of x0 have lost w0(r, p) times row p. */
  ghost predicate EliminateState(x: Mat, x0: Mat, w0: Mat, p: nat, i: nat)
  {
    Wf(x) && SameShape(x, x0) &&
    forall r: nat, c: nat :: r < x0.m && c < x0.n ==>
      Entry(x, r, c) == if r < i && r != p then Entry(x0, r, c) - Entry(x0, p, c) * Entry(w0, r, p) else Entry(x0, r, c)
  }

  lemma EliminateStateStart(x0: Mat, w0: Mat, p: nat)
    requires Wf(x0)
    ensures EliminateState(x0, x0, w0, p, 0)
  {
  }

  /** The pivot row itself is skipped. */
  lemma EliminateStateSkip(x: Mat, x0: Mat, w0: Mat, p: nat)
    requires EliminateState(x, x0, w0, p, p)
    ensures EliminateState(x, x0, w0, p, p + 1)
  {
  }

  /** Row i loses w0(i, p) times row p, which no earlier step has changed. */
  lemma EliminateStateStep(x: Mat, x0: Mat, w0: Mat, p: nat, i: nat)
    requires EliminateState(x, x0, w0, p, i) && i < x0.m && p < x0.m && i != p
    ensures EliminateState(RowSubtracted(x, i, p, Entry(w0, i, p)), x0, w0, p, i + 1)
  {
    RowSubtractedEntries(x, i, p, Entry(w0, i, p));
  }

  lemma EliminateStateEnd(x: Mat, x0: Mat, w0: Mat, p: nat)
    requires EliminateState(x, x0, w0, p, x0.m) && Wf(x0)
    ensures x == Eliminated(x0, w0, p)
  {
    EliminatedEntries(x0, w0, p);
    Ext(x, Eliminated(x0, w0, p));
  }
}
