# MLFramework matrices and linear Gaussian systems, in Dafny

This project models the numeric core of MLFramework, a small C++ library:

- the dense row-major `Matrix` of `include/matrix.h` with
  - its constructors, element access and transpose;
  - inversion by Gauss-Jordan elimination with partial pivoting;
  - the elementary row operations and the factories;
  - the free operators `+ * - /`;
- the `MultivariateNormal` of `include/multivariate-normal.h`, a mean column
  and a covariance whose constructor checks their shapes;
- the `LinearGaussianSystem` of `include/linear-gaussian-system.h`, whose
  `train` folds one Gaussian observation into the posterior.

The model has two layers.

On values, `MatrixSpec.Mat` is `(m, n, v)` with the store `v` in row-major order and element
`(i, j)` at offset `n*i + j`. It comes with pure definitions of transpose, row
operations, sum, product and identity (`MatrixSpec`, `MatrixAlgebra`) and
with `MatrixInverse.InvSpec`, which says what inversion must return:
- a non-square matrix is rejected;
- an invertible matrix yields its unique two-sided inverse;
- any other matrix is singular.

On objects, `Matrices.Matrix` is a class with constant dimensions and a
mutable store. Its methods and the operator methods do what the C++ does,
loop by loop, and each is proved against the value layer. Every exception
of the source becomes an `Errors.Error` kind. Each kind stands for one
message, except `OutOfBounds`, which stands for the three index messages.
Methods that can throw return a `Result` or an `Outcome`.

The proof of `inv` pairs each row operation on the working copy and the
augmented matrix with the column operation that undoes it on a ghost
matrix. The finished augmented matrix is then a two-sided inverse. When
the pivot search finds only zeros, a null vector built from the reduced
columns shows that no inverse exists. `inv` thus throws "not invertible"
exactly when the matrix has no inverse.

`MultivariateNormal` is a datatype holding two matrices, and
`Normals.Make` is its checking constructor.

`LinearGaussianSystem` is a class. Its `Train` method is proved against
`GaussianSystems.TrainSpec`, a value-level statement of the two assignment
lines together with their error conditions. `TrainSpecMeaning` then gives
the meaning of a successful update:
- it succeeds exactly when the shapes fit and three matrices are invertible;
- the new covariance is the inverse of the precision
  `inv(Sigma) + aᵀ inv(Sy) a`;
- the precision times the new mean is the information vector
  `aᵀ inv(Sy) (y - b) + inv(Sigma) mu`.

`TrainOrderIndependent` shows that two observations give the same
posterior in either order, whenever both orders succeed.
`TrainCanIncreaseVariance` shows that nothing keeps the covariance from
growing once a noise covariance is not positive definite.

Elements are exact real numbers; floating point is not modelled.

## Model

| member | source | states |
|---|---|---|
| `Matrices.Matrix.Create` | include/matrix.h:18-22 | succeeds exactly when both dimensions are positive, giving an M x N matrix of zeros; otherwise ZeroDimension |
| `Matrices.Matrix.FromVector` | include/matrix.h:24-32 | a zero dimension gives ZeroDimension, checked first; then a store whose length is not M*N gives LengthMismatch; otherwise the M x N matrix over exactly that store |
| `Matrices.Matrix.Get` | include/matrix.h:34-40 | succeeds exactly when both indices are in bounds, with element (mi, ni), the store at offset n*mi + ni; otherwise OutOfBounds |
| `Matrices.Matrix.Set` | include/matrix.h:42-48 | passes exactly when both indices are in bounds; then element (mi, ni) becomes x and every other element is unchanged; out of bounds it fails with OutOfBounds and the store is untouched |
| `MatrixSpec.SetAtEntries` | include/matrix.h:42-48 | writing one element keeps the shape, puts x at (i, j) and leaves every other element as it was |
| `Matrices.Matrix.T` | include/matrix.h:51-60 | returns a new well-formed matrix equal to the transpose of the receiver |
| `MatrixSpec.TransposeEntries` | include/matrix.h:51-60 | the transpose is n x m and holds element (i, j) of the original at (j, i) |
| `MatrixSpec.TransposeTwice` | include/matrix.h:51-60 | transposing twice gives back the original matrix |
| `Matrices.Matrix.Inv` | include/matrix.h:64-119 | agrees with InvSpec: NotSquare for a non-square matrix, the two-sided inverse (a new matrix) when one exists, Singular otherwise |
| `MatrixInverse.InverseUnique` | include/matrix.h:64-119 | a left inverse and a right inverse of the same matrix are equal |
| `MatrixInverse.InvSpecIsTheInverse` | include/matrix.h:64-119 | any two-sided inverse of a square matrix is exactly what inv must return |
| `MatrixInverse.InvSpecInvolutive` | include/matrix.h:64-119 | inverting the inverse gives back the matrix |
| `MatrixInverse.EyeInverse` | include/matrix.h:64-119 | the identity is its own inverse |
| `MatrixInverse.SingularExample` | include/matrix.h:90-91 | [[1, 2], [2, 4]] is reported Singular |
| `MatrixInverse.ReducedInitially` | include/matrix.h:69-70 | the copy of the matrix and the identity start the elimination invariant with no column reduced |
| `Matrices.Matrix.FindPivot` | include/matrix.h:75-88 | the maximum is nonnegative, and positive exactly when some element of column p from row p down is nonzero; the chosen row holds that maximum in absolute value, every row from p down is at most it, and every row before the chosen one is strictly below it (the first maximum is kept); with no nonzero element the row stays 0 |
| `MatrixInverse.ReducedSingular` | include/matrix.h:90-91 | when columns before p are unit columns and column p is zero from row p down, the original matrix has no inverse |
| `MatrixInverse.NullVectorNotInvertible` | include/matrix.h:90-91 | a matrix that sends a nonzero column to zero has no inverse |
| `MatrixInverse.SwapStep` | include/matrix.h:93-94 | exchanging rows p and q (q at or below p) of both working matrices keeps the elimination invariant |
| `MatrixAlgebra.MulSwappedRows` | include/matrix.h:93-94 | exchanging two rows of a product is exchanging them in its left factor |
| `Matrices.Matrix.NormalizePivot` | include/matrix.h:96-100 | with a nonzero pivot, row p of both matrices is multiplied by 1/pivot and nothing else changes; the invariant is kept and the pivot becomes 1 |
| `MatrixInverse.ScaleStep` | include/matrix.h:96-100 | scaling row p of both working matrices by 1/pivot keeps the invariant and makes the pivot 1 |
| `MatrixAlgebra.MulScaledRow` | include/matrix.h:96-100 | scaling a row of a product is scaling it in the left factor |
| `Matrices.Matrix.EliminateColumn` | include/matrix.h:103-115 | every row i other than p of both matrices loses (i, p) of the working matrix, as it was before the loop, times row p, and row p stays; the invariant is kept and column p becomes a unit column |
| `MatrixSpec.EliminatedEntries` | include/matrix.h:103-115 | element (r, j) of a cleared column's result is the old element less w(r, p) times element (p, j), except on row p, which is kept |
| `MatrixLoops.EliminateStateStep` | include/matrix.h:105-114 | row i, still as it was, loses w(i, p) times the untouched row p, and the rows before and after it keep their state |
| `MatrixLoops.EliminateStateEnd` | include/matrix.h:103-115 | once every row has had its turn, the matrix is the cleared-column closed form |
| `MatrixInverse.SubtractStep` | include/matrix.h:103-115 | subtracting ftmp times the pivot row from row i (i not p) keeps the invariant, zeroes element (i, p) and leaves the other rows alone |
| `MatrixAlgebra.MulRowSubtracted` | include/matrix.h:103-115 | subtracting a multiple of one row of a product from another is doing so in its left factor |
| `Matrices.Matrix.EliminateRow` | include/matrix.h:110-114 | both working matrices end with f times row p subtracted from row i |
| `Matrices.Matrix.SubtractAt` | include/matrix.h:112-113 | one set of the loop advances the row subtraction by one column |
| `MatrixInverse.ReducedFinally` | include/matrix.h:116-118 | once every column is reduced, the augmented matrix is a two-sided inverse of the input |
| `Matrices.Matrix.ScaleRow` | include/matrix.h:122-129 | passes exactly when r < m, multiplying offsets m*r to m*r + n - 1 of the store by the scale as written; fails with OutOfBounds and no change otherwise |
| `MatrixSpec.ScaleRowAsWrittenSquare` | include/matrix.h:122-129 | on a square matrix, scaleRow as written multiplies exactly row r |
| `MatrixSpec.ScaleRowAsWrittenCounterexample` | include/matrix.h:128 | on a 2 x 3 matrix, scaleRow(1, 2) as written doubles offsets 2-4 instead of row 1 |
| `MatrixSpec.ScaledRowEntries` | include/matrix.h:121-129 | the intended scaleRow multiplies every element of row r by the scale and leaves the other rows alone |
| `Matrices.Matrix.SwapRows` | include/matrix.h:132-139 | passes exactly when both rows are in bounds, then exchanges the two rows; fails with OutOfBounds and no change otherwise |
| `MatrixSpec.SwappedRowsEntries` | include/matrix.h:132-139 | rows r1 and r2 trade places and every other row is unchanged |
| `MatrixSpec.SwapTwice` | include/matrix.h:132-139 | swapping the same rows twice restores the matrix |
| `Matrices.Matrix.Scalar` | include/matrix.h:142-147 | a new 1 x 1 matrix holding x |
| `Matrices.Matrix.Eye` | include/matrix.h:150-158 | a new n x n identity |
| `MatrixSpec.EyeEntries` | include/matrix.h:150-158 | the identity holds 1 on the diagonal and 0 elsewhere |
| `Matrices.Matrix.Col` | include/matrix.h:161-166 | a new n x 1 matrix with x in every row |
| `MatrixSpec.ColEntries` | include/matrix.h:161-166 | every element of the column is x |
| `Matrices.Plus` | include/matrix.h:174-186 | ShapeMismatch unless the shapes agree; otherwise a new matrix equal to the elementwise sum |
| `MatrixSpec.AddEntries` | include/matrix.h:174-186 | the sum has the operands' shape and element (i, j) is the sum of theirs |
| `MatrixSpec.AddCommutes` | include/matrix.h:174-186 | matrix addition is commutative |
| `Matrices.PlusScalar` | include/matrix.h:188-199 | a new matrix with x added to every element |
| `MatrixSpec.AddScalarEntries` | include/matrix.h:188-199 | element (i, j) of the result is the original plus x |
| `Matrices.ScalarPlus` | include/matrix.h:201-202 | x + matrix equals matrix + x |
| `Matrices.Times` | include/matrix.h:204-218 | InnerMismatch unless lhs.n = rhs.m; otherwise a new matrix equal to the product |
| `Matrices.Accumulate` | include/matrix.h:214-215 | the innermost loop leaves the inner product of row i and column j at (i, j) and no other element changed |
| `MatrixAlgebra.MulEntries` | include/matrix.h:204-218 | the product is lhs.m x rhs.n and element (i, j) is the inner product of row i and column j |
| `MatrixAlgebra.MulAssoc` | include/matrix.h:204-218 | the product is associative |
| `MatrixAlgebra.MulEyeLeft` | include/matrix.h:204-218 | the identity is a left unit of the product |
| `MatrixAlgebra.MulEyeRight` | include/matrix.h:204-218 | the identity is a right unit of the product |
| `Matrices.TimesScalar` | include/matrix.h:220-231 | a new matrix with every element multiplied by x |
| `MatrixSpec.ScaleEntries` | include/matrix.h:220-231 | element (i, j) of the result is the original times x |
| `Matrices.ScalarTimes` | include/matrix.h:233-234 | x * matrix equals matrix * x |
| `Matrices.Minus` | include/matrix.h:236-237 | lhs + (-1 * rhs): ShapeMismatch unless the shapes agree, otherwise the difference |
| `MatrixSpec.SubEntries` | include/matrix.h:236-237 | the difference succeeds exactly for equal shapes, with element (i, j) the difference of theirs |
| `Matrices.Over` | include/matrix.h:239-250 | DivideByZero when x is 0, otherwise the matrix times 1/x |
| `MatrixSpec.DivEntries` | include/matrix.h:239-250 | division succeeds exactly for nonzero x, dividing every element by x |
| `MatrixSpec.AdditionExamples` | test/matrix-ops.cpp:35-48 | the three sums of the addition test: [9, 9, 9, 9], [12, 13, 14, 15] and [17, 16, 15, 14] |
| `Normals.Make` | include/multivariate-normal.h:9-17 | accepts exactly a mean with one column and a covariance that is N x N for an N-row mean, storing both unchanged; a mean that is not a column gives NotColumnVector even when the covariance is also wrong; otherwise NotCovariance |
| `Normals.MakeRoundTrip` | include/multivariate-normal.h:9-17 | a distribution is rebuilt unchanged from its own mean and covariance exactly when it has the constructor's shape |
| `GaussianSystems.LinearGaussianSystem.constructor` | include/linear-gaussian-system.h:11-14 | posterior, a and b are stored as given, with no check |
| `GaussianSystems.LinearGaussianSystem.Train` | include/linear-gaussian-system.h:16-21 | agrees with TrainSpec: on success the posterior mean and covariance become the new values, computed from the old covariance; on an exception the posterior is unchanged; a and b never change |
| `GaussianSystems.NewCovariance` | include/linear-gaussian-system.h:18 | computes (inv(Sigma) + aᵀ inv(Sy) a).inv() with the first exception of a left-to-right evaluation |
| `GaussianSystems.NewMean` | include/linear-gaussian-system.h:19 | computes sigma (aᵀ inv(Sy) (y - b) + inv(Sigma) mu), recomputing both inverses, with the first exception of a left-to-right evaluation |
| `GaussianSystems.CovarianceSpecMeaning` | include/linear-gaussian-system.h:18 | the new covariance exists exactly when a is K x N and the prior covariance, the noise covariance and the precision inv(Sigma) + aᵀ inv(Sy) a are invertible, and it is then the inverse of that precision |
| `GaussianSystems.MeanSpecMeaning` | include/linear-gaussian-system.h:19 | given that covariance, the new mean exists exactly when b has the observation's shape; it is N x 1 and the precision times it is the information vector aᵀ inv(Sy) (y - b) + inv(Sigma) mu |
| `GaussianSystems.TrainSpecMeaning` | include/linear-gaussian-system.h:16-21 | for shaped inputs, train succeeds exactly when a is K x N, b has the observation's shape and the prior covariance, the noise covariance and the new precision are invertible; the new mean is N x 1 and the new covariance N x N; the covariance inverts the precision, and the precision times the mean is the information vector |
| `GaussianSystems.TrainTwiceMeaning` | include/linear-gaussian-system.h:16-21 | after two successful trains the covariance inverts inv(Sigma) + aᵀ inv(S1) a + aᵀ inv(S2) a, and that precision times the mean is inv(Sigma) mu plus each observation's aᵀ inv(Si) (yi - b) |
| `GaussianSystems.TrainOrderIndependent` | include/linear-gaussian-system.h:16-21 | two observations give the same mean and covariance in either order, whenever both orders succeed |
| `GaussianSystems.NegativeNoisePrecision` | include/linear-gaussian-system.h:18 | with prior variance 1, a = 1 and noise covariance -2, the precision 1 + 1 (-1/2) 1 is 1/2 |
| `GaussianSystems.TrainCanIncreaseVariance` | include/linear-gaussian-system.h:16-21 | train accepts a noise covariance of -2 and turns a prior variance of 1 into a variance of 2 |
| `MatrixSpec.AddSwapLast` | include/matrix.h:174-186 | in a sum of three matrices the last two terms can be exchanged |
| `MatrixSpec.AddSwapFirst` | include/matrix.h:174-186 | in a sum of three matrices the first two terms can be exchanged |
| `MatrixSpec.TransposeOneByOne` | include/matrix.h:51-60 | a 1 x 1 matrix is its own transpose |
| `MatrixAlgebra.MulOneByOne` | include/matrix.h:204-218 | the product of two 1 x 1 matrices is the 1 x 1 matrix of the product of their elements |
| `MatrixInverse.InverseCancels` | include/matrix.h:64-119 | a matrix that has an inverse can be cancelled from the left of two equal products |
| `MatrixInverse.InvOneByOne` | include/matrix.h:64-119 | inv of a nonzero 1 x 1 matrix is the matrix of its reciprocal |

## Left out

- Floating point is left out. Elements are exact reals, so rounding, NaN, infinities and the tolerance-free pivot comparison of a `double` are not modelled. `inv` succeeds exactly for matrices that are invertible over the reals.
- The element type parameter `T` and the scalar type parameter `C` are both modelled as `real`. Their `static_assert`s are compile-time checks.
- Both `operator<<` overloads are not modelled. They only render output.
- `src/main.cpp` is not part of this model. From the test file only the three addition checks are kept, as a lemma.
- The wrap-around of `M * N` in `size_type` is not modelled (the source notes it as a TODO). Dimensions and offsets are unbounded naturals.
- `Matrices.Matrix.Eye` requires n > 0, because `eye` is `noexcept`: `eye(0)` throws inside it and terminates the program.
- `Matrices.Matrix.Col` requires n > 0, for the same reason as `eye(0)`.
- `Matrices.Matrix.ScaleRow` requires the offsets it writes, up to m*r + n, to lie inside the store. Past the store the source writes outside its vector, which is undefined behaviour. `inv` only scales square matrices, where this always holds.
- `Matrices.Matrix.NormalizePivot` takes the debug assertion of line 96 as a precondition, and `Inv` proves it before the call. The assertion is not a runtime check in the model.
- Every throw of the source is a `std::invalid_argument` with a message. The model keeps an `Errors.Error` kind rather than the exception type. The three index messages of get and set (matrix.h:37 and 45), `scaleRow` (line 125) and `swapRows` (line 135) all become `OutOfBounds`. Each other message has a kind of its own.
- C++ leaves unspecified the order in which the operands of `+` and `*` are evaluated. Where two operands of one expression in `train` would both throw, the model reports the left one.
- Nested loops are split into helper methods that keep the source's order of operations:
  - `inv` into `FindPivot`, `NormalizePivot`, `EliminateColumn`, `EliminateRow` and `SubtractAt`;
  - the product into `Accumulate`.
- `train` is split by line into `NewCovariance` and `NewMean`.
- `GaussianSystems.NewCovariance` does not check whether the product with `a` on line 18 threw. That throw cannot happen once the product before it succeeded.
- Matrices are values in C++ and objects in the model:
  - Every operation returns a fresh object and never changes its operands, so no sharing is observable through them.
  - `Normals.Make` keeps the caller's mean and covariance objects, where the constructor of multivariate-normal.h:10 copies or moves them. A later `Set` on the caller's matrix therefore changes the stored distribution in the model only.
  - The `LinearGaussianSystem` constructor stores the objects it is given instead of copies.
  - `train` replaces the posterior's matrices with fresh objects instead of assigning into them.
- The comment at matrix.h:121 calls `scaleRow` the standard elementary row operation, which scales row r. Its code starts row r at offset `m * r`, while get and set (lines 39 and 47) use `n * mi + ni`. The model follows the code; see Findings.
- `GaussianSystems.TrainSpecMeaning` does not state that train never increases the trace of the covariance. That holds only for positive definite covariances, which the source never checks; `TrainCanIncreaseVariance` gives a prior variance of 1, a noise covariance of -2, a = 1 and b = 0, and the new variance is 2.
- `GaussianSystems.TrainOrderIndependent` assumes that both orders succeed. It does not show that one order succeeds when the other does, since the precision after the first observation may be singular in one order only.

## Findings

| source | as written | input that shows it | evidently intended | confidence | as-written member | corrected member |
|---|---|---|---|---|---|---|
| include/matrix.h:128 | `v[m * r + ni] *= scale` starts row r at offset m*r | a 2 x 3 matrix of ones with scaleRow(1, 2) doubles offsets 2, 3, 4, giving [1, 1, 2, 2, 2, 1] instead of [1, 1, 1, 2, 2, 2]; on a 3 x 2 matrix scaleRow(2, s) writes offsets 6 and 7 of a 6-element store | `v[n * r + ni] *= scale`, the row-major offset used by get and set | not executed | `MatrixSpec.ScaleRowAsWrittenCounterexample` | `MatrixSpec.ScaledRowEntries` |

`inv` calls `scaleRow` only on square matrices, where m*r equals n*r.
`MatrixSpec.ScaleRowAsWrittenSquare` proves that the written and the
intended versions agree there. The inversion proof reasons with the
corrected `ScaledRow`.
