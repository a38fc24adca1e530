/** multivariate-normal.h: a normal distribution given by its mean column mu
    and its covariance sigma. The constructor only checks shapes. */
module Normals {
  import opened Errors
  import opened MatrixSpec
  import opened Matrices

  /** The mean and the covariance, held by value. */
  datatype MultivariateNormal = MultivariateNormal(mu: Matrix, sigma: Matrix)

  /** The shape the constructor establishes: mu is N x 1 and sigma is N x N.
      Only the constant dimensions are looked at. */
  predicate Shaped(d: MultivariateNormal)
  {
    d.mu.n == 1 && d.sigma.m == d.mu.m && d.sigma.n == d.mu.m
  }

  /** Both matrices are well formed and the shapes fit. */
  ghost predicate Valid(d: MultivariateNormal)
    reads d.mu, d.sigma
  {
    d.mu.Valid() && d.sigma.Valid() && Shaped(d)
  }

  /** MultivariateNormal(M, S): the mean must be a column, checked first;
      then the covariance must be square with the mean's row count. The two
      matrices are stored as given. */
  function Make(M: Matrix, S: Matrix): (r: Result<MultivariateNormal>)
    ensures r.Ok? <==> M.n == 1 && S.m == M.m && S.n == M.m
    ensures M.n != 1 ==> r == Err(NotColumnVector)
    ensures M.n == 1 && (S.m != M.m || S.n != M.m) ==> r == Err(NotCovariance)
    ensures r.Ok? ==> r.value.mu == M && r.value.sigma == S && Shaped(r.value)
  {
    if M.n != 1 then Err(NotColumnVector)
    else if S.m != M.m || S.n != M.m then Err(NotCovariance)
    else Ok(MultivariateNormal(M, S))
  }

  /** A distribution is accepted by the constructor, from its own two
      matrices, exactly when it has the constructor's shape; the constructor
      then gives it back unchanged. */
  lemma MakeRoundTrip(d: MultivariateNormal)
    ensures Make(d.mu, d.sigma) == Ok(d) <==> Shaped(d)
  {
  }
}
