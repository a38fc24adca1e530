/** linear-gaussian-system.h: a Gaussian prior over a state x, the posterior,
    observed through y = a x + b with Gaussian noise. train folds one
    observation into the posterior by the standard conjugate update. */
module GaussianSystems {
  import opened Errors
  import opened MatrixSpec
  import opened MatrixAlgebra
  import opened MatrixInverse
  import opened Matrices
  import opened Normals

  // ---------------------------------------------------------------------
  // The update on values

  /** What one observation adds to the precision: a^T inv(ysig) a. */
  ghost function ObservedPrecision(a: Mat, ysig: Mat): (r: Mat)
    requires Wf(ysig) && ysig.m == ysig.n && Invertible(ysig)
    ensures r.m == a.n && r.n == a.n && |r.v| == a.n * a.n
  {
    Mul(Mul(Transpose(a), InvSpec(ysig).value), a)
  }

  /** What one observation adds to the information vector:
      a^T inv(ysig) (ymu - b). */
  ghost function ObservedInformation(a: Mat, b: Mat, ymu: Mat, ysig: Mat): (r: Mat)
    requires Wf(ysig) && ysig.m == ysig.n && Invertible(ysig)
    requires Wf(ymu) && Wf(b) && SameShape(b, ymu)
    ensures r.m == a.n && r.n == ymu.n && |r.v| == a.n * ymu.n
  {
    SubEntries(ymu, b);
    Mul(Mul(Transpose(a), InvSpec(ysig).value), SubR(ymu, b).value)
  }

  /** The precision of the updated posterior: inv(psig) + a^T inv(ysig) a. */
  ghost function Precision(psig: Mat, a: Mat, ysig: Mat): (r: Mat)
    requires Wf(psig) && Wf(ysig) && psig.m == psig.n && ysig.m == ysig.n
    requires Invertible(psig) && Invertible(ysig)
    requires a.m == ysig.m && a.n == psig.m
    ensures Wf(r) && r.m == psig.m && r.n == psig.m
  {
    Add(InvSpec(psig).value, ObservedPrecision(a, ysig))
  }

  /** The information vector of the updated posterior:
      a^T inv(ysig) (ymu - b) + inv(psig) pmu. */
  ghost function Information(pmu: Mat, psig: Mat, a: Mat, b: Mat, ymu: Mat, ysig: Mat): (r: Mat)
    requires Wf(pmu) && Wf(psig) && Wf(ysig) && Wf(ymu) && Wf(b)
    requires psig.m == psig.n && ysig.m == ysig.n && Invertible(psig) && Invertible(ysig)
    requires a.n == psig.m && ysig.m == ymu.m && SameShape(b, ymu) && pmu.m == psig.m && pmu.n == ymu.n
    ensures Wf(r) && r.m == psig.m && r.n == ymu.n
  {
    Add(ObservedInformation(a, b, ymu, ysig), Mul(InvSpec(psig).value, pmu))
  }

  /** The new covariance inv(inv(psig) + a^T inv(ysig) a), or the first
      error met when the operands are evaluated left to right. */
  ghost function CovarianceSpec(psig: Mat, a: Mat, ysig: Mat): Result<Mat>
    requires Wf(psig) && Wf(a) && Wf(ysig)
  {
    var ps :- InvSpec(psig);
    var ys :- InvSpec(ysig);
    var t1 :- MulR(Transpose(a), ys);
    var t2 :- MulR(t1, a);
    var s0 :- AddR(ps, t2);
    InvSpec(s0)
  }

  /** The new mean sigma (a^T inv(ysig) (ymu - b) + inv(psig) pmu), from the
      new covariance sigma, with both inverses computed afresh, or the first
      error met on the way. */
  ghost function MeanSpec(pmu: Mat, psig: Mat, a: Mat, b: Mat, ymu: Mat, ysig: Mat, sigma: Mat): Result<Mat>
    requires Wf(pmu) && Wf(psig) && Wf(a) && Wf(b) && Wf(ymu) && Wf(ysig) && Wf(sigma)
  {
    SubEntries(ymu, b);
    var ys :- InvSpec(ysig);
    var t1 :- MulR(Transpose(a), ys);
    var d :- SubR(ymu, b);
    var v1 :- MulR(t1, d);
    var ps :- InvSpec(psig);
    var v2 :- MulR(ps, pmu);
    var w :- AddR(v1, v2);
    MulR(sigma, w)
  }

  /** What train computes from the posterior (pmu, psig), the observation
      model (a, b) and the observation (ymu, ysig): the new mean and the new
      covariance, the mean computed with the old covariance. */
  ghost function TrainSpec(pmu: Mat, psig: Mat, a: Mat, b: Mat, ymu: Mat, ysig: Mat): Result<(Mat, Mat)>
    requires Wf(pmu) && Wf(psig) && Wf(a) && Wf(b) && Wf(ymu) && Wf(ysig)
  {
    var sigma :- CovarianceSpec(psig, a, ysig);
    var mu :- MeanSpec(pmu, psig, a, b, ymu, ysig, sigma);
    Ok((mu, sigma))
  }

  /** The new covariance exists exactly when a is K x N and the prior covariance, the
      noise covariance and the new precision are invertible; the new
      covariance is then the inverse of the precision. */
  lemma CovarianceSpecMeaning(psig: Mat, a: Mat, ysig: Mat)
    requires Wf(psig) && Wf(a) && Wf(ysig) && psig.m == psig.n && ysig.m == ysig.n
    ensures CovarianceSpec(psig, a, ysig).Ok? <==>
              a.m == ysig.m && a.n == psig.m &&
              Invertible(psig) && Invertible(ysig) && Invertible(Precision(psig, a, ysig))
    ensures CovarianceSpec(psig, a, ysig).Ok? ==>
              IsInverse(Precision(psig, a, ysig), CovarianceSpec(psig, a, ysig).value)
  {
    TransposeEntries(a);
    if Invertible(psig) && Invertible(ysig) && a.m == ysig.m {
      var ps, ys, at := InvSpec(psig).value, InvSpec(ysig).value, Transpose(a);
      MulEntries(at, ys);
      MulEntries(Mul(at, ys), a);
      if a.n == psig.m {
        assert AddR(ps, Mul(Mul(at, ys), a)) == Ok(Precision(psig, a, ysig));
      }
    }
  }

  /** Given the new covariance, the new mean exists exactly when b has the
      observation's shape; the new mean is then N x 1 and the
      precision times it is the information vector. */
  lemma MeanSpecMeaning(pmu: Mat, psig: Mat, a: Mat, b: Mat, ymu: Mat, ysig: Mat, sigma: Mat)
    requires Wf(pmu) && Wf(psig) && Wf(a) && Wf(b) && Wf(ymu) && Wf(ysig) && Wf(sigma)
    requires pmu.n == 1 && psig.m == pmu.m && psig.n == pmu.m
    requires ymu.n == 1 && ysig.m == ymu.m && ysig.n == ymu.m
    requires a.m == ymu.m && a.n == pmu.m && Invertible(psig) && Invertible(ysig)
    requires IsInverse(Precision(psig, a, ysig), sigma)
    ensures MeanSpec(pmu, psig, a, b, ymu, ysig, sigma).Ok? <==> SameShape(b, ymu)
    ensures MeanSpec(pmu, psig, a, b, ymu, ysig, sigma).Ok? ==>
              var mu := MeanSpec(pmu, psig, a, b, ymu, ysig, sigma).value;
              Wf(mu) && mu.m == pmu.m && mu.n == 1 &&
              Mul(Precision(psig, a, ysig), mu) == Information(pmu, psig, a, b, ymu, ysig)
  {
    SubEntries(ymu, b);
    TransposeEntries(a);
    var ps, ys, at := InvSpec(psig).value, InvSpec(ysig).value, Transpose(a);
    MulEntries(at, ys);
    if SameShape(b, ymu) {
      var p := Precision(psig, a, ysig);
      var d := SubR(ymu, b).value;
      MulEntries(Mul(at, ys), d);
      MulEntries(ps, pmu);
      var w := Information(pmu, psig, a, b, ymu, ysig);
      assert AddR(Mul(Mul(at, ys), d), Mul(ps, pmu)) == Ok(w);
      assert MeanSpec(pmu, psig, a, b, ymu, ysig, sigma) == Ok(Mul(sigma, w));
      MulAssoc(p, sigma, w);
      MulEyeLeft(w);
    }
  }

  /** For a posterior and an observation of the constructor's shape
      (N x 1 with N x N, K x 1 with K x K), train succeeds exactly when a is
      K x N, b has the observation's shape, and the prior covariance, the
      noise covariance and the new precision are all invertible. It then
      yields an N x 1 mean and an N x N covariance: the covariance is the
      inverse of the precision, and the precision times the mean is the
      information vector. */
  lemma TrainSpecMeaning(pmu: Mat, psig: Mat, a: Mat, b: Mat, ymu: Mat, ysig: Mat)
    requires Wf(pmu) && Wf(psig) && Wf(a) && Wf(b) && Wf(ymu) && Wf(ysig)
    requires pmu.n == 1 && psig.m == pmu.m && psig.n == pmu.m
    requires ymu.n == 1 && ysig.m == ymu.m && ysig.n == ymu.m
    ensures TrainSpec(pmu, psig, a, b, ymu, ysig).Ok? <==>
              a.m == ymu.m && a.n == pmu.m && SameShape(b, ymu) &&
              Invertible(psig) && Invertible(ysig) && Invertible(Precision(psig, a, ysig))
    ensures TrainSpec(pmu, psig, a, b, ymu, ysig).Ok? ==>
              var (mu, sigma) := TrainSpec(pmu, psig, a, b, ymu, ysig).value;
              Wf(mu) && Wf(sigma) && mu.m == pmu.m && mu.n == 1 && sigma.m == pmu.m && sigma.n == pmu.m &&
              IsInverse(Precision(psig, a, ysig), sigma) &&
              Mul(Precision(psig, a, ysig), mu) == Information(pmu, psig, a, b, ymu, ysig)
  {
    CovarianceSpecMeaning(psig, a, ysig);
    if CovarianceSpec(psig, a, ysig).Ok? {
      MeanSpecMeaning(pmu, psig, a, b, ymu, ysig, CovarianceSpec(psig, a, ysig).value);
    }
  }

  /** train with the observation (ymu1, ysig1), then with (ymu2, ysig2). */
  ghost function TrainTwice(pmu: Mat, psig: Mat, a: Mat, b: Mat, ymu1: Mat, ysig1: Mat, ymu2: Mat, ysig2: Mat)
    : Result<(Mat, Mat)>
    requires Wf(pmu) && Wf(psig) && Wf(a) && Wf(b) && Wf(ymu1) && Wf(ysig1) && Wf(ymu2) && Wf(ysig2)
    requires pmu.n == 1 && psig.m == pmu.m && psig.n == pmu.m
    requires ymu1.n == 1 && ysig1.m == ymu1.m && ysig1.n == ymu1.m
  {
    TrainSpecMeaning(pmu, psig, a, b, ymu1, ysig1);
    var s :- TrainSpec(pmu, psig, a, b, ymu1, ysig1);
    TrainSpec(s.0, s.1, a, b, ymu2, ysig2)
  }

  /** After two observations the precision is the prior's plus what each
      observation adds, and the precision times the mean is the prior's
      information plus what each observation adds. */
  lemma TrainTwiceMeaning(pmu: Mat, psig: Mat, a: Mat, b: Mat, ymu1: Mat, ysig1: Mat, ymu2: Mat, ysig2: Mat)
    requires Wf(pmu) && Wf(psig) && Wf(a) && Wf(b) && Wf(ymu1) && Wf(ysig1) && Wf(ymu2) && Wf(ysig2)
    requires pmu.n == 1 && psig.m == pmu.m && psig.n == pmu.m
    requires ymu1.n == 1 && ysig1.m == ymu1.m && ysig1.n == ymu1.m
    requires ymu2.n == 1 && ysig2.m == ymu2.m && ysig2.n == ymu2.m
    ensures TrainTwice(pmu, psig, a, b, ymu1, ysig1, ymu2, ysig2).Ok? ==>
              a.m == ymu1.m && a.n == pmu.m && SameShape(b, ymu1) && SameShape(b, ymu2) &&
              Invertible(psig) && Invertible(ysig1) && Invertible(ysig2) &&
              var (mu, sigma) := TrainTwice(pmu, psig, a, b, ymu1, ysig1, ymu2, ysig2).value;
              var q := Add(Add(InvSpec(psig).value, ObservedPrecision(a, ysig1)), ObservedPrecision(a, ysig2));
              Wf(q) && Wf(mu) && Wf(sigma) && mu.m == pmu.m && mu.n == 1 && IsInverse(q, sigma) &&
              Mul(q, mu) == Add(ObservedInformation(a, b, ymu2, ysig2),
                                Add(ObservedInformation(a, b, ymu1, ysig1), Mul(InvSpec(psig).value, pmu)))
  {
    TrainSpecMeaning(pmu, psig, a, b, ymu1, ysig1);
    if TrainSpec(pmu, psig, a, b, ymu1, ysig1).Ok? {
      var (mu1, sigma1) := TrainSpec(pmu, psig, a, b, ymu1, ysig1).value;
      var p1 := Precision(psig, a, ysig1);
      TrainSpecMeaning(mu1, sigma1, a, b, ymu2, ysig2);
      if TrainSpec(mu1, sigma1, a, b, ymu2, ysig2).Ok? {
        assert IsInverse(sigma1, p1);
        InvSpecIsTheInverse(sigma1, p1);
        assert Precision(sigma1, a, ysig2) == Add(p1, ObservedPrecision(a, ysig2));
        assert Information(mu1, sigma1, a, b, ymu2, ysig2) == Add(ObservedInformation(a, b, ymu2, ysig2), Mul(p1, mu1));
      }
    }
  }

  /** The posterior after two observations does not depend on their order,
      whenever both orders succeed. */
  lemma TrainOrderIndependent(pmu: Mat, psig: Mat, a: Mat, b: Mat, ymu1: Mat, ysig1: Mat, ymu2: Mat, ysig2: Mat)
    requires Wf(pmu) && Wf(psig) && Wf(a) && Wf(b) && Wf(ymu1) && Wf(ysig1) && Wf(ymu2) && Wf(ysig2)
    requires pmu.n == 1 && psig.m == pmu.m && psig.n == pmu.m
    requires ymu1.n == 1 && ysig1.m == ymu1.m && ysig1.n == ymu1.m
    requires ymu2.n == 1 && ysig2.m == ymu2.m && ysig2.n == ymu2.m
    requires TrainTwice(pmu, psig, a, b, ymu1, ysig1, ymu2, ysig2).Ok?
    requires TrainTwice(pmu, psig, a, b, ymu2, ysig2, ymu1, ysig1).Ok?
    ensures TrainTwice(pmu, psig, a, b, ymu1, ysig1, ymu2, ysig2) == TrainTwice(pmu, psig, a, b, ymu2, ysig2, ymu1, ysig1)
  {
    TrainTwiceMeaning(pmu, psig, a, b, ymu1, ysig1, ymu2, ysig2);
    TrainTwiceMeaning(pmu, psig, a, b, ymu2, ysig2, ymu1, ysig1);
    var (mu12, sigma12) := TrainTwice(pmu, psig, a, b, ymu1, ysig1, ymu2, ysig2).value;
    var (mu21, sigma21) := TrainTwice(pmu, psig, a, b, ymu2, ysig2, ymu1, ysig1).value;
    var p0, t1, t2 := InvSpec(psig).value, ObservedPrecision(a, ysig1), ObservedPrecision(a, ysig2);
    var i0, i1, i2 := Mul(InvSpec(psig).value, pmu), ObservedInformation(a, b, ymu1, ysig1), ObservedInformation(a, b, ymu2, ysig2);
    AddSwapLast(p0, t1, t2);
    var q := Add(Add(p0, t1), t2);
    MulEntries(p0, pmu);
    AddSwapFirst(i2, i1, i0);
    assert Mul(q, mu12) == Mul(q, mu21);
    InverseUnique(q, sigma12, sigma21);
    InverseCancels(q, sigma12, mu12, mu21);
  }

  /** With a prior variance of 1, a = 1 and a noise covariance of -2 the
      new precision is 1 - 1/2. */
  lemma NegativeNoisePrecision()
    ensures Invertible(Mat(1, 1, [1.0])) && Invertible(Mat(1, 1, [-2.0]))
    ensures Precision(Mat(1, 1, [1.0]), Mat(1, 1, [1.0]), Mat(1, 1, [-2.0])) == Mat(1, 1, [0.5])
  {
    var one, ysig, minusHalf := Mat(1, 1, [1.0]), Mat(1, 1, [-2.0]), Mat(1, 1, [-0.5]);
    InvOneByOne(1.0);
    assert InvSpec(one) == Ok(one);
    InvOneByOne(-2.0);
    assert InvSpec(ysig) == Ok(minusHalf);
    TransposeOneByOne(1.0);
    MulOneByOne(1.0, -0.5);
    MulOneByOne(-0.5, 1.0);
    assert ObservedPrecision(one, ysig) == minusHalf;
    assert Add(one, minusHalf).v == [0.5];
  }

  /** The covariance can grow. Nothing checks that a covariance is positive
      definite: with a prior variance of 1, a = 1, b = 0 and a noise
      covariance of -2, train yields a variance of 2. */
  lemma TrainCanIncreaseVariance()
    ensures var r := TrainSpec(Mat(1, 1, [0.0]), Mat(1, 1, [1.0]), Mat(1, 1, [1.0]), Mat(1, 1, [0.0]),
                               Mat(1, 1, [0.0]), Mat(1, 1, [-2.0]));
            r.Ok? && r.value.1 == Mat(1, 1, [2.0])
  {
    var zero, one, ysig, half := Mat(1, 1, [0.0]), Mat(1, 1, [1.0]), Mat(1, 1, [-2.0]), Mat(1, 1, [0.5]);
    NegativeNoisePrecision();
    InvOneByOne(0.5);
    assert InvSpec(half) == Ok(Mat(1, 1, [2.0]));
    TrainSpecMeaning(zero, one, one, zero, zero, ysig);
    InvSpecIsTheInverse(half, TrainSpec(zero, one, one, zero, zero, ysig).value.1);
  }

  // ---------------------------------------------------------------------
  // The system

  class LinearGaussianSystem {
    var posterior: MultivariateNormal
    var a: Matrix
    var b: Matrix

    /** Every matrix is well formed and the posterior has its shape. */
    ghost predicate Valid()
      reads this, posterior.mu, posterior.sigma, a, b
    {
      Normals.Valid(posterior) && a.Valid() && b.Valid()
    }

    /** The three members are stored as given, without any check. */
    constructor (Posterior: MultivariateNormal, A: Matrix, B: Matrix)
      ensures posterior == Posterior && a == A && b == B
      ensures Normals.Valid(Posterior) && A.Valid() && B.Valid() ==> Valid()
    {
      posterior, a, b := Posterior, A, B;
    }

    /** train(y): computes the new covariance, then the new mean from the
        old covariance, and only then replaces the mean and the covariance.
        An exception on the way leaves the posterior as it was; a and b are
        never touched. */
    method Train(y: MultivariateNormal) returns (o: Outcome)
      requires Valid() && Normals.Valid(y)
      modifies this
      ensures Valid() && a == old(a) && b == old(b)
      ensures var s := TrainSpec(old(posterior).mu.Value(), old(posterior).sigma.Value(), a.Value(), b.Value(),
                                 y.mu.Value(), y.sigma.Value());
              (o.Pass? <==> s.Ok?) &&
              (s.Ok? ==> fresh(posterior.mu) && fresh(posterior.sigma) &&
                         posterior.mu.Value() == s.value.0 && posterior.sigma.Value() == s.value.1) &&
              (s.Err? ==> o == Fail(s.error) && posterior == old(posterior))
    {
      ghost var pmu, psig, av, bv, ymu, ysig :=
        posterior.mu.Value(), posterior.sigma.Value(), a.Value(), b.Value(), y.mu.Value(), y.sigma.Value();
      var sigma := NewCovariance(posterior.sigma, a, y.sigma);
      if sigma.Err? {
        return Fail(sigma.error);
      }
      var mu := NewMean(posterior.mu, posterior.sigma, a, b, y.mu, y.sigma, sigma.value);
      if mu.Err? {
        return Fail(mu.error);
      }
      TrainSpecMeaning(pmu, psig, av, bv, ymu, ysig);
      posterior := posterior.(mu := mu.value);
      posterior := posterior.(sigma := sigma.value);
      return Pass;
    }
  }

  /** The new covariance, computed on the matrices themselves. */
  method NewCovariance(psigma: Matrix, a: Matrix, ysigma: Matrix) returns (r: Result<Matrix>)
    requires psigma.Valid() && a.Valid() && ysigma.Valid()
    ensures Models(r, CovarianceSpec(psigma.Value(), a.Value(), ysigma.Value()))
    ensures r.Ok? ==> fresh(r.value)
  {
    var ps := psigma.Inv();
    if ps.Err? {
      return Err(ps.error);
    }
    var at := a.T();
    var ys := ysigma.Inv();
    if ys.Err? {
      return Err(ys.error);
    }
    var t1 := Times(at, ys.value);
    if t1.Err? {
      return Err(t1.error);
    }
    // t1 has as many columns as y.sigma, which is square with a's row count,
    // so this product cannot throw.
    var t2 := Times(t1.value, a);
    var s0 := Plus(ps.value, t2.value);
    if s0.Err? {
      return Err(s0.error);
    }
    r := s0.value.Inv();
  }

  /** The new mean, computed on the matrices themselves from the new
      covariance sigma. */
  method NewMean(pmu: Matrix, psigma: Matrix, a: Matrix, b: Matrix, ymu: Matrix, ysigma: Matrix, sigma: Matrix)
    returns (r: Result<Matrix>)
    requires pmu.Valid() && psigma.Valid() && a.Valid() && b.Valid() && ymu.Valid() && ysigma.Valid() && sigma.Valid()
    ensures Models(r, MeanSpec(pmu.Value(), psigma.Value(), a.Value(), b.Value(), ymu.Value(), ysigma.Value(), sigma.Value()))
    ensures r.Ok? ==> fresh(r.value)
  {
    var at := a.T();
    var ys := ysigma.Inv();
    if ys.Err? {
      return Err(ys.error);
    }
    var t1 := Times(at, ys.value);
    if t1.Err? {
      return Err(t1.error);
    }
    var d := Minus(ymu, b);
    if d.Err? {
      return Err(d.error);
    }
    var v1 := Times(t1.value, d.value);
    if v1.Err? {
      return Err(v1.error);
    }
    var ps := psigma.Inv();
    if ps.Err? {
      return Err(ps.error);
    }
    var v2 := Times(ps.value, pmu);
    if v2.Err? {
      return Err(v2.error);
    }
    var w := Plus(v1.value, v2.value);
    if w.Err? {
      return Err(w.error);
    }
    r := Times(sigma, w.value);
  }
}
