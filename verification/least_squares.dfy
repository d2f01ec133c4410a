/** The least-squares fitter: predictions X.dot(coeffs), their mean
    squared error against the observations, and the normal equations
    that the fitted coefficients satisfy. */
module LeastSquares {
  import opened LinearAlgebra
  import opened PolynomialFeatures

  /** The prediction X.dot(coeffs) for the design matrix of x is the
      polynomial with coefficients coeffs evaluated at every x[i]. */
  lemma PredictionIsPolynomial(x: seq<real>, degree: nat, coeffs: seq<real>)
    requires |coeffs| == degree + 1
    ensures |MatVec(DesignMatrix(x, degree), coeffs)| == |x|
    ensures forall i :: 0 <= i < |x| ==>
      MatVec(DesignMatrix(x, degree), coeffs)[i] == PolyEval(coeffs, x[i])
  {
    var X := DesignMatrix(x, degree);
    forall i | 0 <= i < |x| ensures MatVec(X, coeffs)[i] == PolyEval(coeffs, x[i]) {
      PowersDotIsPolyEval(x[i], coeffs);
    }
  }

  /** Mean squared error np.mean((yTrue - yPred) ** 2) of two
      index-aligned vectors of one non-zero length. */
  function Mse(yTrue: seq<real>, yPred: seq<real>): (r: real)
    requires |yTrue| == |yPred| > 0
    ensures r >= 0.0
    ensures r == 0.0 <==> forall i :: 0 <= i < |yTrue| ==> yTrue[i] == yPred[i]
  {
    var sq := Squares(Sub(yTrue, yPred));
    SquaredResidualsZero(yTrue, yPred);
    SumNonNegative(sq);
    MeanSign(sq);
    Mean(sq)
  }

  /** The squared residuals are non-negative, and all of them are zero
      exactly when the two vectors agree everywhere. */
  lemma SquaredResidualsZero(yTrue: seq<real>, yPred: seq<real>)
    requires |yTrue| == |yPred|
    ensures forall i :: 0 <= i < |yTrue| ==> Squares(Sub(yTrue, yPred))[i] >= 0.0
    ensures (forall i :: 0 <= i < |yTrue| ==> Squares(Sub(yTrue, yPred))[i] == 0.0)
        <==> (forall i :: 0 <= i < |yTrue| ==> yTrue[i] == yPred[i])
  {
    var d := Sub(yTrue, yPred);
    SquaresSign(d);
    assert forall i :: 0 <= i < |yTrue| ==> (d[i] == 0.0 <==> yTrue[i] == yPred[i]);
  }

  /** The mean of a vector has the sign of its sum. */
  lemma MeanSign(s: seq<real>)
    requires |s| > 0
    ensures Mean(s) >= 0.0 <==> Sum(s) >= 0.0
    ensures Mean(s) == 0.0 <==> Sum(s) == 0.0
  {
    var n := |s| as real;
    assert Mean(s) * n == Sum(s);
  }

  /** The mean squared error is the squared residual norm divided by N. */
  lemma MseIsResidualNorm(yTrue: seq<real>, yPred: seq<real>)
    requires |yTrue| == |yPred| > 0
    ensures Mse(yTrue, yPred) == Dot(Sub(yTrue, yPred), Sub(yTrue, yPred)) / |yTrue| as real
  {
    SumSquaresIsDot(Sub(yTrue, yPred));
  }

  /** The normal equations X.T X beta == X.T y, the condition that the
      coefficients computed as inv(X.T X) X.T y satisfy whenever X.T X is
      invertible. X.T X beta is formed as X.T (X beta). They hold exactly
      when the residual y - X beta is orthogonal to every column of X. */
  predicate NormalEquations(X: seq<seq<real>>, y: seq<real>, beta: seq<real>): (b: bool)
    ensures b <==> && IsMatrix(X, |beta|) && |y| == |X|
                   && forall j :: 0 <= j < |beta| ==>
                        Dot(Column(X, |beta|, j), Sub(y, MatVec(X, beta))) == 0.0
  {
    if IsMatrix(X, |beta|) && |y| == |X| then
      ResidualColumns(X, y, beta);
      MatVec(Transpose(X, |beta|), MatVec(X, beta)) == MatVec(Transpose(X, |beta|), y)
    else
      false
  }

  /** For conforming shapes the normal equations are the product equality. */
  lemma NormalEquationsProducts(X: seq<seq<real>>, y: seq<real>, beta: seq<real>)
    requires IsMatrix(X, |beta|) && |y| == |X|
    ensures NormalEquations(X, y, beta)
        <==> MatVec(Transpose(X, |beta|), MatVec(X, beta)) == MatVec(Transpose(X, |beta|), y)
  {
  }

  /** X.T (X beta) == X.T y exactly when every column of X has inner
      product 0 with the residual y - X beta. */
  lemma ResidualColumns(X: seq<seq<real>>, y: seq<real>, beta: seq<real>)
    requires IsMatrix(X, |beta|) && |y| == |X|
    ensures MatVec(Transpose(X, |beta|), MatVec(X, beta)) == MatVec(Transpose(X, |beta|), y)
        <==> forall j :: 0 <= j < |beta| ==> Dot(Column(X, |beta|, j), Sub(y, MatVec(X, beta))) == 0.0
  {
    var n := |beta|;
    var T, p := Transpose(X, n), MatVec(X, beta);
    var r := Sub(y, p);
    var a, b := MatVec(T, p), MatVec(T, y);
    MatVecSub(T, y, p);
    assert forall j :: 0 <= j < n ==> T[j] == Column(X, n, j);
    assert forall j :: 0 <= j < n ==> Dot(Column(X, n, j), r) == b[j] - a[j];
    if forall j :: 0 <= j < n ==> Dot(Column(X, n, j), r) == 0.0 {
      assert forall j :: 0 <= j < n ==> a[j] == b[j];
      assert a == b;
    }
  }

  /** Coefficients that satisfy the normal equations leave the smallest
      squared residual of all coefficient vectors of that length. */
  lemma LeastSquaresOptimal(X: seq<seq<real>>, y: seq<real>, beta: seq<real>, gamma: seq<real>)
    requires NormalEquations(X, y, beta) && |gamma| == |beta|
    ensures Dot(Sub(y, MatVec(X, beta)), Sub(y, MatVec(X, beta)))
         <= Dot(Sub(y, MatVec(X, gamma)), Sub(y, MatVec(X, gamma)))
  {
    var p, q := MatVec(X, beta), MatVec(X, gamma);
    var r, e := Sub(y, p), MatVec(X, Sub(gamma, beta));
    MatVecSub(X, gamma, beta);
    assert Sub(y, q) == Sub(r, e);
    ResidualOrthogonal(X, y, beta, Sub(gamma, beta));
    ResidualPythagoras(r, e);
    DotSelfNonNegative(e);
  }

  /** Under the normal equations the residual y - X beta is orthogonal to
      every vector X delta in the column space of X. */
  lemma ResidualOrthogonal(X: seq<seq<real>>, y: seq<real>, beta: seq<real>, delta: seq<real>)
    requires NormalEquations(X, y, beta) && |delta| == |beta|
    ensures Dot(MatVec(X, delta), Sub(y, MatVec(X, beta))) == 0.0
  {
    var n := |beta|;
    var T := Transpose(X, n);
    var r := Sub(y, MatVec(X, beta));
    MatVecSub(T, y, MatVec(X, beta));
    DotZero(delta, MatVec(T, r));
    TransposeAdjoint(X, n, delta, r);
  }

  /** |r - e|^2 == |r|^2 + |e|^2 when e is orthogonal to r. */
  lemma ResidualPythagoras(r: seq<real>, e: seq<real>)
    requires |r| == |e| && Dot(e, r) == 0.0
    ensures Dot(Sub(r, e), Sub(r, e)) == Dot(r, r) + Dot(e, e)
  {
    DotSubLeft(r, e, Sub(r, e));
    DotSub(r, r, e);
    DotSub(e, r, e);
    DotSymmetric(r, e);
  }

  /** The same optimality stated for the mean squared error. */
  lemma MseOptimal(X: seq<seq<real>>, y: seq<real>, beta: seq<real>, gamma: seq<real>)
    requires NormalEquations(X, y, beta) && |gamma| == |beta| && |y| > 0
    ensures Mse(y, MatVec(X, beta)) <= Mse(y, MatVec(X, gamma))
  {
    LeastSquaresOptimal(X, y, beta, gamma);
    MseIsResidualNorm(y, MatVec(X, beta));
    MseIsResidualNorm(y, MatVec(X, gamma));
    DivideMonotone(Dot(Sub(y, MatVec(X, beta)), Sub(y, MatVec(X, beta))),
                   Dot(Sub(y, MatVec(X, gamma)), Sub(y, MatVec(X, gamma))), |y| as real);
  }

  lemma DivideMonotone(a: real, b: real, n: real)
    requires a <= b && n > 0.0
    ensures a / n <= b / n
  {
  }

  /** Padding degree-D coefficients with a zero for x ** (D + 1) gives the
      same predictions on the degree-(D + 1) design matrix. */
  lemma PaddedCoefficients(x: seq<real>, degree: nat, beta: seq<real>)
    requires |beta| == degree + 1
    ensures MatVec(DesignMatrix(x, degree + 1), beta + [0.0]) == MatVec(DesignMatrix(x, degree), beta)
  {
    var X, X' := DesignMatrix(x, degree + 1), DesignMatrix(x, degree);
    DesignMatrixExtends(x, degree);
    forall i | 0 <= i < |x| ensures MatVec(X, beta + [0.0])[i] == MatVec(X', beta)[i] {
      DotSnoc(X'[i], Pow(x[i], degree + 1), beta, 0.0);
    }
  }

  /** The training error never grows with the degree: the degree-(D + 1)
      least-squares fit is at least as close to y as any degree-D
      polynomial on the same sample. */
  lemma TrainingErrorNonIncreasing(x: seq<real>, y: seq<real>, degree: nat, beta: seq<real>, gamma: seq<real>)
    requires |x| == |y| > 0
    requires |beta| == degree + 1
    requires NormalEquations(DesignMatrix(x, degree + 1), y, gamma) && |gamma| == degree + 2
    ensures Mse(y, MatVec(DesignMatrix(x, degree + 1), gamma)) <= Mse(y, MatVec(DesignMatrix(x, degree), beta))
  {
    PaddedCoefficients(x, degree, beta);
    MseOptimal(DesignMatrix(x, degree + 1), y, gamma, beta + [0.0]);
  }

  /** A degree-0 fit is the constant Mean(y): the normal equations for the
      all-ones design matrix hold exactly for beta == [Mean(y)]. */
  lemma DegreeZeroFitIsMean(x: seq<real>, y: seq<real>, beta: seq<real>)
    requires |x| == |y| > 0 && |beta| == 1
    ensures NormalEquations(DesignMatrix(x, 0), y, beta) <==> beta[0] == Mean(y)
  {
    NormalEquationsProducts(DesignMatrix(x, 0), y, beta);
    DegreeZeroProducts(x, y, beta);
  }

  /** The product form of the degree-0 normal equations: X.T X beta is
      [Sum of the constant prediction] and X.T y is [Sum(y)]. */
  lemma DegreeZeroProducts(x: seq<real>, y: seq<real>, beta: seq<real>)
    requires |x| == |y| > 0 && |beta| == 1
    ensures MatVec(Transpose(DesignMatrix(x, 0), 1), MatVec(DesignMatrix(x, 0), beta))
         == MatVec(Transpose(DesignMatrix(x, 0), 1), y)
        <==> beta[0] == Mean(y)
  {
    var X := DesignMatrix(x, 0);
    var T := Transpose(X, 1);
    var p := MatVec(X, beta);
    ConstantPrediction(x, beta);
    OnesTranspose(x);
    OnesRowProduct(T, p);
    OnesRowProduct(T, y);
    MeanConstant(p, beta[0]);
    assert |p| == |y|;
    DivideInjective(Sum(p), Sum(y), |y| as real);
    assert [Sum(p)] == [Sum(y)] <==> Sum(p) == Sum(y);
  }

  /** The degree-0 design matrix predicts the constant beta[0] everywhere. */
  lemma ConstantPrediction(x: seq<real>, beta: seq<real>)
    requires |beta| == 1
    ensures forall i :: 0 <= i < |x| ==> MatVec(DesignMatrix(x, 0), beta)[i] == beta[0]
  {
    var X := DesignMatrix(x, 0);
    forall i | 0 <= i < |x| ensures Dot(X[i], beta) == beta[0] {
      OneColumnRow(X[i], beta);
    }
  }

  /** The transpose of the degree-0 design matrix is one row of ones. */
  lemma OnesTranspose(x: seq<real>)
    ensures forall i :: 0 <= i < |x| ==> Transpose(DesignMatrix(x, 0), 1)[0][i] == 1.0
  {
  }

  /** The row [1.0] times a one-entry vector is that entry. */
  lemma OneColumnRow(row: seq<real>, beta: seq<real>)
    requires row == [1.0] && |beta| == 1
    ensures Dot(row, beta) == beta[0]
  {
    assert row[..0] == [] && beta[..0] == [];
    assert Dot(row, beta) == Dot([], []) + 1.0 * beta[0];
  }

  /** A 1 x N matrix of ones maps v to [Sum(v)]. */
  lemma OnesRowProduct(T: seq<seq<real>>, v: seq<real>)
    requires |T| == 1 && IsMatrix(T, |v|)
    requires forall i :: 0 <= i < |v| ==> T[0][i] == 1.0
    ensures MatVec(T, v) == [Sum(v)]
  {
    DotOnes(T[0], v);
  }

  /** Dividing by the same positive number keeps equality and inequality. */
  lemma DivideInjective(a: real, b: real, n: real)
    requires n > 0.0
    ensures a / n == b / n <==> a == b
  {
    if a / n == b / n {
      assert a == (a / n) * n && b == (b / n) * n;
    }
  }

  /** Coefficients that reproduce y exactly satisfy the normal equations
      and have zero mean squared error. */
  lemma ExactFitIsLeastSquares(X: seq<seq<real>>, y: seq<real>, beta: seq<real>)
    requires IsMatrix(X, |beta|) && MatVec(X, beta) == y && |y| > 0
    ensures NormalEquations(X, y, beta)
    ensures Mse(y, MatVec(X, beta)) == 0.0
  {
  }

  /** A perfectly linear sample: x = [0, 1, 2, 3], y = [1, 3, 5, 7]. The
      degree-1 coefficients [1, 2] and the degree-3 coefficients
      [1, 2, 0, 0] both reproduce y, so both satisfy the normal equations
      and both have zero mean squared error. */
  lemma LinearSampleFitsExactly()
    ensures NormalEquations(DesignMatrix([0.0, 1.0, 2.0, 3.0], 1), [1.0, 3.0, 5.0, 7.0], [1.0, 2.0])
    ensures Mse([1.0, 3.0, 5.0, 7.0], MatVec(DesignMatrix([0.0, 1.0, 2.0, 3.0], 1), [1.0, 2.0])) == 0.0
    ensures NormalEquations(DesignMatrix([0.0, 1.0, 2.0, 3.0], 3), [1.0, 3.0, 5.0, 7.0], [1.0, 2.0, 0.0, 0.0])
    ensures Mse([1.0, 3.0, 5.0, 7.0], MatVec(DesignMatrix([0.0, 1.0, 2.0, 3.0], 3), [1.0, 2.0, 0.0, 0.0])) == 0.0
  {
    var x, y := [0.0, 1.0, 2.0, 3.0], [1.0, 3.0, 5.0, 7.0];
    PredictionIsPolynomial(x, 1, [1.0, 2.0]);
    assert MatVec(DesignMatrix(x, 1), [1.0, 2.0]) == y;
    ExactFitIsLeastSquares(DesignMatrix(x, 1), y, [1.0, 2.0]);
    PredictionIsPolynomial(x, 3, [1.0, 2.0, 0.0, 0.0]);
    assert MatVec(DesignMatrix(x, 3), [1.0, 2.0, 0.0, 0.0]) == y;
    ExactFitIsLeastSquares(DesignMatrix(x, 3), y, [1.0, 2.0, 0.0, 0.0]);
  }
}
