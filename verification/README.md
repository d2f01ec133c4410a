# Polynomial regression core of the bias-variance demo

The demo `py/bias_variance.py` fits polynomials of degree 1, 4 and 15 to a
noisy sample of sin(x). It plots each fit together with its mean squared
error. This project models the arithmetic of that script over exact reals
(Dafny `real`, not floating point). It has three parts:

- **Feature expansion**: `generate_polynomial_features(x, degree)`.
  `PolynomialFeatures.GeneratePolynomialFeatures` allocates a zeroed
  `array2<real>` of `|x|` rows and `degree + 1` columns. It then fills
  column `d` with `x[i] ** d` for `d = 0 .. degree`, as the source does.
  The loop invariants say which columns are done and which still hold zeros.
  The result is tied to the pure specification `DesignMatrix`, built from
  `Pow` and `Powers`.
- **Prediction**: `y_pred = X_poly.dot(coeffs)` is `LinearAlgebra.MatVec`,
  a matrix-vector product over a matrix given as a sequence of rows.
  `LeastSquares.PredictionIsPolynomial` proves that for a design matrix
  this product is the polynomial with those coefficients, evaluated at each
  sample point. The polynomial is evaluated independently by Horner's rule
  (`PolyEval`).
- **Mean squared error**: `np.mean((y_true - y_pred)**2)` is
  `LeastSquares.Mse`, built as `Mean(Squares(Sub(yTrue, yPred)))`.

The coefficients are computed by explicit matrix inversion,
`inv(X.T X) X.T y`. That step is not modelled. The coefficients are taken
as an input. When a lemma needs them to be a least-squares fit, it requires
the normal equations `X.T X beta == X.T y` (`LeastSquares.NormalEquations`).
Exact inversion of an invertible `X.T X` produces coefficients that satisfy
these equations. From them the model proves these facts:

- the fit minimises the squared residual;
- a degree-0 fit is the mean of `y`;
- the training error of the degree-(D + 1) fit is never above that of any
  degree-D polynomial.

Modules: `LinearAlgebra` (linear_algebra.dfy) holds the numpy array
operations and their algebra. `PolynomialFeatures` (polynomial_features.dfy)
is the feature expander. `LeastSquares` (least_squares.dfy) holds the
prediction, the error and the normal equations.

The script checks nothing itself; every error comes from numpy.
`np.zeros` (py/bias_variance.py:11) raises `ValueError` for a degree below
-1. `np.linalg.inv` (line 26) raises `LinAlgError` when `X.T X` is exactly
singular, for example on an empty sample, or for degree >= 1 when every x
is equal. `.dot(y_true)` (line 26) and `y_true - y_pred` (line 40) raise
`ValueError` when `y` and `x` differ in length. The script reaches none of
these paths: it passes degrees 1, 4 and 15, `y` has the length of `x`, and
`y_pred` is computed from the same `x`. The model therefore takes a natural
degree, and `Mse` requires equal lengths. The error paths are listed under
"## Left out". Feature expansion itself accepts an empty sample, and so does
the model.

## Model

| member | source | states |
|---|---|---|
| `PolynomialFeatures.GeneratePolynomialFeatures` | py/bias_variance.py:10-14 | returns a fresh array of exactly `len(x)` rows and `degree + 1` columns. Entry (i, d) is `x[i] ** d`. Its rows equal `DesignMatrix(x, degree)`. The loop invariants state that after column d is written, columns 0..d hold their powers and later columns are still 0, and that each pass writes only column d |
| `PolynomialFeatures.DesignMatrix` | py/bias_variance.py:11-13 | the design matrix has `len(x)` rows, every row has `degree + 1` entries, and entry (i, d) is `Pow(x[i], d)` |
| `PolynomialFeatures.Pow` | py/bias_variance.py:13 | `x ** d` for a natural d: `1 ** d == 1`, and for x == 0 the power is 1 at d == 0 (numpy's `0.0 ** 0 == 1.0`) and 0 for every d > 0 |
| `PolynomialFeatures.PowAdd` | py/bias_variance.py:13 | exponents add: `x ** (a + b) == x ** a * x ** b` for every x and all natural a, b |
| `PolynomialFeatures.Powers` | py/bias_variance.py:12-13 | the row built column by column has k entries, and entry d is `x ** d` |
| `PolynomialFeatures.ColumnZeroIsOnes` | py/bias_variance.py:12-13 | column 0 is 1 for every sample point, including x[i] = 0, because x ** 0 == 1 |
| `PolynomialFeatures.DesignMatrixExtends` | py/bias_variance.py:11-13 | each row of the degree-(D + 1) matrix is the row of the degree-D matrix with one column, `x[i] ** (D + 1)`, appended, so the first D + 1 columns are unchanged |
| `PolynomialFeatures.PowersDotIsPolyEval` | py/bias_variance.py:29 | one design-matrix row times the coefficients is the polynomial sum of `coeffs[d] * x ** d`, which equals its Horner-rule evaluation |
| `PolynomialFeatures.PolyEvalSnoc` | py/bias_variance.py:29 | appending a coefficient a to c adds the term `a * x ** len(c)` to the polynomial's value |
| `LinearAlgebra.MatVec` | py/bias_variance.py:29 | the prediction has one entry per row of X, and entry i is the inner product of row i with the coefficients |
| `LeastSquares.PredictionIsPolynomial` | py/bias_variance.py:29 | for the design matrix of x, the prediction has length N, and entry i is the polynomial with coefficients `coeffs` evaluated at x[i] |
| `LeastSquares.Mse` | py/bias_variance.py:40 | the mean squared error of two equal-length vectors with N >= 1 entries is non-negative. It is 0 exactly when `y_pred[i] == y_true[i]` for every i |
| `LeastSquares.SquaredResidualsZero` | py/bias_variance.py:40 | every squared residual is non-negative, and all of them are zero exactly when the two vectors agree entry by entry |
| `LeastSquares.MseIsResidualNorm` | py/bias_variance.py:40 | the mean squared error is the squared norm of `y_true - y_pred` divided by N |
| `LinearAlgebra.Transpose` | py/bias_variance.py:26 | `X.T` of an N x n matrix is an n x N matrix with entry (j, i) equal to X's entry (i, j) |
| `LinearAlgebra.TransposeAdjoint` | py/bias_variance.py:26 | the transpose is the adjoint of X: `(X v) . w == v . (X.T w)` |
| `LeastSquares.NormalEquations` | py/bias_variance.py:26 | the condition `X.T (X beta) == X.T y` that `inv(X.T X) X.T y` satisfies whenever `X.T X` is invertible. It holds exactly when X has `len(beta)` columns, y has one entry per row of X, and every column of X has inner product 0 with the residual `y - X beta` |
| `LeastSquares.ResidualColumns` | py/bias_variance.py:26 | for conforming shapes, `X.T (X beta) == X.T y` holds if and only if every column of X is orthogonal to the residual `y - X beta` |
| `LeastSquares.LeastSquaresOptimal` | py/bias_variance.py:26 | coefficients that satisfy the normal equations give a squared residual no larger than that of any other coefficient vector of the same length |
| `LeastSquares.ResidualOrthogonal` | py/bias_variance.py:26 | under the normal equations the residual `y - X beta` is orthogonal to `X delta` for every coefficient vector delta |
| `LeastSquares.MseOptimal` | py/bias_variance.py:26 | the same minimality, stated for the mean squared error of the predictions |
| `LeastSquares.DegreeZeroFitIsMean` | py/bias_variance.py:26 | for degree 0 the normal equations hold exactly when the single coefficient is the mean of y |
| `LeastSquares.PaddedCoefficients` | py/bias_variance.py:23-29 | degree-D coefficients with a 0 appended give the same predictions on the degree-(D + 1) design matrix |
| `LeastSquares.TrainingErrorNonIncreasing` | py/bias_variance.py:21-29 | the mean squared error of a degree-(D + 1) least-squares fit is at most that of any degree-D polynomial on the same sample |
| `LeastSquares.ExactFitIsLeastSquares` | py/bias_variance.py:26-40 | coefficients that reproduce y exactly satisfy the normal equations and have mean squared error 0 |
| `LeastSquares.LinearSampleFitsExactly` | py/bias_variance.py:26-40 | on x = [0, 1, 2, 3] and y = [1, 3, 5, 7], the coefficients [1, 2] at degree 1 and [1, 2, 0, 0] at degree 3 satisfy the normal equations and have mean squared error 0 |
| `LinearAlgebra.SumNonNegative` | py/bias_variance.py:40 | a sum of non-negative entries is non-negative, and it is 0 exactly when every entry is 0 |

## Left out

- Sample generation (py/bias_variance.py:5-7) is left out. It uses a seeded global random generator, `np.linspace`, `np.sin` and normal noise. The model takes `x` and `y` as arbitrary inputs.
- The matrix inversion `np.linalg.inv(X_poly.T.dot(X_poly))` (py/bias_variance.py:26) is not modelled. The coefficients are an input. Where a lemma needs them to be the fit, it requires `NormalEquations`. For an exactly singular `X.T X`, numpy raises `LinAlgError` (`Singular matrix`); that error path is not modelled. For a nearly singular one, numpy returns coefficients that rounding makes unreliable, which is a floating-point effect. An example is degree 15 on 50 points over [-5, 5].
- Exact interpolation is not proved: a degree N - 1 fit to N distinct points reaching error 0 would need the invertibility of the Vandermonde matrix. Only the case where coefficients that reproduce y are given is covered (`ExactFitIsLeastSquares`).
- Plotting and presentation (py/bias_variance.py:18-19, 32-38, 41, 43-44) are left out: the figure, the subplots, the labels, the title format and `plt.show()`.
- The driver loop over `degrees = [1, 4, 15]` (py/bias_variance.py:17, 21) only runs independent fits one after another, for display. `TrainingErrorNonIncreasing` states how consecutive degrees relate.
- Floating point is left out. The model works over exact reals, so it has no rounding in `x ** d` or in the sums, and no `inf` or `nan` for large |x| or high degree.
- The vectorised column assignment `X_poly[:, d] = x**d` is modelled as an inner loop over the rows of column d.
- GeneratePolynomialFeatures: the degree is a natural number. In numpy, degree -1 gives an N x 0 matrix and a smaller degree makes `np.zeros` raise `ValueError`; that error path is not modelled, and the script never passes a negative degree.
- The `ValueError` raised by `.dot(y_true)` (py/bias_variance.py:26) and by `y_true - y_pred` (py/bias_variance.py:40) when `y` and `x` differ in length is not modelled. `NormalEquations` is false for such shapes, and `Mse` requires equal lengths.
- Mse: requires at least one observation. numpy's mean of an empty array is `nan` with a warning, which is a floating-point effect.
