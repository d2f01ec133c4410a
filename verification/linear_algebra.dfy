/** The numpy array operations the regression relies on, over exact reals.
    A vector is a seq<real>; a matrix is a sequence of rows that all have
    the same length (IsMatrix). Sums run from the first entry to the last,
    so every recursive definition here peels off the LAST entry. */
module LinearAlgebra {

  /** Every row of X has exactly n entries: X is a |X| x n matrix. */
  predicate IsMatrix(X: seq<seq<real>>, n: nat)
  {
    forall i :: 0 <= i < |X| ==> |X[i]| == n
  }

  /** The sum of the entries of s. */
  function Sum(s: seq<real>): real
  {
    if |s| == 0 then 0.0 else Sum(s[..|s| - 1]) + s[|s| - 1]
  }

  /** The arithmetic mean of s (np.mean). */
  function Mean(s: seq<real>): real
    requires |s| > 0
  {
    Sum(s) / |s| as real
  }

  /** Elementwise difference u - v of two vectors of one length. */
  function Sub(u: seq<real>, v: seq<real>): seq<real>
    requires |u| == |v|
  {
    seq(|u|, i requires 0 <= i < |u| => u[i] - v[i])
  }

  /** Elementwise square v**2. */
  function Squares(v: seq<real>): seq<real>
  {
    seq(|v|, i requires 0 <= i < |v| => v[i] * v[i])
  }

  /** Inner product of two vectors of one length. */
  function Dot(u: seq<real>, v: seq<real>): real
    requires |u| == |v|
  {
    if |u| == 0 then 0.0
    else Dot(u[..|u| - 1], v[..|v| - 1]) + u[|u| - 1] * v[|v| - 1]
  }

  /** Matrix-vector product X.dot(v), built row by row. */
  function MatVec(X: seq<seq<real>>, v: seq<real>): (r: seq<real>)
    requires IsMatrix(X, |v|)
    ensures |r| == |X|
    ensures forall i :: 0 <= i < |X| ==> r[i] == Dot(X[i], v)
  {
    if |X| == 0 then []
    else MatVec(X[..|X| - 1], v) + [Dot(X[|X| - 1], v)]
  }

  /** Column j of a |X| x n matrix. */
  function Column(X: seq<seq<real>>, n: nat, j: nat): seq<real>
    requires IsMatrix(X, n) && j < n
  {
    seq(|X|, i requires 0 <= i < |X| => X[i][j])
  }

  /** The transpose X.T of a |X| x n matrix: an n x |X| matrix whose rows
      are the columns of X. */
  function Transpose(X: seq<seq<real>>, n: nat): (t: seq<seq<real>>)
    requires IsMatrix(X, n)
    ensures |t| == n && IsMatrix(t, |X|)
    ensures forall j, i :: 0 <= j < n && 0 <= i < |X| ==> t[j][i] == X[i][j]
  {
    seq(n, j requires 0 <= j < n => Column(X, n, j))
  }

  // ---------------------------------------------------------------------
  // Algebra of the inner product

  /** Dot is symmetric. */
  lemma {:induction false} DotSymmetric(u: seq<real>, v: seq<real>)
    requires |u| == |v|
    ensures Dot(u, v) == Dot(v, u)
  {
    if |u| > 0 {
      DotSymmetric(u[..|u| - 1], v[..|v| - 1]);
    }
  }

  /** Dot is linear in its second argument, for differences. */
  lemma {:induction false} DotSub(u: seq<real>, v: seq<real>, w: seq<real>)
    requires |u| == |v| == |w|
    ensures Dot(u, Sub(v, w)) == Dot(u, v) - Dot(u, w)
  {
    if |u| > 0 {
      var n := |u| - 1;
      assert Sub(v, w)[..n] == Sub(v[..n], w[..n]);
      DotSub(u[..n], v[..n], w[..n]);
    }
  }

  /** Dot is linear in its first argument, for differences. */
  lemma DotSubLeft(u: seq<real>, v: seq<real>, w: seq<real>)
    requires |u| == |v| == |w|
    ensures Dot(Sub(u, v), w) == Dot(u, w) - Dot(v, w)
  {
    DotSub(w, u, v);
    DotSymmetric(w, Sub(u, v));
    DotSymmetric(w, u);
    DotSymmetric(w, v);
  }

  /** The inner product with a vector of zeros is zero. */
  lemma {:induction false} DotZero(u: seq<real>, z: seq<real>)
    requires |u| == |z|
    requires forall i :: 0 <= i < |z| ==> z[i] == 0.0
    ensures Dot(u, z) == 0.0
  {
    if |u| > 0 {
      DotZero(u[..|u| - 1], z[..|z| - 1]);
    }
  }

  /** Inner product with an all-ones vector is the plain sum. */
  lemma {:induction false} DotOnes(ones: seq<real>, v: seq<real>)
    requires |ones| == |v|
    requires forall i :: 0 <= i < |ones| ==> ones[i] == 1.0
    ensures Dot(ones, v) == Sum(v)
  {
    if |v| > 0 {
      DotOnes(ones[..|ones| - 1], v[..|v| - 1]);
    }
  }

  /** The sum of |s| copies of c is |s| * c. */
  lemma {:induction false} SumConstant(s: seq<real>, c: real)
    requires forall i :: 0 <= i < |s| ==> s[i] == c
    ensures Sum(s) == |s| as real * c
  {
    if |s| > 0 {
      SumConstant(s[..|s| - 1], c);
    }
  }

  /** The mean of a vector whose entries all equal c is c. */
  lemma MeanConstant(s: seq<real>, c: real)
    requires |s| > 0
    requires forall i :: 0 <= i < |s| ==> s[i] == c
    ensures Mean(s) == c
  {
    SumConstant(s, c);
    var n := |s| as real;
    assert Sum(s) == n * c;
  }

  /** The sum of the squares of v is the inner product of v with itself. */
  lemma {:induction false} SumSquaresIsDot(v: seq<real>)
    ensures Sum(Squares(v)) == Dot(v, v)
  {
    if |v| > 0 {
      var n := |v| - 1;
      var s, t := Squares(v)[..n], Squares(v[..n]);
      assert forall i :: 0 <= i < n ==> s[i] == t[i];
      assert s == t;
      SumSquaresIsDot(v[..n]);
    }
  }

  /** A sum of non-negative entries is non-negative, and it is zero exactly
      when every entry is zero. */
  lemma {:induction false} SumNonNegative(s: seq<real>)
    requires forall i :: 0 <= i < |s| ==> s[i] >= 0.0
    ensures Sum(s) >= 0.0
    ensures Sum(s) == 0.0 <==> forall i :: 0 <= i < |s| ==> s[i] == 0.0
  {
    if |s| > 0 {
      var n := |s| - 1;
      SumNonNegative(s[..n]);
      if Sum(s) == 0.0 {
        forall i | 0 <= i < |s| ensures s[i] == 0.0 {
          if i < n { assert s[i] == s[..n][i]; }
        }
      }
    }
  }

  /** A product of two positive reals is positive. The product is passed
      in as s so that callers never state a literal square, which the
      solver handles poorly. */
  lemma ProductPositive(a: real, b: real, s: real)
    requires a > 0.0 && b > 0.0 && s == a * b
    ensures s > 0.0
  {
  }

  /** A square is non-negative, and zero only for zero. */
  lemma SquareSign(x: real, s: real)
    requires s == x * x
    ensures s >= 0.0
    ensures s == 0.0 <==> x == 0.0
  {
    if x > 0.0 {
      ProductPositive(x, x, s);
    } else if x < 0.0 {
      ProductPositive(-x, -x, s);
    }
  }

  /** Each entry of Squares(v) is non-negative, and zero exactly where v is. */
  lemma SquaresSign(v: seq<real>)
    ensures forall i :: 0 <= i < |v| ==> Squares(v)[i] >= 0.0
    ensures forall i :: 0 <= i < |v| ==> (Squares(v)[i] == 0.0 <==> v[i] == 0.0)
  {
    forall i | 0 <= i < |v|
      ensures Squares(v)[i] >= 0.0 && (Squares(v)[i] == 0.0 <==> v[i] == 0.0)
    {
      SquareSign(v[i], Squares(v)[i]);
    }
  }

  /** The inner product of a vector with itself is non-negative. */
  lemma DotSelfNonNegative(v: seq<real>)
    ensures Dot(v, v) >= 0.0
  {
    SquaresSign(v);
    SumNonNegative(Squares(v));
    SumSquaresIsDot(v);
  }

  // ---------------------------------------------------------------------
  // Matrix-vector products

  /** X.dot(u - v) == X.dot(u) - X.dot(v). */
  lemma MatVecSub(X: seq<seq<real>>, u: seq<real>, v: seq<real>)
    requires |u| == |v| && IsMatrix(X, |u|)
    ensures MatVec(X, Sub(u, v)) == Sub(MatVec(X, u), MatVec(X, v))
  {
    var l, p, q := MatVec(X, Sub(u, v)), MatVec(X, u), MatVec(X, v);
    var r := Sub(p, q);
    forall i | 0 <= i < |X| ensures l[i] == r[i] {
      DotSub(X[i], u, v);
    }
    assert l == r;
  }

  /** Appending a row to X appends an entry to every column. */
  lemma TransposeSnoc(X: seq<seq<real>>, n: nat, row: seq<real>)
    requires IsMatrix(X, n) && |row| == n
    ensures IsMatrix(X + [row], n)
    ensures forall j :: 0 <= j < n ==>
      Transpose(X + [row], n)[j] == Transpose(X, n)[j] + [row[j]]
  {
  }

  /** x * y. Products whose factor is itself an inner product are written
      with Times in lemma statements: the solver then treats the product as
      one term instead of expanding the inner product inside it. */
  function Times(x: real, y: real): real
  {
    x * y
  }

  /** Appending an entry to both vectors adds the product of the two. */
  lemma DotSnoc(a: seq<real>, x: real, b: seq<real>, y: real)
    requires |a| == |b|
    ensures Dot(a + [x], b + [y]) == Dot(a, b) + Times(x, y)
  {
    assert (a + [x])[..|a|] == a;
    assert (b + [y])[..|b|] == b;
  }

  /** X.T.dot(w + [c]) for X with one more row: the old product plus c
      times the new row. */
  lemma TransposeProductSnoc(X: seq<seq<real>>, n: nat, row: seq<real>, w: seq<real>, c: real)
    requires IsMatrix(X, n) && |row| == n && |w| == |X|
    ensures IsMatrix(X + [row], n)
    ensures forall j :: 0 <= j < n ==>
      MatVec(Transpose(X + [row], n), w + [c])[j]
        == MatVec(Transpose(X, n), w)[j] + Times(row[j], c)
  {
    TransposeSnoc(X, n, row);
    var T, T' := Transpose(X + [row], n), Transpose(X, n);
    forall j | 0 <= j < n
      ensures Dot(T[j], w + [c]) == Dot(T'[j], w) + Times(row[j], c)
    {
      var t, t' := T[j], T'[j];
      assert t == t' + [row[j]];
      DotSnoc(t', row[j], w, c);
    }
  }

  /** The transpose is the adjoint of X for the inner product:
      (X v) . w == v . (X.T w). */
  lemma {:induction false} TransposeAdjoint(X: seq<seq<real>>, n: nat, v: seq<real>, w: seq<real>)
    requires IsMatrix(X, n) && |v| == n && |w| == |X|
    ensures Dot(MatVec(X, v), w) == Dot(v, MatVec(Transpose(X, n), w))
  {
    if |X| == 0 {
      DotZero(v, MatVec(Transpose(X, n), w));
    } else {
      var m := |X| - 1;
      assert X == X[..m] + [X[m]];
      assert w == w[..m] + [w[m]];
      TransposeAdjoint(X[..m], n, v, w[..m]);
      MatVecSnocDot(X[..m], n, X[m], v, w[..m], w[m]);
      TransposeSnocDot(X[..m], n, X[m], v, w[..m], w[m]);
    }
  }

  /** (X + [row]) v . (w + [c]) == (X v) . w + (row . v) * c */
  lemma MatVecSnocDot(X: seq<seq<real>>, n: nat, row: seq<real>, v: seq<real>, w: seq<real>, c: real)
    requires IsMatrix(X, n) && |row| == n && |v| == n && |w| == |X|
    ensures IsMatrix(X + [row], n)
    ensures Dot(MatVec(X + [row], v), w + [c]) == Dot(MatVec(X, v), w) + Times(Dot(row, v), c)
  {
    assert (X + [row])[..|X|] == X;
    assert MatVec(X + [row], v) == MatVec(X, v) + [Dot(row, v)];
    DotSnoc(MatVec(X, v), Dot(row, v), w, c);
  }

  /** v . ((X + [row]).T (w + [c])) == v . (X.T w) + (row . v) * c */
  lemma TransposeSnocDot(X: seq<seq<real>>, n: nat, row: seq<real>, v: seq<real>, w: seq<real>, c: real)
    requires IsMatrix(X, n) && |row| == n && |v| == n && |w| == |X|
    ensures IsMatrix(X + [row], n)
    ensures Dot(v, MatVec(Transpose(X + [row], n), w + [c]))
         == Dot(v, MatVec(Transpose(X, n), w)) + Times(Dot(row, v), c)
  {
    TransposeProductSnoc(X, n, row, w, c);
    DotSnocColumns(v, MatVec(Transpose(X + [row], n), w + [c]), MatVec(Transpose(X, n), w), row, c);
  }

  /** v . (q + c * row) == v . q + (row . v) * c, with q + c * row given entrywise. */
  lemma {:induction false} DotSnocColumns(v: seq<real>, t: seq<real>, q: seq<real>, row: seq<real>, c: real)
    requires |v| == |t| == |q| == |row|
    requires forall j :: 0 <= j < |t| ==> t[j] == q[j] + Times(row[j], c)
    ensures Dot(v, t) == Dot(v, q) + Times(Dot(row, v), c)
  {
    if |v| > 0 {
      var n := |v| - 1;
      DotSnocColumns(v[..n], t[..n], q[..n], row[..n], c);
    }
  }
}
