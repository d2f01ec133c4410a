/** The feature expander: a 1-D sample x and a degree become the
    |x| x (degree + 1) design matrix whose entry (i, d) is x[i] ** d. */
module PolynomialFeatures {
  import opened LinearAlgebra

  /** x ** d for a natural exponent d, with x ** 0 == 1 for every x,
      including x == 0 (0.0 ** 0 is 1.0 in numpy), and 0 ** d == 0 for
      every positive d. */
  function Pow(x: real, d: nat): (r: real)
    ensures x == 1.0 ==> r == 1.0
    ensures x == 0.0 ==> r == (if d == 0 then 1.0 else 0.0)
  {
    if d == 0 then 1.0 else x * Pow(x, d - 1)
  }

  /** Exponents add: x ** (a + b) == x ** a * x ** b. */
  lemma {:induction false} PowAdd(x: real, a: nat, b: nat)
    ensures Pow(x, a + b) == Pow(x, a) * Pow(x, b)
  {
    if b > 0 {
      PowAdd(x, a, b - 1);
      var p, q := Pow(x, a), Pow(x, b - 1);
      assert Pow(x, a + b) == x * Pow(x, a + b - 1);
      assert x * (p * q) == p * (x * q);
    }
  }

  /** The first k powers of x, [x ** 0, ..., x ** (k - 1)]: one row of
      the design matrix, built column by column. */
  function Powers(x: real, k: nat): (r: seq<real>)
    ensures |r| == k
    ensures forall d :: 0 <= d < k ==> r[d] == Pow(x, d)
  {
    if k == 0 then [] else Powers(x, k - 1) + [Pow(x, k - 1)]
  }

  /** The design matrix for the sample x and the given degree. */
  function DesignMatrix(x: seq<real>, degree: nat): (m: seq<seq<real>>)
    ensures |m| == |x| && IsMatrix(m, degree + 1)
    ensures forall i, d :: 0 <= i < |x| && 0 <= d <= degree ==> m[i][d] == Pow(x[i], d)
  {
    seq(|x|, i requires 0 <= i < |x| => Powers(x[i], degree + 1))
  }

  /** The rows of a two-dimensional array, as a matrix value. */
  ghost function Rows(a: array2<real>): (m: seq<seq<real>>)
    reads a
    ensures |m| == a.Length0 && IsMatrix(m, a.Length1)
  {
    seq(a.Length0, i requires 0 <= i < a.Length0 reads a =>
      seq(a.Length1, j requires 0 <= j < a.Length1 reads a => a[i, j]))
  }

  /** Allocates a zero matrix of |x| rows and degree + 1 columns, then
      overwrites column d with x ** d for d = 0, 1, ..., degree. */
  method GeneratePolynomialFeatures(x: seq<real>, degree: nat) returns (xPoly: array2<real>)
    ensures fresh(xPoly)
    ensures xPoly.Length0 == |x| && xPoly.Length1 == degree + 1
    ensures forall i, d :: 0 <= i < |x| && 0 <= d <= degree ==> xPoly[i, d] == Pow(x[i], d)
    ensures Rows(xPoly) == DesignMatrix(x, degree)
  {
    xPoly := new real[|x|, degree + 1]((i, d) => 0.0);
    for d := 0 to degree + 1
      // columns before d hold their powers, the others are still zero
      invariant forall i, e :: 0 <= i < |x| && 0 <= e < d ==> xPoly[i, e] == Pow(x[i], e)
      invariant forall i, e :: 0 <= i < |x| && d <= e <= degree ==> xPoly[i, e] == 0.0
    {
      for i := 0 to |x|
        invariant forall k, e :: 0 <= k < |x| && 0 <= e < d ==> xPoly[k, e] == Pow(x[k], e)
        invariant forall k :: 0 <= k < i ==> xPoly[k, d] == Pow(x[k], d)
        invariant forall k :: i <= k < |x| ==> xPoly[k, d] == 0.0
        invariant forall k, e :: 0 <= k < |x| && d < e <= degree ==> xPoly[k, e] == 0.0
      {
        xPoly[i, d] := Pow(x[i], d);
      }
    }
    ghost var m, dm := Rows(xPoly), DesignMatrix(x, degree);
    forall i | 0 <= i < |x| ensures m[i] == dm[i] {
    }
  }

  /** Column 0 of every design matrix is all ones, whatever the sample. */
  lemma ColumnZeroIsOnes(x: seq<real>, degree: nat)
    ensures forall i :: 0 <= i < |x| ==> DesignMatrix(x, degree)[i][0] == 1.0
  {
  }

  /** Monotone basis extension: the design matrix for degree + 1 is the
      one for degree with one more column appended to every row. */
  lemma DesignMatrixExtends(x: seq<real>, degree: nat)
    ensures forall i :: 0 <= i < |x| ==>
      DesignMatrix(x, degree + 1)[i] == DesignMatrix(x, degree)[i] + [Pow(x[i], degree + 1)]
  {
  }

  /** The polynomial with coefficients c (c[d] multiplies x ** d) at x,
      evaluated by Horner's rule. */
  function PolyEval(c: seq<real>, x: real): real
  {
    if |c| == 0 then 0.0 else c[0] + x * PolyEval(c[1..], x)
  }

  /** Appending a coefficient a to c adds the term a * x ** |c|. */
  lemma {:induction false} PolyEvalSnoc(c: seq<real>, a: real, x: real)
    ensures PolyEval(c + [a], x) == PolyEval(c, x) + Times(Pow(x, |c|), a)
  {
    if |c| == 0 {
      assert PolyEval([a], x) == a + x * PolyEval([], x);
    } else {
      assert (c + [a])[1..] == c[1..] + [a];
      PolyEvalSnoc(c[1..], a, x);
      var p, q := PolyEval(c[1..], x), Pow(x, |c| - 1);
      assert x * (p + q * a) == x * p + (x * q) * a;
    }
  }

  /** A row of the design matrix times the coefficient vector is the
      polynomial with those coefficients at the row's sample point. */
  lemma {:induction false} PowersDotIsPolyEval(x: real, c: seq<real>)
    ensures Dot(Powers(x, |c|), c) == PolyEval(c, x)
  {
    if |c| > 0 {
      var k := |c| - 1;
      assert c == c[..k] + [c[k]];
      PowersDotIsPolyEval(x, c[..k]);
      DotSnoc(Powers(x, k), Pow(x, k), c[..k], c[k]);
      PolyEvalSnoc(c[..k], c[k], x);
    }
  }
}
