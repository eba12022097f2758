/**
 * Interpolation over distinct points, and the inverse of a Vandermonde matrix built from it:
 * the matrix a numeric library returns when asked to invert the evaluation matrix.
 */
module Interpolation {
  import opened ModArith
  import opened LinearAlgebra
  import opened Polynomials

  /** The product of X - x over the points. */
  function Vanishing(xs: seq<int>): (c: Poly)
    ensures |c| == |xs| + 1
  {
    if xs == [] then [1] else TimesLinear(Vanishing(xs[..|xs| - 1]), xs[|xs| - 1])
  }

  lemma {:induction false} VanishingRoot(xs: seq<int>, i: nat)
    requires i < |xs|
    ensures Eval(Vanishing(xs), xs[i]) == 0
  {
    var n := |xs| - 1;
    EvalTimesLinear(Vanishing(xs[..n]), xs[n], xs[i]);
    if i < n {
      VanishingRoot(xs[..n], i);
    }
  }

  lemma {:induction false} VanishingElsewhere(p: Modulus, xs: seq<int>, z: int)
    requires Prime(p) && Outside(p, xs, z)
    ensures !Cong(p, Eval(Vanishing(xs), z), 0)
  {
    if xs == [] {
      assert [1][1..] == [];
      assert Eval([1], z) == 1;
    } else {
      var n := |xs| - 1;
      VanishingElsewhere(p, xs[..n], z);
      EvalTimesLinear(Vanishing(xs[..n]), xs[n], z);
      if Cong(p, (z - xs[n]) * Eval(Vanishing(xs[..n]), z), 0) {
        NonzeroDifference(p, z, xs[n]);
        NoZeroDivisors(p, z - xs[n], Eval(Vanishing(xs[..n]), z));
      }
    }
  }

  lemma {:induction false} NonzeroDifference(p: Modulus, a: int, b: int)
    requires !Cong(p, b, a)
    ensures !Cong(p, a - b, 0)
  {
    if Cong(p, a - b, 0) {
      CongAdd(p, a - b, 0, b, b);
    }
  }

  /** Newton's interpolation: the polynomial through the points (xs[i], ys[i]). */
  function Interpolate(p: Modulus, xs: seq<int>, ys: seq<int>): (c: Poly)
    requires Prime(p) && Distinct(p, xs) && |ys| == |xs|
    ensures |c| == |xs|
  {
    if xs == [] then []
    else
      var n := |xs| - 1;
      assert Distinct(p, xs[..n]) && Outside(p, xs[..n], xs[n]);
      var rest, v := Interpolate(p, xs[..n], ys[..n]), Vanishing(xs[..n]);
      VanishingElsewhere(p, xs[..n], xs[n]);
      CongMod(p, Eval(v, xs[n]));
      var t := (ys[n] - Eval(rest, xs[n])) * Inverse(p, Eval(v, xs[n]) % p);
      seq(n + 1, j requires 0 <= j <= n => Extend(rest, n + 1)[j] + t * v[j])
  }

  lemma {:induction false} InterpolateHits(p: Modulus, xs: seq<int>, ys: seq<int>, i: nat)
    requires Prime(p) && Distinct(p, xs) && |ys| == |xs| && i < |xs|
    ensures Cong(p, Eval(Interpolate(p, xs, ys), xs[i]), ys[i])
  {
    var n := |xs| - 1;
    assert Distinct(p, xs[..n]) && Outside(p, xs[..n], xs[n]);
    var rest, v := Interpolate(p, xs[..n], ys[..n]), Vanishing(xs[..n]);
    VanishingElsewhere(p, xs[..n], xs[n]);
    CongMod(p, Eval(v, xs[n]));
    var r := Inverse(p, Eval(v, xs[n]) % p);
    var t := (ys[n] - Eval(rest, xs[n])) * r;
    var e := Extend(rest, n + 1);
    EvalLinear(e, v, t, Interpolate(p, xs, ys), xs[i]);
    EvalPadded(rest, e, xs[i]);
    if i < n {
      InterpolateHits(p, xs[..n], ys[..n], i);
      VanishingRoot(xs[..n], i);
      assert t * Eval(v, xs[i]) == 0;
    } else {
      NewtonStep(p, Eval(rest, xs[n]), ys[n], Eval(v, xs[n]), r);
    }
  }

  lemma {:induction false} NewtonStep(p: Modulus, a: int, y: int, v: int, r: int)
    requires Cong(p, (v % p) * r, 1)
    ensures Cong(p, a + ((y - a) * r) * v, y)
  {
    CongMod(p, v);
    CongScale(p, v % p, v, r);
    CongScale(p, v * r, 1, y - a);
    assert ((y - a) * r) * v == (v * r) * (y - a);
    CongAdd(p, a, a, (v * r) * (y - a), 1 * (y - a));
  }

  // ---------------------------------------------------------------- the Vandermonde matrix

  /** Entry (j, i) is the i-th power of point j, reduced. */
  function Vandermonde(p: Modulus, xs: seq<int>): (m: Matrix)
    ensures Shaped(m, |xs|, |xs|)
  {
    seq(|xs|, j requires 0 <= j < |xs| => seq(|xs|, i requires 0 <= i < |xs| => Pow(xs[j], i) % p))
  }

  /** Column j holds the coefficients of the polynomial that is 1 at point j and 0 at the others. */
  function InverseVandermonde(p: Modulus, xs: seq<int>): (w: Matrix)
    requires Prime(p) && Distinct(p, xs)
    ensures Shaped(w, |xs|, |xs|)
  {
    var n := |xs|;
    seq(n, i requires 0 <= i < n =>
      seq(n, j requires 0 <= j < n => Interpolate(p, xs, Unit(n, j))[i] % p))
  }

  /** w * m is the identity modulo p. */
  ghost predicate IsLeftInverse(p: Modulus, w: Matrix, m: Matrix, n: nat)
    requires Shaped(w, n, n) && Shaped(m, n, n)
  {
    forall i, j :: 0 <= i < n && 0 <= j < n ==> Cong(p, Combine(w[i], m, n, j), Unit(n, i)[j])
  }

  /** Evaluation at a point is a row of a Vandermonde product, however the powers are reduced. */
  lemma {:induction false} VandermondeRow(p: Modulus, xs: seq<int>, c: Poly, j: nat)
    requires |c| == |xs| && j < |xs|
    ensures Cong(p, Dot(Vandermonde(p, xs)[j], c, |xs|), Eval(c, xs[j]))
  {
    var n := |xs|;
    var row := Vandermonde(p, xs)[j];
    forall i | 0 <= i < n ensures Cong(p, row[i], Powers(xs[j], n)[i]) {
      CongMod(p, Pow(xs[j], i));
    }
    DotCong(p, row, Powers(xs[j], n), c, n);
    EvalIsDot(c, xs[j]);
    DotSymmetric(c, Powers(xs[j], n), n);
  }

  /** Evaluating w * b gives b back: w is a right inverse of evaluation. */
  lemma {:induction false} EvalInverseProduct(p: Modulus, xs: seq<int>, b: seq<int>, k: nat)
    requires Prime(p) && Distinct(p, xs) && |b| == |xs| && k < |xs|
    ensures Cong(p, Eval(MatVec(InverseVandermonde(p, xs), b, |xs|), xs[k]), b[k])
  {
    var n, w := |xs|, InverseVandermonde(p, xs);
    var c, powers := MatVec(w, b, n), Powers(xs[k], |xs|);
    EvalIsDot(c, xs[k]);
    DotSymmetric(c, powers, n);
    DotVecMat(powers, w, n, b, n);
    forall j | 0 <= j < n ensures Cong(p, VecMat(powers, w, n, n)[j], Unit(n, k)[j]) {
      InverseColumn(p, xs, k, j);
    }
    DotCong(p, VecMat(powers, w, n, n), Unit(n, k), b, n);
    DotUnit(Unit(n, k), b, n, k);
  }

  lemma {:induction false} InverseColumn(p: Modulus, xs: seq<int>, k: nat, j: nat)
    requires Prime(p) && Distinct(p, xs) && k < |xs| && j < |xs|
    ensures Cong(p, Combine(Powers(xs[k], |xs|), InverseVandermonde(p, xs), |xs|, j), Unit(|xs|, k)[j])
  {
    var n, w, powers := |xs|, InverseVandermonde(p, xs), Powers(xs[k], |xs|);
    var column := seq(n, i requires 0 <= i < n => w[i][j]);
    var exact := Interpolate(p, xs, Unit(n, j));
    CombineIsDot(powers, w, n, j, column);
    forall i | 0 <= i < n ensures Cong(p, column[i], exact[i]) {
      CongMod(p, exact[i]);
    }
    DotCong(p, column, exact, powers, n);
    EvalIsDot(exact, xs[k]);
    DotSymmetric(exact, powers, n);
    InterpolateHits(p, xs, Unit(n, j), k);
  }

  lemma {:induction false} CombineIsDot(w: seq<int>, m: Matrix, n: nat, j: nat, column: seq<int>)
    requires n <= |w| && n <= |m| && n <= |column| && forall k :: 0 <= k < n ==> j < |m[k]| && column[k] == m[k][j]
    ensures Combine(w, m, n, j) == Dot(w, column, n)
  {
    if n > 0 {
      CombineIsDot(w, m, n - 1, j, column);
    }
  }

  /** The inverse matrix recovers the coefficients from the evaluations, and nothing else does. */
  lemma {:induction false} InterpolationRoundTrip(p: Modulus, xs: seq<int>, c: Poly, b: seq<int>)
    requires Prime(p) && Distinct(p, xs) && |c| == |b| == |xs|
    requires forall i :: 0 <= i < |xs| ==> Cong(p, b[i], Eval(c, xs[i]))
    ensures PolyCong(p, MatVec(InverseVandermonde(p, xs), b, |xs|), c)
  {
    var u := MatVec(InverseVandermonde(p, xs), b, |xs|);
    forall i | 0 <= i < |xs| ensures Cong(p, Eval(u, xs[i]), Eval(c, xs[i])) {
      EvalInverseProduct(p, xs, b, i);
    }
    Identity(p, u, c, xs);
  }

  /** The matrix built by interpolation is the inverse of the evaluation matrix, on the left... */
  lemma {:induction false} InverseIsLeft(p: Modulus, xs: seq<int>)
    requires Prime(p) && Distinct(p, xs)
    ensures IsLeftInverse(p, InverseVandermonde(p, xs), Vandermonde(p, xs), |xs|)
  {
    var n, w, v := |xs|, InverseVandermonde(p, xs), Vandermonde(p, xs);
    forall i, j | 0 <= i < n && 0 <= j < n ensures Cong(p, Combine(w[i], v, n, j), Unit(n, i)[j]) {
      // Column j of the evaluation matrix holds the evaluations of X^j.
      var column := seq(n, k requires 0 <= k < n => v[k][j]);
      CombineIsDot(w[i], v, n, j, column);
      forall k | 0 <= k < n ensures Cong(p, column[k], Eval(Unit(n, j), xs[k])) {
        CongMod(p, Pow(xs[k], j));
        EvalUnit(n, j, xs[k]);
      }
      InterpolationRoundTrip(p, xs, Unit(n, j), column);
      assert MatVec(w, column, n)[i] == Dot(w[i], column, n);
    }
  }

  lemma {:induction false} EvalUnit(n: nat, j: nat, x: int)
    requires j < n
    ensures Eval(Unit(n, j), x) == Pow(x, j)
  {
    EvalIsDot(Unit(n, j), x);
    DotUnit(Unit(n, j), Powers(x, n), n, j);
  }

  /** ... and every left inverse is that matrix modulo p. */
  lemma {:induction false} LeftInverseIsUnique(p: Modulus, xs: seq<int>, w: Matrix)
    requires Prime(p) && Distinct(p, xs) && Shaped(w, |xs|, |xs|)
    requires IsLeftInverse(p, w, Vandermonde(p, xs), |xs|)
    ensures forall i, j :: 0 <= i < |xs| && 0 <= j < |xs| ==> Cong(p, w[i][j], InverseVandermonde(p, xs)[i][j])
  {
    var n, v, inv := |xs|, Vandermonde(p, xs), InverseVandermonde(p, xs);
    forall i, j | 0 <= i < n && 0 <= j < n ensures Cong(p, w[i][j], inv[i][j]) {
      // c is column j of inv, so v * c is unit vector j and w[i] . (v * c) is w[i][j].
      var c := seq(n, k requires 0 <= k < n => inv[k][j]);
      DotVecMat(w[i], v, n, c, n);
      DotCong(p, VecMat(w[i], v, n, n), Unit(n, i), c, n);
      DotUnit(Unit(n, i), c, n, i);
      forall k | 0 <= k < n ensures Cong(p, MatVec(v, c, n)[k], Unit(n, j)[k]) {
        ColumnEvaluates(p, xs, c, j, k);
      }
      DotCong(p, MatVec(v, c, n), Unit(n, j), w[i], n);
      DotSymmetric(w[i], Unit(n, j), n);
      DotUnit(Unit(n, j), w[i], n, j);
    }
  }

  lemma {:induction false} ColumnEvaluates(p: Modulus, xs: seq<int>, c: seq<int>, j: nat, k: nat)
    requires Prime(p) && Distinct(p, xs) && |c| == |xs| && j < |xs| && k < |xs|
    requires forall i :: 0 <= i < |xs| ==> c[i] == InverseVandermonde(p, xs)[i][j]
    ensures Cong(p, Dot(Vandermonde(p, xs)[k], c, |xs|), Unit(|xs|, j)[k])
  {
    var exact := Interpolate(p, xs, Unit(|xs|, j));
    VandermondeRow(p, xs, c, k);
    forall i | 0 <= i < |xs| ensures Cong(p, c[i], exact[i]) {
      CongMod(p, exact[i]);
    }
    EvalCong(p, c, exact, xs[k], xs[k]);
    InterpolateHits(p, xs, Unit(|xs|, j), k);
  }
}
