/** Sums, products and rescalings of polynomials, as coefficient sequences. */
module PolynomialArithmetic {
  import opened Polynomials

  /** Coefficient-wise sum, the shorter polynomial padded. */
  function AddPoly(a: Poly, b: Poly): (c: Poly)
    ensures |c| == if |a| >= |b| then |a| else |b|
  {
    var n := if |a| >= |b| then |a| else |b|;
    seq(n, j requires 0 <= j < n => Extend(a, n)[j] + 1 * Extend(b, n)[j])
  }

  lemma EvalAddPoly(a: Poly, b: Poly, x: int)
    ensures Eval(AddPoly(a, b), x) == Eval(a, x) + Eval(b, x)
  {
    var n := |AddPoly(a, b)|;
    EvalLinear(Extend(a, n), Extend(b, n), 1, AddPoly(a, b), x);
    EvalPadded(a, Extend(a, n), x);
    EvalPadded(b, Extend(b, n), x);
  }

  lemma {:induction false} EvalConcat(a: Poly, b: Poly, x: int)
    ensures Eval(a + b, x) == Eval(a, x) + Pow(x, |a|) * Eval(b, x)
  {
    if a == [] {
      assert a + b == b;
    } else {
      EvalConcat(a[1..], b, x);
      assert (a + b)[1..] == a[1..] + b;
      var e, w, y := Eval(a[1..], x), Pow(x, |a| - 1), Eval(b, x);
      assert x * (e + w * y) == x * e + (x * w) * y;
    }
  }

  function Scale(s: int, c: Poly): (r: Poly)
    ensures |r| == |c|
  {
    seq(|c|, j requires 0 <= j < |c| => s * c[j])
  }

  lemma {:induction false} EvalScale(s: int, c: Poly, x: int)
    ensures Eval(Scale(s, c), x) == s * Eval(c, x)
  {
    if c != [] {
      EvalScale(s, c[1..], x);
      assert Scale(s, c)[1..] == Scale(s, c[1..]);
      ScaleStep(s, c[0], Eval(c[1..], x), x);
    }
  }

  lemma ScaleStep(s: int, a: int, e: int, x: int)
    ensures s * a + x * (s * e) == s * (a + x * e)
  {
    assert x * (s * e) == s * (x * e);
  }

  /** a + s * b, for polynomials of one length. */
  function Plus(a: Poly, s: int, b: Poly): (c: Poly)
    requires |a| == |b|
    ensures |c| == |a|
  {
    seq(|a|, j requires 0 <= j < |a| => a[j] + s * b[j])
  }

  function MulPoly(a: Poly, b: Poly): (c: Poly)
    requires a != [] && b != []
    ensures |c| == |a| + |b| - 1
  {
    if |a| == 1 then Scale(a[0], b) else AddPoly(Scale(a[0], b), [0] + MulPoly(a[1..], b))
  }

  lemma {:induction false} EvalMulPoly(a: Poly, b: Poly, x: int)
    requires a != [] && b != []
    ensures Eval(MulPoly(a, b), x) == Eval(a, x) * Eval(b, x)
  {
    EvalScale(a[0], b, x);
    if |a| == 1 {
      assert a[1..] == [];
    } else {
      var rest := MulPoly(a[1..], b);
      EvalMulPoly(a[1..], b, x);
      EvalAddPoly(Scale(a[0], b), [0] + rest, x);
      assert ([0] + rest)[1..] == rest;
      ProductStep(a[0], Eval(a[1..], x), Eval(b, x), x);
    }
  }

  lemma ProductStep(a: int, e: int, f: int, x: int)
    ensures a * f + (0 + x * (e * f)) == (a + x * e) * f
  {
    assert x * (e * f) == (x * e) * f;
  }

  /** The polynomial c(w * X). */
  function Rotate(c: Poly, w: int): (r: Poly)
    ensures |r| == |c|
  {
    if c == [] then [] else [c[0]] + Scale(w, Rotate(c[1..], w))
  }

  lemma {:induction false} EvalRotate(c: Poly, w: int, x: int)
    ensures Eval(Rotate(c, w), x) == Eval(c, w * x)
  {
    if c != [] {
      EvalRotate(c[1..], w, x);
      EvalScale(w, Rotate(c[1..], w), x);
      assert Rotate(c, w)[1..] == Scale(w, Rotate(c[1..], w));
      assert x * (w * Eval(c[1..], w * x)) == (w * x) * Eval(c[1..], w * x);
    }
  }
}
