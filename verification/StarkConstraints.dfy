/** The constraint blocks of a committed trace as evaluations of polynomials in the trace polynomials. */
module StarkConstraints {
  import opened ModArith
  import opened Polynomials
  import opened PolynomialArithmetic
  import opened Quotients
  import opened FibonacciTrace
  import opened StarkDomains

  ghost predicate ColumnPolys(a: seq<Poly>) {
    |a| == 6 && forall k :: 0 <= k < 6 ==> |a[k]| == 8
  }

  /** What is compared in constraint k; w undoes one computational step. */
  ghost function LeftPoly(a: seq<Poly>, w: int, k: nat): (c: Poly)
    requires ColumnPolys(a) && k < 6
    ensures |c| == 8
  {
    match k
    case 0 => Plus(Plus(a[2], -1, a[1]), -1, a[0])
    case 1 => MinusConstant(a[0], 24)
    case 2 => MinusConstant(a[1], 30)
    case 3 => MinusConstant(a[2], 28)
    case 4 => Plus(a[0], -1, Rotate(a[1], w))
    case _ => Plus(a[1], -1, Rotate(a[2], w))
  }

  /** When constraint k is enforced. */
  ghost function SelectorPoly(a: seq<Poly>, k: nat): (c: Poly)
    requires ColumnPolys(a) && k < 6
    ensures |c| == 8
  {
    match k
    case 0 => Plus(Plus(a[3], 1, a[4]), 1, a[5])
    case 1 => a[3]
    case 2 => a[3]
    case 3 => a[5]
    case _ => a[4]
  }

  ghost function ConstraintPoly(a: seq<Poly>, w: int, k: nat): (c: Poly)
    requires ColumnPolys(a) && k < 6
    ensures |c| == 15
  {
    MulPoly(LeftPoly(a, w, k), SelectorPoly(a, k))
  }

  /** The columns of t are the values of a on the domain d. */
  ghost predicate Represents(p: Modulus, a: seq<Poly>, d: seq<int>, t: Trace)
    requires ColumnPolys(a) && IsTrace(t, |d|)
  {
    forall k, i :: 0 <= k < 6 && 0 <= i < |d| ==> Cong(p, t[k][i], Eval(a[k], d[i]))
  }

  /** What constraint k compares at row i, and whether it is enforced there. */
  ghost function LeftValue(t: Trace, n: nat, k: nat, i: nat): int
    requires IsTrace(t, n) && k < 6 && i < n
  {
    match k
    case 0 => t[2][i] - t[1][i] - t[0][i]
    case 1 => t[0][i] - 24
    case 2 => t[1][i] - 30
    case 3 => t[2][i] - 28
    case 4 => t[0][i] - t[1][Previous(n, i)]
    case _ => t[1][i] - t[2][Previous(n, i)]
  }

  ghost function SelectorValue(t: Trace, n: nat, k: nat, i: nat): int
    requires IsTrace(t, n) && k < 6 && i < n
  {
    match k
    case 0 => t[3][i] + t[4][i] + t[5][i]
    case 1 => t[3][i]
    case 2 => t[3][i]
    case 3 => t[5][i]
    case _ => t[4][i]
  }

  lemma {:induction false} ConstraintValue(p: Modulus, t: Trace, n: nat, k: nat, i: nat)
    requires IsTrace(t, n) && k < 6 && i < n
    ensures Constraints(p, t, n)[k][i] == (LeftValue(t, n, k, i) * SelectorValue(t, n, k, i)) % p
  {
  }

  lemma {:induction false} SelectorIsPoly(p: Modulus, a: seq<Poly>, d: seq<int>, t: Trace, k: nat, i: nat)
    requires ColumnPolys(a) && IsTrace(t, |d|) && Represents(p, a, d, t) && k < 6 && i < |d|
    ensures Cong(p, SelectorValue(t, |d|, k, i), Eval(SelectorPoly(a, k), d[i]))
  {
    var x := d[i];
    if k == 0 {
      EvalLinear(a[3], a[4], 1, Plus(a[3], 1, a[4]), x);
      EvalLinear(Plus(a[3], 1, a[4]), a[5], 1, SelectorPoly(a, 0), x);
      CongAdd(p, t[3][i], Eval(a[3], x), t[4][i], Eval(a[4], x));
      CongAdd(p, t[3][i] + t[4][i], Eval(a[3], x) + Eval(a[4], x), t[5][i], Eval(a[5], x));
    }
  }

  lemma {:induction false} DifferenceIsPoly(p: Modulus, a: Poly, b: Poly, x: int, u: int, v: int)
    requires |a| == |b|
    ensures Cong(p, u, Eval(a, x)) && Cong(p, v, Eval(b, x)) ==> Cong(p, u - v, Eval(Plus(a, -1, b), x))
  {
    EvalLinear(a, b, -1, Plus(a, -1, b), x);
    if Cong(p, u, Eval(a, x)) && Cong(p, v, Eval(b, x)) {
      CongSub(p, u, Eval(a, x), v, Eval(b, x));
    }
  }

  lemma {:induction false} ConstantIsPoly(p: Modulus, a: Poly, x: int, u: int, e: int)
    requires a != []
    ensures Cong(p, u, Eval(a, x)) ==> Cong(p, u - e, Eval(MinusConstant(a, e), x))
  {
    EvalMinusConstant(a, e, x);
    if Cong(p, u, Eval(a, x)) {
      CongSub(p, u, Eval(a, x), e, e);
    }
  }

  lemma {:induction false} PreviousIsPoly(p: Modulus, a: seq<Poly>, w: int, d: seq<int>, t: Trace, k: nat, i: nat)
    requires ColumnPolys(a) && IsTrace(t, |d|) && Represents(p, a, d, t) && StepsBack(p, d, w) && k < 6 && i < |d|
    ensures Cong(p, t[k][Previous(|d|, i)], Eval(Rotate(a[k], w), d[i]))
  {
    var j := Previous(|d|, i);
    assert Cong(p, t[k][j], Eval(a[k], d[j]));
    EvalCongPoint(p, a[k], d[j], w * d[i]);
    EvalRotate(a[k], w, d[i]);
  }

  lemma {:induction false} LeftIsPoly(p: Modulus, a: seq<Poly>, w: int, d: seq<int>, t: Trace, k: nat, i: nat)
    requires ColumnPolys(a) && IsTrace(t, |d|) && Represents(p, a, d, t) && StepsBack(p, d, w) && k < 6 && i < |d|
    ensures Cong(p, LeftValue(t, |d|, k, i), Eval(LeftPoly(a, w, k), d[i]))
  {
    var x := d[i];
    match k
    case 0 =>
      DifferenceIsPoly(p, a[2], a[1], x, t[2][i], t[1][i]);
      DifferenceIsPoly(p, Plus(a[2], -1, a[1]), a[0], x, t[2][i] - t[1][i], t[0][i]);
    case 1 => ConstantIsPoly(p, a[0], x, t[0][i], 24);
    case 2 => ConstantIsPoly(p, a[1], x, t[1][i], 30);
    case 3 => ConstantIsPoly(p, a[2], x, t[2][i], 28);
    case 4 =>
      PreviousIsPoly(p, a, w, d, t, 1, i);
      DifferenceIsPoly(p, a[0], Rotate(a[1], w), x, t[0][i], t[1][Previous(|d|, i)]);
    case _ =>
      PreviousIsPoly(p, a, w, d, t, 2, i);
      DifferenceIsPoly(p, a[1], Rotate(a[2], w), x, t[1][i], t[2][Previous(|d|, i)]);
  }

  /** On any domain that steps back by w, a constraint block is the evaluations of its polynomial. */
  lemma {:induction false} ConstraintIsPoly(p: Modulus, a: seq<Poly>, w: int, d: seq<int>, t: Trace, k: nat, i: nat)
    requires ColumnPolys(a) && IsTrace(t, |d|) && Represents(p, a, d, t) && StepsBack(p, d, w) && k < 6 && i < |d|
    ensures Cong(p, Constraints(p, t, |d|)[k][i], Eval(ConstraintPoly(a, w, k), d[i]))
  {
    hide LeftPoly, SelectorPoly, LeftValue, SelectorValue, Represents, StepsBack, Constraints;
    var l, s := LeftValue(t, |d|, k, i), SelectorValue(t, |d|, k, i);
    ConstraintValue(p, t, |d|, k, i);
    LeftIsPoly(p, a, w, d, t, k, i);
    SelectorIsPoly(p, a, d, t, k, i);
    CongMul(p, l, Eval(LeftPoly(a, w, k), d[i]), s, Eval(SelectorPoly(a, k), d[i]));
    EvalMulPoly(LeftPoly(a, w, k), SelectorPoly(a, k), d[i]);
    CongMod(p, l * s);
  }
}
