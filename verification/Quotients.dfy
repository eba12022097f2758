/** Dividing out a point (DEEP) or all points of the trace domain (validity), value by value. */
module Quotients {
  import opened ModArith
  import opened Polynomials
  import opened PolynomialArithmetic
  import opened Interpolation
  import opened EvaluationDomains

  // ---------------------------------------------------------------- DEEP

  /** (block - value) / (domain - point), entry by entry. */
  function DeepQuotient(p: Modulus, d: seq<int>, block: seq<int>, point: int, value: int): (q: seq<int>)
    requires Prime(p) && Outside(p, d, point) && |block| == |d|
    ensures |q| == |d|
  {
    seq(|d|, i requires 0 <= i < |d| =>
      NonzeroDifference(p, d[i], point);
      ((block[i] - value) * FieldReciprocal(p, d[i] - point)) % p)
  }

  /** Some polynomial with at most n coefficients has these evaluations. */
  ghost predicate IsLowDegree(p: Modulus, d: seq<int>, block: seq<int>, n: nat) {
    exists q: Poly :: |q| == n && Evaluations(p, d, q) == block
  }

  /** Subtracting a constant from a polynomial. */
  function MinusConstant(c: Poly, e: int): (b: Poly)
    requires c != []
    ensures |b| == |c|
  {
    c[0 := c[0] - e]
  }

  lemma {:induction false} EvalMinusConstant(c: Poly, e: int, x: int)
    requires c != []
    ensures Eval(MinusConstant(c, e), x) == Eval(c, x) - e
  {
    assert MinusConstant(c, e)[1..] == c[1..];
  }

  lemma {:induction false} MultiplyOut(p: Modulus, a: int, b: int, r: int, v: int)
    requires Cong(p, b * r, 1) && Cong(p, a * r, v)
    ensures Cong(p, a, b * v)
  {
    CongScale(p, a * r, v, b);
    CongScale(p, b * r, 1, a);
    assert b * (a * r) == a * (b * r);
  }

  lemma {:induction false} DivideOut(p: Modulus, a: int, b: int, r: int, v: int)
    requires Cong(p, b * r, 1) && Cong(p, a, b * v)
    ensures Cong(p, a * r, v)
  {
    CongScale(p, a, b * v, r);
    CongScale(p, b * r, 1, v);
    assert (b * v) * r == v * (b * r);
  }

  /** One entry of a quotient: a / b is v exactly when a is b * v. */
  lemma {:induction false} QuotientEntry(p: Modulus, a: int, b: int, v: int)
    requires Prime(p) && !Cong(p, b, 0)
    ensures Cong(p, a * FieldReciprocal(p, b), v) <==> Cong(p, a, b * v)
  {
    var r := FieldReciprocal(p, b);
    if Cong(p, a * r, v) {
      MultiplyOut(p, a, b, r, v);
    }
    if Cong(p, a, b * v) {
      DivideOut(p, a, b, r, v);
    }
  }

  /** Entry i of the DEEP quotient is the value of q exactly when (x - z) * q(x) is c(x) - e there. */
  lemma {:induction false} DeepEntry(p: Modulus, d: seq<int>, c: Poly, z: int, e: int, q: Poly, i: nat)
    requires Prime(p) && Outside(p, d, z) && c != [] && i < |d|
    ensures DeepQuotient(p, d, Evaluations(p, d, c), z, e)[i] == Evaluations(p, d, q)[i]
       <==> Cong(p, Eval(MinusConstant(c, e), d[i]), Eval(TimesLinear(q, z), d[i]))
  {
    var x, b := d[i], Evaluations(p, d, c)[i];
    EvalMinusConstant(c, e, x);
    EvalTimesLinear(q, z, x);
    NonzeroDifference(p, x, z);
    CongMod(p, Eval(c, x));
    CongSub(p, b, Eval(c, x), e, e);
    QuotientEntry(p, b - e, x - z, Eval(q, x));
  }

  /** The DEEP quotient has low degree exactly when the claimed value is the value at the point. */
  lemma {:induction false} DeepIff(p: Modulus, d: seq<int>, c: Poly, z: int, e: int)
    requires Prime(p) && Distinct(p, d) && Outside(p, d, z) && 0 < |c| <= |d|
    ensures IsLowDegree(p, d, DeepQuotient(p, d, Evaluations(p, d, c), z, e), |c| - 1)
       <==> Cong(p, e, Eval(c, z))
  {
    var quotient := DeepQuotient(p, d, Evaluations(p, d, c), z, e);
    if Cong(p, e, Eval(c, z)) {
      DeepComplete(p, d, c, z, e);
    }
    if IsLowDegree(p, d, quotient, |c| - 1) {
      var q: Poly :| |q| == |c| - 1 && Evaluations(p, d, q) == quotient;
      DeepSound(p, d, c, z, e, q);
    }
  }

  lemma {:induction false} DeepComplete(p: Modulus, d: seq<int>, c: Poly, z: int, e: int)
    requires Prime(p) && Outside(p, d, z) && c != [] && Cong(p, e, Eval(c, z))
    ensures IsLowDegree(p, d, DeepQuotient(p, d, Evaluations(p, d, c), z, e), |c| - 1)
  {
    var q := Divide(c, z);
    forall i | 0 <= i < |d|
      ensures DeepQuotient(p, d, Evaluations(p, d, c), z, e)[i] == Evaluations(p, d, q)[i]
    {
      DeepEntry(p, d, c, z, e, q, i);
      FactorTheorem(c, z, d[i]);
      EvalMinusConstant(c, e, d[i]);
      EvalTimesLinear(q, z, d[i]);
      CongSub(p, Eval(c, d[i]), Eval(c, d[i]), e, Eval(c, z));
    }
    assert Evaluations(p, d, q) == DeepQuotient(p, d, Evaluations(p, d, c), z, e);
  }

  lemma {:induction false} DeepSound(p: Modulus, d: seq<int>, c: Poly, z: int, e: int, q: Poly)
    requires Prime(p) && Distinct(p, d) && Outside(p, d, z) && 0 < |c| <= |d| && |q| == |c| - 1
    requires Evaluations(p, d, q) == DeepQuotient(p, d, Evaluations(p, d, c), z, e)
    ensures Cong(p, e, Eval(c, z))
  {
    var a, b := MinusConstant(c, e), TimesLinear(q, z);
    forall i | 0 <= i < |d| ensures Cong(p, Eval(a, d[i]), Eval(b, d[i])) {
      DeepEntry(p, d, c, z, e, q, i);
    }
    Identity(p, a, b, d);
    DeepValue(p, c, z, e, q);
  }

  lemma {:induction false} DeepValue(p: Modulus, c: Poly, z: int, e: int, q: Poly)
    requires c != [] && PolyCong(p, MinusConstant(c, e), TimesLinear(q, z))
    ensures Cong(p, e, Eval(c, z))
  {
    EvalCong(p, MinusConstant(c, e), TimesLinear(q, z), z, z);
    EvalTimesLinear(q, z, z);
    EvalMinusConstant(c, e, z);
    CongDifference(p, Eval(c, z), e);
  }

  // ---------------------------------------------------------------- validity

  /** The coefficients of X^n - 1. */
  function ZerosPoly(n: nat): (z: Poly)
    requires n > 0
    ensures |z| == n + 1
  {
    [-1] + seq(n - 1, _ => 0) + [1]
  }

  lemma {:induction false} EvalZerosPoly(n: nat, x: int)
    requires n > 0
    ensures Eval(ZerosPoly(n), x) == Pow(x, n) - 1
  {
    var low := [-1] + seq(n - 1, _ => 0);
    EvalSnoc(low, 1, x);
    assert ZerosPoly(n) == low + [1];
    EvalZeros(low[1..], x);
  }

  /** X^n - 1 is zero at no point of the domain. */
  ghost predicate NoTracePoint(p: Modulus, d: seq<int>, n: nat) {
    forall i :: 0 <= i < |d| ==> !Cong(p, Pow(d[i], n), 1)
  }

  /** The mixed constraint block times the reciprocals of the zeros block. */
  function ValidityQuotient(p: Modulus, mixed: seq<int>, zeros: seq<int>): (v: seq<int>)
    requires Prime(p) && |mixed| == |zeros| && forall i :: 0 <= i < |zeros| ==> !Cong(p, zeros[i], 0)
    ensures |v| == |mixed|
  {
    seq(|mixed|, i requires 0 <= i < |mixed| => (mixed[i] * FieldReciprocal(p, zeros[i])) % p)
  }

  lemma {:induction false} ZerosInvertible(p: Modulus, d: seq<int>, n: nat)
    requires n > 0 && NoTracePoint(p, d, n)
    ensures forall i :: 0 <= i < |d| ==> !Cong(p, Evaluations(p, d, ZerosPoly(n))[i], 0)
  {
    forall i | 0 <= i < |d| ensures !Cong(p, Evaluations(p, d, ZerosPoly(n))[i], 0) {
      EvalZerosPoly(n, d[i]);
      NonzeroDifference(p, Pow(d[i], n), 1);
      CongMod(p, Eval(ZerosPoly(n), d[i]));
    }
  }

  /** The quotient block of the polynomial c by X^n - 1. */
  ghost function Validity(p: Modulus, d: seq<int>, c: Poly, n: nat): (v: seq<int>)
    requires Prime(p) && n > 0 && NoTracePoint(p, d, n)
    ensures |v| == |d|
  {
    ZerosInvertible(p, d, n);
    ValidityQuotient(p, Evaluations(p, d, c), Evaluations(p, d, ZerosPoly(n)))
  }

  /** The quotient of c by X^n - 1. */
  function DivideZeros(c: Poly, n: nat): (q: Poly)
    requires n > 0
    ensures |q| == if |c| <= n then 0 else |c| - n
    decreases |c|
  {
    if |c| <= n then [] else AddPoly(c[n..], DivideZeros(AddPoly(c[..n], c[n..]), n))
  }

  function RemainderZeros(c: Poly, n: nat): (r: Poly)
    requires n > 0
    ensures |r| <= n
    decreases |c|
  {
    if |c| <= n then c else RemainderZeros(AddPoly(c[..n], c[n..]), n)
  }

  lemma {:induction false} DivisionByZeros(c: Poly, n: nat, x: int)
    requires n > 0
    ensures Eval(c, x) == (Pow(x, n) - 1) * Eval(DivideZeros(c, n), x) + Eval(RemainderZeros(c, n), x)
    decreases |c|
  {
    if |c| > n {
      var low, high := c[..n], c[n..];
      var sum := AddPoly(low, high);
      DivisionByZeros(sum, n, x);
      assert c == low + high;
      EvalConcat(low, high, x);
      EvalAddPoly(low, high, x);
      EvalAddPoly(high, DivideZeros(sum, n), x);
      DivisionStep(Pow(x, n), Eval(low, x), Eval(high, x), Eval(DivideZeros(sum, n), x), Eval(RemainderZeros(c, n), x));
    }
  }

  lemma {:induction false} DivisionStep(w: int, low: int, high: int, q: int, r: int)
    requires low + high == (w - 1) * q + r
    ensures low + w * high == (w - 1) * (high + q) + r
  {
    assert (w - 1) * (high + q) == w * high - high + (w - 1) * q;
  }

  /** (X^n - 1) * q, as coefficients. */
  function TimesZeros(q: Poly, n: nat): (c: Poly)
    ensures |c| == |q| + n
  {
    var up, e := seq(n, _ => 0) + q, Extend(q, |q| + n);
    seq(|q| + n, j requires 0 <= j < |q| + n => up[j] + -1 * e[j])
  }

  lemma {:induction false} EvalTimesZeros(q: Poly, n: nat, x: int)
    ensures Eval(TimesZeros(q, n), x) == (Pow(x, n) - 1) * Eval(q, x)
  {
    var zeros := seq(n, _ => 0);
    EvalLinear(zeros + q, Extend(q, |q| + n), -1, TimesZeros(q, n), x);
    EvalPadded(q, Extend(q, |q| + n), x);
    EvalConcat(zeros, q, x);
    EvalZeros(zeros, x);
    MinusOnce(Pow(x, n), Eval(q, x));
  }

  lemma {:induction false} MinusOnce(w: int, q: int)
    ensures (0 + w * q) + -1 * q == (w - 1) * q
  {
  }

  /** Entry i of the validity block is the value of q exactly when (x^n - 1) * q(x) is c(x) there. */
  lemma {:induction false} ValidityEntry(p: Modulus, d: seq<int>, c: Poly, n: nat, q: Poly, i: nat)
    requires Prime(p) && n > 0 && NoTracePoint(p, d, n) && i < |d|
    ensures Validity(p, d, c, n)[i] == Evaluations(p, d, q)[i]
       <==> Cong(p, Eval(c, d[i]), (Pow(d[i], n) - 1) * Eval(q, d[i]))
  {
    ZerosInvertible(p, d, n);
    var a, z := Evaluations(p, d, c)[i], Evaluations(p, d, ZerosPoly(n))[i];
    var v := Eval(q, d[i]);
    EvalZerosPoly(n, d[i]);
    CongMod(p, Eval(c, d[i]));
    CongMod(p, Eval(ZerosPoly(n), d[i]));
    CongScale(p, z, Pow(d[i], n) - 1, v);
    QuotientEntry(p, a, z, v);
  }

  /** The trace points: roots of X^n - 1. */
  ghost predicate TracePoints(p: Modulus, ts: seq<int>, n: nat) {
    |ts| == n && Distinct(p, ts) && forall i :: 0 <= i < n ==> Cong(p, Pow(ts[i], n), 1)
  }

  /** The remainder of a polynomial that vanishes on the trace is zero. */
  lemma {:induction false} RemainderVanishes(p: Modulus, c: Poly, ts: seq<int>)
    requires Prime(p) && ts != [] && TracePoints(p, ts, |ts|) && Roots(p, c, ts)
    ensures ZeroPoly(p, RemainderZeros(c, |ts|))
  {
    var n := |ts|;
    var r := RemainderZeros(c, n);
    forall k | 0 <= k < n ensures Cong(p, Eval(r, ts[k]), 0) {
      DivisionByZeros(c, n, ts[k]);
      CongSub(p, Pow(ts[k], n), 1, 1, 1);
      CongScale(p, Pow(ts[k], n) - 1, 0, Eval(DivideZeros(c, n), ts[k]));
      CongSub(p, Eval(c, ts[k]), 0, (Pow(ts[k], n) - 1) * Eval(DivideZeros(c, n), ts[k]), 0);
    }
    RootCount(p, r, ts);
  }

  /** When the constraint vanishes on the trace, the quotient has n coefficients fewer than the constraint. */
  lemma {:induction false} ValidityComplete(p: Modulus, d: seq<int>, c: Poly, ts: seq<int>)
    requires Prime(p) && ts != [] && NoTracePoint(p, d, |ts|) && TracePoints(p, ts, |ts|)
    requires Roots(p, c, ts)
    ensures IsLowDegree(p, d, Validity(p, d, c, |ts|), if |c| <= |ts| then 0 else |c| - |ts|)
  {
    var n := |ts|;
    var r, q := RemainderZeros(c, n), DivideZeros(c, n);
    RemainderVanishes(p, c, ts);
    forall i | 0 <= i < |d| ensures Validity(p, d, c, n)[i] == Evaluations(p, d, q)[i] {
      ValidityEntry(p, d, c, n, q, i);
      DivisionByZeros(c, n, d[i]);
      EvalZero(p, r, d[i]);
      var exact := (Pow(d[i], n) - 1) * Eval(q, d[i]);
      CongAdd(p, exact, exact, Eval(r, d[i]), 0);
    }
    assert Evaluations(p, d, q) == Validity(p, d, c, n);
  }

  /** Fewer coefficients are a stronger claim. */
  lemma {:induction false} LowerIsLow(p: Modulus, d: seq<int>, block: seq<int>, m: nat, n: nat)
    requires IsLowDegree(p, d, block, m) && m <= n
    ensures IsLowDegree(p, d, block, n)
  {
    var q: Poly :| |q| == m && Evaluations(p, d, q) == block;
    var e := Extend(q, n);
    forall i | 0 <= i < |d| ensures Evaluations(p, d, e)[i] == Evaluations(p, d, q)[i] {
      EvalPadded(q, e, d[i]);
    }
    assert Evaluations(p, d, e) == block;
  }

  lemma {:induction false} ValiditySound(p: Modulus, d: seq<int>, c: Poly, ts: seq<int>, q: Poly)
    requires Prime(p) && 0 < |ts| < |d| && |c| <= |d| && NoTracePoint(p, d, |ts|) && TracePoints(p, ts, |ts|)
    requires Distinct(p, d) && |q| == |d| - |ts| && Evaluations(p, d, q) == Validity(p, d, c, |ts|)
    ensures Roots(p, c, ts)
  {
    var n := |ts|;
    var a, b := Extend(c, |d|), TimesZeros(q, n);
    forall i | 0 <= i < |d| ensures Cong(p, Eval(a, d[i]), Eval(b, d[i])) {
      ValidityEntry(p, d, c, n, q, i);
      EvalPadded(c, a, d[i]);
      EvalTimesZeros(q, n, d[i]);
    }
    Identity(p, a, b, d);
    forall k | 0 <= k < n ensures Cong(p, Eval(c, ts[k]), 0) {
      EvalCong(p, a, b, ts[k], ts[k]);
      EvalPadded(c, a, ts[k]);
      EvalTimesZeros(q, n, ts[k]);
      CongSub(p, Pow(ts[k], n), 1, 1, 1);
      CongScale(p, Pow(ts[k], n) - 1, 0, Eval(q, ts[k]));
    }
  }

  /** The validity block has low degree exactly when the constraint vanishes on the whole trace. */
  lemma {:induction false} ValidityIff(p: Modulus, d: seq<int>, c: Poly, ts: seq<int>)
    requires Prime(p) && Distinct(p, d) && 0 < |ts| < |d| && |c| <= |d|
    requires NoTracePoint(p, d, |ts|) && TracePoints(p, ts, |ts|)
    ensures IsLowDegree(p, d, Validity(p, d, c, |ts|), |d| - |ts|) <==> Roots(p, c, ts)
  {
    if Roots(p, c, ts) {
      ValidityComplete(p, d, c, ts);
      LowerIsLow(p, d, Validity(p, d, c, |ts|), if |c| <= |ts| then 0 else |c| - |ts|, |d| - |ts|);
    }
    if IsLowDegree(p, d, Validity(p, d, c, |ts|), |d| - |ts|) {
      var q: Poly :| |q| == |d| - |ts| && Evaluations(p, d, q) == Validity(p, d, c, |ts|);
      ValiditySound(p, d, c, ts, q);
    }
  }
}
