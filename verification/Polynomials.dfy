/** Polynomials with integer coefficients, lowest first, and what survives of them modulo a prime. */
module Polynomials {
  import opened ModArith
  import opened LinearAlgebra

  type Poly = seq<int>

  function Pow(x: int, n: nat): int {
    if n == 0 then 1 else x * Pow(x, n - 1)
  }

  function Eval(c: Poly, x: int): int {
    if c == [] then 0 else c[0] + x * Eval(c[1..], x)
  }

  /** All coefficients vanish modulo p. */
  ghost predicate ZeroPoly(p: Modulus, c: Poly) {
    forall j :: 0 <= j < |c| ==> Cong(p, c[j], 0)
  }

  ghost predicate PolyCong(p: Modulus, a: Poly, b: Poly) {
    |a| == |b| && forall j :: 0 <= j < |a| ==> Cong(p, a[j], b[j])
  }

  /** The points are pairwise different modulo p. */
  ghost predicate Distinct(p: Modulus, xs: seq<int>) {
    forall i, j :: 0 <= i < j < |xs| ==> !Cong(p, xs[i], xs[j])
  }

  /** z is different modulo p from every point. */
  ghost predicate Outside(p: Modulus, xs: seq<int>, z: int) {
    forall i :: 0 <= i < |xs| ==> !Cong(p, xs[i], z)
  }

  ghost predicate Roots(p: Modulus, c: Poly, xs: seq<int>) {
    forall i :: 0 <= i < |xs| ==> Cong(p, Eval(c, xs[i]), 0)
  }

  // ---------------------------------------------------------------- evaluation is linear

  lemma {:induction false} EvalLinear(a: Poly, b: Poly, s: int, c: Poly, x: int)
    requires |a| == |b| == |c| && forall j :: 0 <= j < |a| ==> c[j] == a[j] + s * b[j]
    ensures Eval(c, x) == Eval(a, x) + s * Eval(b, x)
  {
    if c != [] {
      EvalLinear(a[1..], b[1..], s, c[1..], x);
      EvalLinearStep(a[0], Eval(a[1..], x), b[0], Eval(b[1..], x), s, x);
    }
  }

  lemma EvalLinearStep(a: int, ea: int, b: int, eb: int, s: int, x: int)
    ensures (a + s * b) + x * (ea + s * eb) == (a + x * ea) + s * (b + x * eb)
  {
    assert x * (ea + s * eb) == x * ea + s * (x * eb);
  }

  lemma {:induction false} EvalCong(p: Modulus, a: Poly, b: Poly, x: int, y: int)
    requires PolyCong(p, a, b) && Cong(p, x, y)
    ensures Cong(p, Eval(a, x), Eval(b, y))
  {
    if a != [] {
      assert PolyCong(p, a[1..], b[1..]);
      EvalCong(p, a[1..], b[1..], x, y);
      CongMul(p, x, y, Eval(a[1..], x), Eval(b[1..], y));
      CongAdd(p, a[0], b[0], x * Eval(a[1..], x), y * Eval(b[1..], y));
    }
  }

  lemma EvalCongPoint(p: Modulus, c: Poly, x: int, y: int)
    requires Cong(p, x, y)
    ensures Cong(p, Eval(c, x), Eval(c, y))
  {
    EvalCong(p, c, c, x, y);
  }

  lemma {:induction false} EvalZero(p: Modulus, c: Poly, x: int)
    requires ZeroPoly(p, c)
    ensures Cong(p, Eval(c, x), 0)
  {
    if c != [] {
      EvalZero(p, c[1..], x);
      CongScale(p, Eval(c[1..], x), 0, x);
      CongAdd(p, c[0], 0, x * Eval(c[1..], x), 0);
    }
  }

  /** Padding with zeros: what extendarray does. */
  function Extend(c: Poly, n: nat): (e: Poly)
    requires |c| <= n
    ensures |e| == n && e[..|c|] == c && forall j :: |c| <= j < n ==> e[j] == 0
  {
    c + seq(n - |c|, _ => 0)
  }

  lemma {:induction false} EvalZeros(c: Poly, x: int)
    requires forall j :: 0 <= j < |c| ==> c[j] == 0
    ensures Eval(c, x) == 0
  {
    if c != [] {
      EvalZeros(c[1..], x);
    }
  }

  lemma {:induction false} EvalPadded(c: Poly, e: Poly, x: int)
    requires |c| <= |e| && e[..|c|] == c && forall j :: |c| <= j < |e| ==> e[j] == 0
    ensures Eval(e, x) == Eval(c, x)
  {
    if c == [] {
      EvalZeros(e, x);
    } else {
      assert e[0] == c[0] && e[1..][..|c| - 1] == c[1..];
      EvalPadded(c[1..], e[1..], x);
    }
  }

  /** Powers of x: one row of a Vandermonde matrix. */
  function Powers(x: int, n: nat): (row: seq<int>)
    ensures |row| == n
  {
    seq(n, i requires 0 <= i < n => Pow(x, i))
  }

  lemma {:induction false} EvalIsDot(c: Poly, x: int)
    ensures Dot(c, Powers(x, |c|), |c|) == Eval(c, x)
  {
    DotPowers(c, x, |c|);
    assert c[..|c|] == c;
  }

  lemma {:induction false} DotPowers(c: Poly, x: int, n: nat)
    requires n <= |c|
    ensures Dot(c, Powers(x, |c|), n) == Eval(c[..n], x)
  {
    if n > 0 {
      DotPowers(c, x, n - 1);
      assert c[..n] == c[..n - 1] + [c[n - 1]];
      EvalSnoc(c[..n - 1], c[n - 1], x);
    }
  }

  lemma {:induction false} EvalSnoc(c: Poly, a: int, x: int)
    ensures Eval(c + [a], x) == Eval(c, x) + a * Pow(x, |c|)
  {
    if c == [] {
      assert [a][1..] == [];
    } else {
      EvalSnoc(c[1..], a, x);
      assert (c + [a])[1..] == c[1..] + [a];
      var e, t := Eval(c[1..], x), Pow(x, |c| - 1);
      assert x * (e + a * t) == x * e + a * (x * t);
    }
  }

  // ---------------------------------------------------------------- division by X - z

  /** Synthetic division: the quotient of c by X - z. */
  function Divide(c: Poly, z: int): (q: Poly)
    ensures |q| == if c == [] then 0 else |c| - 1
  {
    if |c| <= 1 then [] else [Eval(c[1..], z)] + Divide(c[1..], z)
  }

  lemma {:induction false} FactorTheorem(c: Poly, z: int, x: int)
    ensures Eval(c, x) == Eval(c, z) + (x - z) * Eval(Divide(c, z), x)
  {
    if |c| == 1 {
      assert c[1..] == [];
    } else if |c| > 1 {
      var d := c[1..];
      FactorTheorem(d, z, x);
      assert Divide(c, z)[1..] == Divide(d, z);
      FactorStep(Eval(d, x), Eval(d, z), Eval(Divide(d, z), x), x, z);
    }
  }

  lemma FactorStep(dx: int, dz: int, q: int, x: int, z: int)
    requires dx == dz + (x - z) * q
    ensures x * dx == z * dz + (x - z) * (dz + x * q)
  {
    assert x * dx == x * dz + x * ((x - z) * q);
    assert (x - z) * (dz + x * q) == x * dz - z * dz + x * ((x - z) * q);
  }

  lemma {:induction false} ZeroQuotient(p: Modulus, c: Poly, z: int)
    requires Cong(p, Eval(c, z), 0) && ZeroPoly(p, Divide(c, z))
    ensures ZeroPoly(p, c)
  {
    if |c| == 1 {
      assert c[1..] == [];
    } else if |c| > 1 {
      var d, q := c[1..], Divide(c, z);
      assert Cong(p, q[0], 0);
      assert forall j :: 0 <= j < |Divide(d, z)| ==> Divide(d, z)[j] == q[j + 1];
      ZeroQuotient(p, d, z);
      CongScale(p, Eval(d, z), 0, z);
      CongSub(p, Eval(c, z), 0, z * Eval(d, z), 0);
      assert forall j :: 1 <= j < |c| ==> c[j] == d[j - 1];
    }
  }

  /** A polynomial with at least as many distinct roots as coefficients is zero. */
  lemma {:induction false} RootCount(p: Modulus, c: Poly, xs: seq<int>)
    requires Prime(p) && |c| <= |xs| && Distinct(p, xs) && Roots(p, c, xs)
    ensures ZeroPoly(p, c)
    decreases |xs|
  {
    if c != [] {
      var z, q := xs[0], Divide(c, xs[0]);
      forall i | 0 <= i < |xs[1..]| ensures Cong(p, Eval(q, xs[1..][i]), 0) {
        QuotientRoot(p, c, z, xs[i + 1]);
      }
      RootCount(p, q, xs[1..]);
      ZeroQuotient(p, c, z);
    }
  }

  lemma QuotientRoot(p: Modulus, c: Poly, z: int, x: int)
    requires Prime(p) && Cong(p, Eval(c, z), 0) && Cong(p, Eval(c, x), 0) && !Cong(p, z, x)
    ensures Cong(p, Eval(Divide(c, z), x), 0)
  {
    FactorTheorem(c, z, x);
    CongSub(p, Eval(c, x), 0, Eval(c, z), 0);
    if Cong(p, x - z, 0) {
      CongAdd(p, x - z, 0, z, z);
    }
    NoZeroDivisors(p, x - z, Eval(Divide(c, z), x));
  }

  /** Two polynomials that agree at as many distinct points as they have coefficients are the same. */
  lemma Identity(p: Modulus, a: Poly, b: Poly, xs: seq<int>)
    requires Prime(p) && |a| == |b| <= |xs| && Distinct(p, xs)
    requires forall i :: 0 <= i < |xs| ==> Cong(p, Eval(a, xs[i]), Eval(b, xs[i]))
    ensures PolyCong(p, a, b)
  {
    var d := seq(|a|, j requires 0 <= j < |a| => a[j] + -1 * b[j]);
    forall i | 0 <= i < |xs| ensures Cong(p, Eval(d, xs[i]), 0) {
      EvalLinear(a, b, -1, d, xs[i]);
      CongSub(p, Eval(a, xs[i]), Eval(b, xs[i]), Eval(b, xs[i]), Eval(b, xs[i]));
    }
    RootCount(p, d, xs);
    forall j | 0 <= j < |a| ensures Cong(p, a[j], b[j]) {
      assert Cong(p, d[j], 0);
      CongAdd(p, d[j], 0, b[j], b[j]);
    }
  }

  // ---------------------------------------------------------------- multiplication by X - z

  function TimesLinear(q: Poly, z: int): (c: Poly)
    ensures |c| == |q| + 1
  {
    seq(|q| + 1, j requires 0 <= j <= |q| =>
      (if j == 0 then 0 else q[j - 1]) - z * (if j == |q| then 0 else q[j]))
  }

  lemma EvalTimesLinear(q: Poly, z: int, x: int)
    ensures Eval(TimesLinear(q, z), x) == (x - z) * Eval(q, x)
  {
    var up, e := [0] + q, Extend(q, |q| + 1);
    EvalLinear(up, e, -z, TimesLinear(q, z), x);
    EvalPadded(q, e, x);
    assert up[1..] == q;
    assert x * Eval(q, x) + -z * Eval(q, x) == (x - z) * Eval(q, x);
  }
}
