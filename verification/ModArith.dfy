/** Arithmetic modulo p, stated as congruences between exact integers. */
module ModArith {

  type Modulus = p: int | p >= 2 witness 2

  /** a and b leave the same remainder modulo p. */
  predicate Cong(p: Modulus, a: int, b: int) {
    a % p == b % p
  }

  ghost predicate Prime(p: int) {
    && p >= 2
    && forall d {:trigger p % d} :: 2 <= d < p ==> p % d != 0
  }

  lemma CongByQuotient(p: Modulus, a: int, b: int, k: int)
    requires a == b + k * p
    ensures Cong(p, a, b)
  {
    var qa, ra := a / p, a % p;
    var qb, rb := b / p, b % p;
    assert a == qa * p + ra && b == qb * p + rb;
    assert (qa - qb - k) * p == rb - ra;
    SmallMultiple(p, qa - qb - k);
  }

  lemma SmallMultiple(d: int, k: int)
    requires d > 0
    ensures -d < k * d < d ==> k == 0
  {
    if k >= 1 {
      assert k * d >= d;
    } else if k <= -1 {
      assert k * d <= -d;
    }
  }

  /** How many moduli lie between two congruent integers. */
  function Quotient(p: Modulus, a: int, b: int): (k: int)
    requires Cong(p, a, b)
    ensures a == b + k * p
  {
    assert a == (a / p) * p + a % p && b == (b / p) * p + b % p;
    a / p - b / p
  }

  lemma CongTrans(p: Modulus, a: int, b: int, c: int)
    requires Cong(p, a, b) && Cong(p, b, c)
    ensures Cong(p, a, c)
  {
  }

  lemma CongSym(p: Modulus, a: int, b: int)
    requires Cong(p, a, b)
    ensures Cong(p, b, a)
  {
  }

  lemma CongAdd(p: Modulus, a: int, b: int, c: int, d: int)
    requires Cong(p, a, b) && Cong(p, c, d)
    ensures Cong(p, a + c, b + d)
  {
    var k, l := Quotient(p, a, b), Quotient(p, c, d);
    CongByQuotient(p, a + c, b + d, k + l);
  }

  lemma CongAddTrans(p: Modulus, a: int, b: int, c: int, d: int, e: int)
    requires Cong(p, a, b) && Cong(p, c, d) && Cong(p, b + d, e)
    ensures Cong(p, a + c, e)
  {
    CongAdd(p, a, b, c, d);
  }

  lemma CongSub(p: Modulus, a: int, b: int, c: int, d: int)
    requires Cong(p, a, b) && Cong(p, c, d)
    ensures Cong(p, a - c, b - d)
  {
    var k, l := Quotient(p, a, b), Quotient(p, c, d);
    CongByQuotient(p, a - c, b - d, k - l);
  }

  lemma CongDifference(p: Modulus, a: int, b: int)
    ensures Cong(p, a - b, 0) <==> Cong(p, a, b)
  {
    if Cong(p, a - b, 0) {
      CongAdd(p, a - b, 0, b, b);
    }
    if Cong(p, a, b) {
      CongSub(p, a, b, b, b);
    }
  }

  lemma CongScale(p: Modulus, a: int, b: int, c: int)
    requires Cong(p, a, b)
    ensures Cong(p, a * c, b * c) && Cong(p, c * a, c * b)
  {
    var k := Quotient(p, a, b);
    assert (b + k * p) * c == b * c + (k * c) * p;
    CongByQuotient(p, a * c, b * c, k * c);
  }

  /** Scaling a congruence to a product, with the scale moved into the first factor. */
  lemma CongScaleLeft(p: Modulus, x: int, s: int, a: int, b: int)
    requires Cong(p, x, a * b)
    ensures Cong(p, s * x, (s * a) * b)
  {
    CongScale(p, x, a * b, s);
    assert s * (a * b) == (s * a) * b;
  }

  lemma NonzeroResidue(p: Modulus, x: int)
    ensures x % p != 0 <==> !Cong(p, x % p, 0)
  {
    CongMod(p, x);
  }

  lemma CongMul(p: Modulus, a: int, b: int, c: int, d: int)
    requires Cong(p, a, b) && Cong(p, c, d)
    ensures Cong(p, a * c, b * d)
  {
    CongScale(p, a, b, c);
    CongScale(p, c, d, b);
  }

  lemma CongMod(p: Modulus, a: int)
    ensures 0 <= a % p < p && Cong(p, a % p, a)
  {
    CongByQuotient(p, a % p, a, -(a / p));
  }

  lemma CongSmall(p: Modulus, a: int, b: int)
    requires Cong(p, a, b) && 0 <= a < p && 0 <= b < p
    ensures a == b
  {
    var k := Quotient(p, a, b);
    SmallMultiple(p, k);
  }

  /** The remainder is the only canonical representative. */
  lemma ModUnique(p: Modulus, a: int, r: int)
    requires 0 <= r < p && Cong(p, a, r)
    ensures a % p == r
  {
    CongMod(p, a);
    CongSmall(p, a % p, r);
  }

  /**
   * The reciprocal of a nonzero residue: the quotient step of Euclid's algorithm, p == q*a + r,
   * gives r == -q*a modulo p, so the reciprocal of a is -q times that of r.
   */
  function Inverse(p: Modulus, a: int): (r: int)
    requires Prime(p) && 0 < a < p
    ensures 0 < r < p && Cong(p, a * r, 1)
    decreases a
  {
    if a == 1 then 1
    else
      var rest := Inverse(p, p % a);
      var r := (-(p / a) * rest) % p;
      assert 0 < r < p && Cong(p, a * r, 1) by { InverseStep(p, a, rest); }
      r
  }

  lemma EuclidStep(p: int, q: int, a: int, m: int, rest: int)
    requires p == q * a + m
    ensures a * (-q * rest) == m * rest + (-rest) * p
  {
    assert (-rest) * p == (-rest) * (q * a) + (-rest) * m;
    assert (-rest) * (q * a) == a * (-q * rest);
  }

  lemma InverseStep(p: Modulus, a: int, rest: int)
    requires 1 < a < p && Cong(p, (p % a) * rest, 1)
    ensures var r := (-(p / a) * rest) % p; 0 < r < p && Cong(p, a * r, 1)
  {
    var q, m := p / a, p % a;
    var e := -q * rest;
    EuclidStep(p, q, a, m, rest);
    CongByQuotient(p, a * e, m * rest, -rest);
    CongMod(p, e);
    CongScale(p, e % p, e, a);
    assert e % p != 0;
  }

  /** A prime divides a product only if it divides a factor. */
  lemma NoZeroDivisors(p: Modulus, a: int, b: int)
    requires Prime(p) && Cong(p, a * b, 0) && !Cong(p, a, 0)
    ensures Cong(p, b, 0)
  {
    CongMod(p, a);
    assert a % p != 0;
    var r := Inverse(p, a % p);
    CongScale(p, a % p, a, r);
    CongScale(p, a * r, 1, b);
    CongScale(p, a * b, 0, r);
    SwapFactors(a, r, b);
  }

  lemma SwapFactors(a: int, b: int, c: int)
    ensures (a * b) * c == (a * c) * b
  {
  }
}
