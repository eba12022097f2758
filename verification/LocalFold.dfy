/**
 * The local form of a FRI round: on a multiplicative subgroup of even order, the folded value at a
 * point depends only on the block at that point and at its negative.
 */
module LocalFold {
  import opened LinearAlgebra
  import opened ModArith
  import opened Polynomials
  import opened Interpolation
  import opened EvaluationDomains
  import opened Fri

  /** The n-th power of g is 1 and no smaller positive power is. */
  ghost predicate ExactOrder(p: Modulus, g: int, n: nat) {
    Cong(p, Pow(g, n), 1) && OrderAtLeast(p, g, n)
  }

  /** u(x) == even(x^2) + x * odd(x^2), the relation between a block and its two halves. */
  lemma {:induction false} EvenOdd(c: Poly, x: int)
    requires |c| % 2 == 0
    ensures Eval(c, x) == Eval(Evens(c), x * x) + x * Eval(Odds(c), x * x)
    decreases |c|
  {
    if c != [] {
      var d := c[2..];
      EvenOdd(d, x);
      assert c[1..][1..] == d;
      assert Evens(c)[1..] == Evens(d) && Odds(c)[1..] == Odds(d);
      EvenOddStep(c[0], c[1], Eval(Evens(d), x * x), Eval(Odds(d), x * x), x);
    }
  }

  lemma EvenOddStep(c0: int, c1: int, e: int, o: int, x: int)
    ensures c0 + x * (c1 + x * (e + x * o)) == (c0 + (x * x) * e) + x * (c1 + (x * x) * o)
  {
    var s := x * o;
    assert x * (x * (e + s)) == (x * x) * e + (x * x) * s;
    assert (x * x) * s == x * ((x * x) * o);
    assert x * (c1 + x * (e + s)) == x * c1 + x * (x * (e + s));
    assert x * (c1 + (x * x) * o) == x * c1 + x * ((x * x) * o);
  }

  /** The half-way power of an element of exact even order is -1. */
  lemma HalfPower(p: Modulus, g: int, n: nat)
    requires Prime(p) && n > 0 && n % 2 == 0 && ExactOrder(p, g, n)
    ensures Cong(p, Pow(g, n / 2), -1) && !Cong(p, 2, 0) && !Cong(p, g, 0)
  {
    var h := Pow(g, n / 2);
    PowAdd(g, n / 2, n / 2);
    assert Cong(p, h * h, 1);
    assert !Cong(p, h, 1);
    CongSub(p, h * h, 1, 1, 1);
    assert (h - 1) * (h + 1) == h * h - 1;
    NonzeroDifference(p, h, 1);
    NoZeroDivisors(p, h - 1, h + 1);
    CongSub(p, h + 1, 0, 1, 1);
    if Cong(p, 2, 0) {
      CongAdd(p, 2, 0, -1, -1);
      assert false;
    }
    if Cong(p, g, 0) {
      CongScale(p, g, 0, Pow(g, n - 1));
      assert Cong(p, 0, 1);
      CongSmall(p, 0, 1);
      assert false;
    }
  }

  /** The two points whose values are folded together are negatives of each other. */
  lemma OppositePoint(p: Modulus, shift: int, g: int, n: nat, i: nat)
    requires Prime(p) && n % 2 == 0 && ExactOrder(p, g, n) && i < n / 2
    ensures var d := ShiftedPowers(p, shift, g, n);
            Cong(p, d[i + n / 2], -d[i])
  {
    var d := ShiftedPowers(p, shift, g, n);
    HalfPower(p, g, n);
    ShiftedPowerCong(p, shift, g, n, i);
    ShiftedPowerCong(p, shift, g, n, i + n / 2);
    PowAdd(g, i, n / 2);
    Negated(p, d[i], d[i + n / 2], shift, Pow(g, i), Pow(g, n / 2));
  }

  lemma Negated(p: Modulus, x: int, y: int, s: int, a: int, h: int)
    requires Cong(p, x, s * a) && Cong(p, y, s * (a * h)) && Cong(p, h, -1)
    ensures Cong(p, y, -x)
  {
    CongScale(p, h, -1, s * a);
    assert s * (a * h) == (s * a) * h;
    CongScale(p, x, s * a, -1);
    assert -1 * (s * a) == (s * a) * -1;
    assert -1 * x == -x;
  }

  /** (f(x) + f(-x)) / 2 + a * (f(x) - f(-x)) / (2x), for f the values of a block. */
  function LocallyFolded(p: Modulus, x: int, atX: int, atMinusX: int, a: int): int
    requires Prime(p) && !Cong(p, 2, 0) && !Cong(p, 2 * x, 0)
  {
    (FieldReciprocal(p, 2) * (atX + atMinusX) + a * (FieldReciprocal(p, 2 * x) * (atX - atMinusX))) % p
  }

  lemma HalfSum(p: Modulus, r: int, m: int, e: int, s: int)
    requires Cong(p, m * r, 1) && Cong(p, s, m * e)
    ensures Cong(p, r * s, e)
  {
    CongScale(p, s, m * e, r);
    assert r * (m * e) == (m * r) * e;
    CongScale(p, m * r, 1, e);
  }

  lemma SumAndDifference(e: int, o: int, x: int)
    ensures -x * -x == x * x
    ensures (e + x * o) + (e + -x * o) == 2 * e && (e + x * o) - (e + -x * o) == (2 * x) * o
  {
  }

  /** The local fold finds the even and odd parts at the square of the point. */
  lemma LocallyFoldedIsSquare(p: Modulus, x: int, fx: int, fm: int, a: int, u: Poly)
    requires Prime(p) && !Cong(p, 2, 0) && !Cong(p, 2 * x, 0) && |u| % 2 == 0
    requires Cong(p, fx, Eval(u, x)) && Cong(p, fm, Eval(u, -x))
    ensures LocallyFolded(p, x, fx, fm, a) == Eval(Fold(u, a), x * x) % p
  {
    var e, o := Eval(Evens(u), x * x), Eval(Odds(u), x * x);
    EvenOdd(u, x);
    EvenOdd(u, -x);
    hide Cong;
    SumAndDifference(e, o, x);
    CongAdd(p, fx, e + x * o, fm, e + -x * o);
    CongSub(p, fx, e + x * o, fm, e + -x * o);
    var r, t := FieldReciprocal(p, 2), FieldReciprocal(p, 2 * x);
    HalfSum(p, r, 2, e, fx + fm);
    HalfSum(p, t, 2 * x, o, fx - fm);
    CongScale(p, t * (fx - fm), o, a);
    CongAdd(p, r * (fx + fm), e, a * (t * (fx - fm)), a * o);
    EvalLinear(Evens(u), Odds(u), a, Fold(u, a), x * x);
  }

  /** The points of the domain are invertible, and so is twice each of them. */
  lemma PointsInvertible(p: Modulus, shift: int, g: int, n: nat, i: nat)
    requires Prime(p) && !Cong(p, shift, 0) && n % 2 == 0 && ExactOrder(p, g, n) && i < n
    ensures !Cong(p, 2, 0) && !Cong(p, 2 * ShiftedPowers(p, shift, g, n)[i], 0)
    ensures Distinct(p, ShiftedPowers(p, shift, g, n))
  {
    var x := ShiftedPowers(p, shift, g, n)[i];
    HalfPower(p, g, n);
    ShiftedPowersDistinct(p, shift, g, n);
    ShiftedPowerCong(p, shift, g, n, i);
    PowNonzero(p, g, i);
    if Cong(p, shift * Pow(g, i), 0) {
      NoZeroDivisors(p, shift, Pow(g, i));
    }
    if Cong(p, 2 * x, 0) {
      NoZeroDivisors(p, 2, x);
    }
  }

  /** The local fold of a block at point i of the domain. */
  ghost function LocalFoldAt(p: Modulus, shift: int, g: int, n: nat, block: seq<int>, a: int, i: nat): int
    requires Prime(p) && !Cong(p, shift, 0) && n % 2 == 0 && ExactOrder(p, g, n)
    requires |block| == n && i < n / 2
  {
    PointsInvertible(p, shift, g, n, i);
    LocallyFolded(p, ShiftedPowers(p, shift, g, n)[i], block[i], block[i + n / 2], a)
  }

  /** On any shift, the local fold is the folded polynomial at the square of the point. */
  lemma LocalFoldAtSquare(p: Modulus, shift: int, g: int, n: nat, d: seq<int>, block: seq<int>, a: int, i: nat)
    requires Prime(p) && !Cong(p, shift, 0) && n % 2 == 0 && ExactOrder(p, g, n)
    requires |block| == n && i < n / 2
    requires d == ShiftedPowers(p, shift, g, n) && Distinct(p, d)
    ensures LocalFoldAt(p, shift, g, n, block, a, i) == Eval(Fold(Coefficients(p, d, block), a), d[i] * d[i]) % p
  {
    var u := Coefficients(p, d, block);
    PointsInvertible(p, shift, g, n, i);
    EvalCoefficients(p, d, block, i);
    EvalCoefficients(p, d, block, i + n / 2);
    OppositePoint(p, shift, g, n, i);
    EvalCongPoint(p, u, d[i + n / 2], -d[i]);
    LocallyFoldedIsSquare(p, d[i], block[i], block[i + n / 2], a, u);
  }

  /** Point i of the half domain times the shift is the square of point i. */
  lemma SquareOfPoint(p: Modulus, shift: int, g: int, n: nat, i: nat)
    requires i < n / 2
    ensures var d := ShiftedPowers(p, shift, g, n);
            Cong(p, d[i] * d[i], shift * Evens(d)[i])
  {
    var d := ShiftedPowers(p, shift, g, n);
    var a := Pow(g, i);
    ShiftedPowerCong(p, shift, g, n, i);
    ShiftedPowerCong(p, shift, g, n, 2 * i);
    PowAdd(g, i, i);
    CongMul(p, d[i], shift * a, d[i], shift * a);
    CongScale(p, d[2 * i], shift * (a * a), shift);
    assert (shift * a) * (shift * a) == shift * (shift * (a * a));
  }

  /** What the matrix form of a round computes is the local fold at every point and for every block. */
  ghost predicate RoundsAreLocal(p: Modulus, shift: int, g: int, n: nat)
    requires Prime(p) && !Cong(p, shift, 0) && n > 0 && n % 2 == 0 && ExactOrder(p, g, n)
  {
    PointsInvertible(p, shift, g, n, 0);
    forall block: seq<int>, a, i | |block| == n && 0 <= i < n / 2 ::
      FoldBlock(p, ShiftedPowers(p, shift, g, n), block, a)[i] == LocalFoldAt(p, shift, g, n, block, a, i)
  }

  lemma RoundIsLocal(p: Modulus, shift: int, g: int, n: nat, block: seq<int>, a: int, i: nat)
    requires Prime(p) && !Cong(p, shift, 0) && n % 2 == 0 && ExactOrder(p, g, n)
    requires |block| == n && i < n / 2 && Distinct(p, ShiftedPowers(p, shift, g, n))
    requires n == 2 || Cong(p, shift, 1)
    ensures FoldBlock(p, ShiftedPowers(p, shift, g, n), block, a)[i] == LocalFoldAt(p, shift, g, n, block, a, i)
  {
    var d := ShiftedPowers(p, shift, g, n);
    var u := Coefficients(p, d, block);
    LocalFoldAtSquare(p, shift, g, n, d, block, a, i);
    FoldBlockEntry(p, d, block, u, a, i);
    if n == 2 {
      assert Fold(u, a)[1..] == [];
    } else {
      SquareOfPoint(p, shift, g, n, i);
      CongScale(p, shift, 1, Evens(d)[i]);
      EvalCongPoint(p, Fold(u, a), d[i] * d[i], Evens(d)[i]);
    }
  }

  /** The first point of a domain is its shift. */
  lemma FirstPoint(p: Modulus, shift: int, g: int, n: nat)
    requires n > 0
    ensures Cong(p, ShiftedPowers(p, shift, g, n)[0], shift)
  {
    ShiftedPowerCong(p, shift, g, n, 0);
    assert shift * Pow(g, 0) == shift;
  }

  lemma FoldOfSquare(n: nat, y: int)
    requires n > 2 && n % 2 == 0
    ensures Eval(Fold(Unit(n, 2), 0), y) == y
  {
    assert Fold(Unit(n, 2), 0) == Unit(n / 2, 1);
    EvalUnit(n / 2, 1, y);
    assert Pow(y, 1) == y * Pow(y, 0) == y;
  }

  lemma FoldCong(p: Modulus, u: Poly, c: Poly, a: int, y: int)
    requires PolyCong(p, u, c)
    ensures Cong(p, Eval(Fold(u, a), y), Eval(Fold(c, a), y))
  {
    forall j | 0 <= j < |u| / 2 ensures Cong(p, Fold(u, a)[j], Fold(c, a)[j]) {
      CongScale(p, u[2 * j + 1], c[2 * j + 1], a);
      CongAdd(p, u[2 * j], c[2 * j], a * u[2 * j + 1], a * c[2 * j + 1]);
    }
    EvalCong(p, Fold(u, a), Fold(c, a), y, y);
  }

  /** On the block of X^2 the round gives the first point itself, the local form its square. */
  lemma SquareBlock(p: Modulus, shift: int, g: int, n: nat, d: seq<int>, block: seq<int>)
    requires Prime(p) && !Cong(p, shift, 0) && n > 2 && n % 2 == 0 && ExactOrder(p, g, n)
    requires d == ShiftedPowers(p, shift, g, n) && Distinct(p, d) && block == Evaluations(p, d, Unit(n, 2))
    ensures FoldBlock(p, d, block, 0)[0] == d[0] % p
    ensures LocalFoldAt(p, shift, g, n, block, 0, 0) == (d[0] * d[0]) % p
  {
    var c := Unit(n, 2);
    CoefficientsOfEvaluations(p, d, c);
    FoldBlockEntry(p, d, block, c, 0, 0);
    FoldOfSquare(n, d[0]);
    LocalFoldAtSquare(p, shift, g, n, d, block, 0, 0);
    FoldCong(p, Coefficients(p, d, block), c, 0, d[0] * d[0]);
    FoldOfSquare(n, d[0] * d[0]);
  }

  /** With four points or more, the block of X^2 betrays any other shift. */
  lemma SquareBlockIsNotLocal(p: Modulus, shift: int, g: int, n: nat)
    requires Prime(p) && !Cong(p, shift, 0) && n > 2 && n % 2 == 0 && ExactOrder(p, g, n)
    requires RoundsAreLocal(p, shift, g, n)
    ensures Cong(p, shift, 1)
  {
    PointsInvertible(p, shift, g, n, 0);
    var d := ShiftedPowers(p, shift, g, n);
    var block := Evaluations(p, d, Unit(n, 2));
    SquareBlock(p, shift, g, n, d, block);
    assert FoldBlock(p, d, block, 0)[0] == LocalFoldAt(p, shift, g, n, block, 0, 0);
    FirstPoint(p, shift, g, n);
    OnlyOneIsItsSquare(p, d[0]);
  }

  lemma OnlyOneIsItsSquare(p: Modulus, x: int)
    requires Prime(p) && !Cong(p, x, 0) && Cong(p, x, x * x)
    ensures Cong(p, x, 1)
  {
    assert x * 1 == x;
    Cancel(p, x, x, 1);
  }

  /**
   * A FRI round agrees with its local form, for all blocks and parameters, exactly when the domain
   * has two points or its shift is 1: the half domain takes every other point, which for another
   * shift are not the squares.
   */
  lemma RoundsAreLocalIff(p: Modulus, shift: int, g: int, n: nat)
    requires Prime(p) && !Cong(p, shift, 0) && n > 0 && n % 2 == 0 && ExactOrder(p, g, n)
    ensures RoundsAreLocal(p, shift, g, n) <==> n == 2 || Cong(p, shift, 1)
  {
    PointsInvertible(p, shift, g, n, 0);
    if n == 2 || Cong(p, shift, 1) {
      forall block: seq<int>, a, i | |block| == n && 0 <= i < n / 2
        ensures FoldBlock(p, ShiftedPowers(p, shift, g, n), block, a)[i] == LocalFoldAt(p, shift, g, n, block, a, i)
      {
        RoundIsLocal(p, shift, g, n, block, a, i);
      }
    } else if RoundsAreLocal(p, shift, g, n) {
      SquareBlockIsNotLocal(p, shift, g, n);
    }
  }
}
