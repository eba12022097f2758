/** Evaluation domains: points of a prime field and the blocks of evaluations taken over them. */
module EvaluationDomains {
  import opened ModArith
  import opened LinearAlgebra
  import opened Polynomials
  import opened Interpolation

  /** Modular exponentiation; as in the program, 0 to the 0 is 1. */
  function ModPow(p: Modulus, base: int, exp: nat): int {
    Pow(base, exp) % p
  }

  /** The reciprocal of a field element; the program raises an error for zero. */
  function FieldReciprocal(p: Modulus, x: int): (r: int)
    requires Prime(p) && !Cong(p, x, 0)
    ensures 0 < r < p && Cong(p, x * r, 1)
  {
    CongMod(p, x);
    CongScale(p, x % p, x, Inverse(p, x % p));
    Inverse(p, x % p)
  }

  /** The powers of a generator, times a shift. */
  function ShiftedPowers(p: Modulus, shift: int, generator: int, size: nat): (d: seq<int>)
    ensures |d| == size
  {
    seq(size, i requires 0 <= i < size => (shift * ModPow(p, generator, i)) % p)
  }

  /** Every other point, the points of the domain of half the size. */
  function Evens(d: seq<int>): (h: seq<int>)
    ensures |h| == |d| / 2
  {
    seq(|d| / 2, i requires 0 <= i < |d| / 2 => d[2 * i])
  }

  function Odds(d: seq<int>): (h: seq<int>)
    ensures |h| == |d| / 2
  {
    seq(|d| / 2, i requires 0 <= i < |d| / 2 => d[2 * i + 1])
  }

  /** The block of a polynomial: its value at every point, reduced. */
  function Evaluations(p: Modulus, d: seq<int>, c: Poly): (block: seq<int>)
    ensures |block| == |d|
  {
    seq(|d|, j requires 0 <= j < |d| => Eval(c, d[j]) % p)
  }

  /** A domain knows its size, its points, the domain of half the size, and its last commitment. */
  class EvaluationDomain {
    const p: Modulus
    const size: nat
    const domain: seq<int>
    const half: EvaluationDomain?
    var evaluationMatrix: Matrix
    var commitment: seq<int>

    ghost predicate Valid()
      decreases size
    {
      && size == |domain|
      && (size > 1 ==> half != null && half.size < size && half.p == p && half.domain == Evens(domain) && half.Valid())
    }

    /** This domain and the smaller ones inside it. */
    ghost function Repr(): set<object>
      requires Valid()
      decreases size
    {
      if size > 1 then {this} + half.Repr() else {this}
    }

    constructor (p: Modulus, points: seq<int>)
      ensures Valid() && this.p == p && domain == points && fresh(Repr())
      decreases |points|
    {
      this.p := p;
      size := |points|;
      domain := points;
      if |points| > 1 {
        half := new EvaluationDomain(p, Evens(points));
      } else {
        half := null;
      }
      evaluationMatrix := [];
      commitment := [];
    }

    method AsVandermondeMatrix() returns (m: Matrix)
      requires Valid()
      modifies this`evaluationMatrix
      ensures m == evaluationMatrix == Vandermonde(p, domain)
    {
      evaluationMatrix := Vandermonde(p, domain);
      m := evaluationMatrix;
    }

    method Evaluate(coeffs: Poly) returns (block: seq<int>)
      requires Valid() && |coeffs| <= size
      modifies this
      ensures block == commitment == Evaluations(p, domain, coeffs)
      ensures evaluationMatrix == Vandermonde(p, domain)
    {
      var m := AsVandermondeMatrix();
      var long := ExtendArray(coeffs, size);
      commitment := seq(size, j requires 0 <= j < size => Dot(m[j], long, size) % p);
      forall j | 0 <= j < size ensures commitment[j] == Eval(coeffs, domain[j]) % p {
        VandermondeRow(p, domain, long, j);
        EvalPadded(coeffs, long, domain[j]);
      }
      block := commitment;
    }
  }

  method FromShiftGeneratorSize(p: Modulus, shift: int, generator: int, size: nat) returns (d: EvaluationDomain)
    ensures d.Valid() && d.p == p && d.domain == ShiftedPowers(p, shift, generator, size) && fresh(d.Repr())
  {
    d := new EvaluationDomain(p, ShiftedPowers(p, shift, generator, size));
  }

  /** Copies a short array to the front of a zero array; the program asserts that it fits. */
  method ExtendArray(shortArray: seq<int>, length: nat) returns (long: seq<int>)
    requires |shortArray| <= length
    ensures long == Extend(shortArray, length)
  {
    long := seq(length, _ => 0);
    for i := 0 to |shortArray|
      invariant |long| == length
      invariant forall q :: 0 <= q < i ==> long[q] == shortArray[q]
      invariant forall q :: i <= q < length ==> long[q] == 0
    {
      long := long[i := shortArray[i]];
    }
  }

  // ---------------------------------------------------------------- which domains have distinct points

  /** No smaller positive power of g than the n-th is 1. */
  ghost predicate OrderAtLeast(p: Modulus, g: int, n: nat) {
    forall k :: 0 < k < n ==> !Cong(p, Pow(g, k), 1)
  }

  lemma {:induction false} PowAdd(x: int, m: nat, n: nat)
    ensures Pow(x, m + n) == Pow(x, m) * Pow(x, n)
  {
    if m > 0 {
      PowAdd(x, m - 1, n);
      assert x * (Pow(x, m - 1) * Pow(x, n)) == (x * Pow(x, m - 1)) * Pow(x, n);
    }
  }

  lemma {:induction false} PowNonzero(p: Modulus, x: int, n: nat)
    requires Prime(p) && !Cong(p, x, 0)
    ensures !Cong(p, Pow(x, n), 0)
  {
    if n > 0 {
      PowNonzero(p, x, n - 1);
      if Cong(p, x * Pow(x, n - 1), 0) {
        NoZeroDivisors(p, x, Pow(x, n - 1));
      }
    }
  }

  /** Point i is the shift times the i-th power of the generator. */
  lemma ShiftedPowerCong(p: Modulus, shift: int, generator: int, size: nat, i: nat)
    requires i < size
    ensures Cong(p, ShiftedPowers(p, shift, generator, size)[i], shift * Pow(generator, i))
  {
    CongMod(p, Pow(generator, i));
    CongScale(p, ModPow(p, generator, i), Pow(generator, i), shift);
    CongMod(p, shift * ModPow(p, generator, i));
  }

  /** A nonzero factor can be cancelled. */
  lemma Cancel(p: Modulus, a: int, x: int, y: int)
    requires Prime(p) && !Cong(p, a, 0) && Cong(p, a * x, a * y)
    ensures Cong(p, x, y)
  {
    CongSub(p, a * x, a * y, a * y, a * y);
    assert a * x - a * y == a * (x - y);
    NoZeroDivisors(p, a, x - y);
    CongAdd(p, x - y, 0, y, y);
  }

  /** For invertible shift and generator, the points are distinct exactly when the order is large enough. */
  lemma ShiftedPowersDistinct(p: Modulus, shift: int, generator: int, size: nat)
    requires Prime(p) && !Cong(p, shift, 0) && !Cong(p, generator, 0)
    ensures Distinct(p, ShiftedPowers(p, shift, generator, size)) <==> OrderAtLeast(p, generator, size)
  {
    var d := ShiftedPowers(p, shift, generator, size);
    forall i, j | 0 <= i < j < size
      ensures Cong(p, d[i], d[j]) <==> Cong(p, Pow(generator, j - i), 1)
    {
      SamePoint(p, shift, generator, size, i, j);
    }
    if Distinct(p, d) {
      forall k | 0 < k < size ensures !Cong(p, Pow(generator, k), 1) {
        assert !Cong(p, d[0], d[k]);
      }
    }
  }

  lemma SamePoint(p: Modulus, shift: int, generator: int, size: nat, i: nat, j: nat)
    requires Prime(p) && !Cong(p, shift, 0) && !Cong(p, generator, 0) && i < j < size
    ensures var d := ShiftedPowers(p, shift, generator, size);
            Cong(p, d[i], d[j]) <==> Cong(p, Pow(generator, j - i), 1)
  {
    var a := shift * Pow(generator, i);
    var b := shift * Pow(generator, j);
    ShiftedPowerCong(p, shift, generator, size, i);
    ShiftedPowerCong(p, shift, generator, size, j);
    PowAdd(generator, i, j - i);
    assert b == a * Pow(generator, j - i);
    if Cong(p, a * 1, a * Pow(generator, j - i)) {
      PowNonzero(p, generator, i);
      if Cong(p, a, 0) {
        NoZeroDivisors(p, shift, Pow(generator, i));
      }
      Cancel(p, a, 1, Pow(generator, j - i));
    } else if Cong(p, Pow(generator, j - i), 1) {
      CongScale(p, Pow(generator, j - i), 1, a);
    }
  }

  /** Taking every other point keeps the points distinct. */
  lemma EvensDistinct(p: Modulus, d: seq<int>)
    requires Distinct(p, d)
    ensures Distinct(p, Evens(d))
  {
    forall i, j | 0 <= i < j < |d| / 2 ensures !Cong(p, Evens(d)[i], Evens(d)[j]) {
      assert !Cong(p, d[2 * i], d[2 * j]);
    }
  }
}
