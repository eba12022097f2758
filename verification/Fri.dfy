/** Mixing blocks, splitting a block into two of half the length, and the FRI commit rounds. */
module Fri {
  import opened ModArith
  import opened LinearAlgebra
  import opened Polynomials
  import opened Interpolation
  import opened EvaluationDomains
  import opened Prelude

  // ---------------------------------------------------------------- mixing

  /** Entry k of every block: the coefficients of a polynomial in the mixing parameter. */
  function Row(blocks: seq<seq<int>>, k: nat): (row: Poly)
    requires forall i :: 0 <= i < |blocks| ==> k < |blocks[i]|
    ensures |row| == |blocks|
  {
    seq(|blocks|, i requires 0 <= i < |blocks| => blocks[i][k])
  }

  /** All blocks have the length of the first, as the program asserts. */
  predicate SameLength(blocks: seq<seq<int>>) {
    |blocks| > 0 && forall i :: 0 <= i < |blocks| ==> |blocks[i]| == |blocks[0]|
  }

  /** What mix computes: every row, as a polynomial, evaluated at the parameter. */
  function Mixed(p: Modulus, blocks: seq<seq<int>>, parameter: int): (m: seq<int>)
    requires SameLength(blocks)
    ensures |m| == |blocks[0]|
  {
    seq(|blocks[0]|, k requires 0 <= k < |blocks[0]| => Eval(Row(blocks, k), parameter) % p)
  }

  /** Entry k of the mix is the sum over i of entry k of block i times the i-th power of the parameter. */
  lemma {:induction false} MixedIsSum(p: Modulus, blocks: seq<seq<int>>, parameter: int, k: nat)
    requires SameLength(blocks) && k < |blocks[0]|
    ensures Mixed(p, blocks, parameter)[k] == SumOfPowers(blocks, parameter, k, |blocks|) % p
  {
    EvalIsDot(Row(blocks, k), parameter);
    SumIsDot(blocks, parameter, k, |blocks|);
  }

  /** The sum over the first n blocks. */
  function SumOfPowers(blocks: seq<seq<int>>, parameter: int, k: nat, n: nat): int
    requires n <= |blocks| && forall i :: 0 <= i < |blocks| ==> k < |blocks[i]|
  {
    if n == 0 then 0 else SumOfPowers(blocks, parameter, k, n - 1) + blocks[n - 1][k] * Pow(parameter, n - 1)
  }

  lemma {:induction false} SumIsDot(blocks: seq<seq<int>>, parameter: int, k: nat, n: nat)
    requires n <= |blocks| && forall i :: 0 <= i < |blocks| ==> k < |blocks[i]|
    ensures Dot(Row(blocks, k), Powers(parameter, |blocks|), n) == SumOfPowers(blocks, parameter, k, n)
  {
    if n > 0 {
      SumIsDot(blocks, parameter, k, n - 1);
    }
  }

  method Mix(p: Modulus, blocks: seq<seq<int>>, parameter: int) returns (mixed: seq<int>)
    requires SameLength(blocks)
    ensures mixed == Mixed(p, blocks, parameter)
  {
    var n := |blocks[0]|;
    mixed := seq(n, _ => 0);
    for i := 0 to |blocks|
      invariant |mixed| == n
      invariant forall k :: 0 <= k < n ==> mixed[k] == MixedEntry(p, blocks, parameter, i, k)
    {
      var before := mixed;
      mixed := seq(n, k requires 0 <= k < n => (before[k] + blocks[i][k] * ModPow(p, parameter, i)) % p);
      forall k | 0 <= k < n ensures mixed[k] == MixedEntry(p, blocks, parameter, i + 1, k) {
        NextMixedEntry(p, blocks, parameter, i, k);
      }
    }
    forall k | 0 <= k < n ensures mixed[k] == Mixed(p, blocks, parameter)[k] {
      assert Row(blocks, k)[..|blocks|] == Row(blocks, k);
    }
  }

  /** Entry k of the mix of the first i blocks. */
  function MixedEntry(p: Modulus, blocks: seq<seq<int>>, parameter: int, i: nat, k: nat): int
    requires SameLength(blocks) && i <= |blocks| && k < |blocks[0]|
  {
    Eval(Row(blocks, k)[..i], parameter) % p
  }

  lemma NextMixedEntry(p: Modulus, blocks: seq<seq<int>>, parameter: int, i: nat, k: nat)
    requires SameLength(blocks) && i < |blocks| && k < |blocks[0]|
    ensures MixedEntry(p, blocks, parameter, i + 1, k)
         == (MixedEntry(p, blocks, parameter, i, k) + blocks[i][k] * ModPow(p, parameter, i)) % p
  {
    var row := Row(blocks, k);
    assert row[..i + 1] == row[..i] + [row[i]];
    EvalSnoc(row[..i], row[i], parameter);
    MixStep(p, Eval(row[..i], parameter), row[i], Pow(parameter, i));
  }

  lemma MixStep(p: Modulus, e: int, b: int, w: int)
    ensures (e % p + b * (w % p)) % p == (e + b * w) % p
  {
    CongMod(p, e);
    CongMod(p, w);
    CongScale(p, w % p, w, b);
    CongAdd(p, e % p, e, b * (w % p), b * w);
  }

  /**
   * If some block is nonzero in row k, fewer than |blocks| field elements, as mixing parameters,
   * make the mixed block zero there.
   */
  lemma MixingSoundness(p: Modulus, blocks: seq<seq<int>>, k: nat, parameters: seq<int>)
    requires Prime(p) && SameLength(blocks) && k < |blocks[0]|
    requires exists i :: 0 <= i < |blocks| && !Cong(p, blocks[i][k], 0)
    requires Distinct(p, parameters)
    requires forall j :: 0 <= j < |parameters| ==> Mixed(p, blocks, parameters[j])[k] == 0
    ensures |parameters| < |blocks|
  {
    var i :| 0 <= i < |blocks| && !Cong(p, blocks[i][k], 0);
    var row := Row(blocks, k);
    forall j | 0 <= j < |parameters| ensures Cong(p, Eval(row, parameters[j]), 0) {
      assert Mixed(p, blocks, parameters[j])[k] == 0;
    }
    assert !Cong(p, row[i], 0);
    if |parameters| >= |blocks| {
      RootCount(p, row, parameters);
      assert false;
    }
  }

  // ---------------------------------------------------------------- splitting

  /** The coefficients the inverse evaluation matrix finds for a block. */
  function Coefficients(p: Modulus, d: seq<int>, block: seq<int>): (u: Poly)
    requires Prime(p) && Distinct(p, d) && |block| == |d|
    ensures |u| == |d|
  {
    var u := MatVec(InverseVandermonde(p, d), block, |d|);
    seq(|d|, i requires 0 <= i < |d| => u[i] % p)
  }

  lemma CoefficientsOfEvaluations(p: Modulus, d: seq<int>, c: Poly)
    requires Prime(p) && Distinct(p, d) && |c| == |d|
    ensures PolyCong(p, Coefficients(p, d, Evaluations(p, d, c)), c)
  {
    var block := Evaluations(p, d, c);
    forall i | 0 <= i < |d| ensures Cong(p, block[i], Eval(c, d[i])) {
      CongMod(p, Eval(c, d[i]));
    }
    InterpolationRoundTrip(p, d, c, block);
    var u := MatVec(InverseVandermonde(p, d), block, |d|);
    forall i | 0 <= i < |d| ensures Cong(p, u[i] % p, c[i]) {
      CongMod(p, u[i]);
    }
  }

  /** Conversely, the coefficients of a block evaluate to the block. */
  lemma EvalCoefficients(p: Modulus, d: seq<int>, block: seq<int>, i: nat)
    requires Prime(p) && Distinct(p, d) && |block| == |d| && i < |d|
    ensures Cong(p, Eval(Coefficients(p, d, block), d[i]), block[i])
  {
    var u := MatVec(InverseVandermonde(p, d), block, |d|);
    EvalInverseProduct(p, d, block, i);
    forall j | 0 <= j < |d| ensures Cong(p, Coefficients(p, d, block)[j], u[j]) {
      CongMod(p, u[j]);
    }
    EvalCong(p, Coefficients(p, d, block), u, d[i], d[i]);
  }

  lemma EvaluationsOfCoefficients(p: Modulus, d: seq<int>, block: seq<int>)
    requires Prime(p) && Distinct(p, d) && |block| == |d|
    requires forall i :: 0 <= i < |block| ==> 0 <= block[i] < p
    ensures Evaluations(p, d, Coefficients(p, d, block)) == block
  {
    forall i | 0 <= i < |d| ensures Evaluations(p, d, Coefficients(p, d, block))[i] == block[i] {
      EvalCoefficients(p, d, block, i);
      ModUnique(p, Eval(Coefficients(p, d, block), d[i]), block[i]);
    }
  }

  method Split(block: seq<int>, large: EvaluationDomain) returns (v0: seq<int>, v1: seq<int>)
    requires large.Valid() && large.size > 1 && |block| == large.size
    requires Prime(large.p) && Distinct(large.p, large.domain)
    modifies large, large.half
    ensures v0 == Evaluations(large.p, Evens(large.domain), Evens(Coefficients(large.p, large.domain, block)))
    ensures v1 == Evaluations(large.p, Evens(large.domain), Odds(Coefficients(large.p, large.domain, block)))
  {
    var small := large.half;
    var m := large.AsVandermondeMatrix();
    var inverse := InverseVandermonde(large.p, large.domain);
    InverseIsLeft(large.p, large.domain);
    var product := MatVec(inverse, block, large.size);
    // Coefficient form of the input.
    var u := seq(large.size, i requires 0 <= i < large.size => product[i] % large.p);
    // Coefficients of the output polynomials.
    var even := ExtendArray(Evens(u), |small.domain|);
    var odd := ExtendArray(Odds(u), |small.domain|);
    assert even == Evens(u) && odd == Odds(u);
    v0 := small.Evaluate(even);
    v1 := small.Evaluate(odd);
  }

  // ---------------------------------------------------------------- one round of folding

  /** The coefficient fold of one round. */
  function Fold(c: Poly, a: int): (f: Poly)
    ensures |f| == |c| / 2
  {
    seq(|c| / 2, i requires 0 <= i < |c| / 2 => c[2 * i] + a * c[2 * i + 1])
  }

  /** What one round makes of a block. */
  function FoldBlock(p: Modulus, d: seq<int>, block: seq<int>, a: int): (folded: seq<int>)
    requires Prime(p) && Distinct(p, d) && |block| == |d|
    ensures |folded| == |d| / 2
  {
    var u := Coefficients(p, d, block);
    Mixed(p, [Evaluations(p, Evens(d), Evens(u)), Evaluations(p, Evens(d), Odds(u))], a)
  }

  /** Entry i of the folded block is the folded polynomial at the i-th point of the half domain. */
  lemma FoldBlockEntry(p: Modulus, d: seq<int>, block: seq<int>, c: Poly, a: int, i: nat)
    requires Prime(p) && Distinct(p, d) && |block| == |d| && i < |d| / 2
    requires PolyCong(p, Coefficients(p, d, block), c)
    ensures FoldBlock(p, d, block, a)[i] == Eval(Fold(c, a), Evens(d)[i]) % p
  {
    var u, h := Coefficients(p, d, block), Evens(d);
    FoldEntry(p, u, c, a, h[i]);
    var row := Row([Evaluations(p, h, Evens(u)), Evaluations(p, h, Odds(u))], i);
    assert row[1..][1..] == [];
    assert Eval(row[1..], a) == row[1];
  }

  lemma FoldRound(p: Modulus, d: seq<int>, c: Poly, a: int)
    requires Prime(p) && Distinct(p, d) && |c| == |d|
    ensures FoldBlock(p, d, Evaluations(p, d, c), a) == Evaluations(p, Evens(d), Fold(c, a))
  {
    CoefficientsOfEvaluations(p, d, c);
    forall i | 0 <= i < |d| / 2
      ensures FoldBlock(p, d, Evaluations(p, d, c), a)[i] == Evaluations(p, Evens(d), Fold(c, a))[i]
    {
      FoldBlockEntry(p, d, Evaluations(p, d, c), c, a, i);
    }
  }

  lemma FoldEntry(p: Modulus, u: Poly, c: Poly, a: int, y: int)
    requires PolyCong(p, u, c)
    ensures (Eval(Evens(u), y) % p + a * (Eval(Odds(u), y) % p)) % p == Eval(Fold(c, a), y) % p
  {
    var e, o := Eval(Evens(u), y), Eval(Odds(u), y);
    forall j | 0 <= j < |u| / 2 ensures Cong(p, Evens(u)[j], Evens(c)[j]) && Cong(p, Odds(u)[j], Odds(c)[j]) {
    }
    EvalCong(p, Evens(u), Evens(c), y, y);
    EvalCong(p, Odds(u), Odds(c), y, y);
    EvalLinear(Evens(c), Odds(c), a, Fold(c, a), y);
    CongMod(p, e);
    CongMod(p, o);
    CongScale(p, o % p, Eval(Odds(c), y), a);
    CongAdd(p, e % p, Eval(Evens(c), y), a * (o % p), a * Eval(Odds(c), y));
  }

  // ---------------------------------------------------------------- the whole run

  /** The domain after k halvings. */
  function Halved(d: seq<int>, k: nat): seq<int>
    decreases k
  {
    if k == 0 then d else Halved(Evens(d), k - 1)
  }

  lemma {:induction false} HalvedPoints(d: seq<int>, k: nat, i: nat)
    requires Power2(k) * (i + 1) <= |d|
    ensures i < |Halved(d, k)| && Halved(d, k)[i] == d[Power2(k) * i]
    decreases k
  {
    if k > 0 {
      var q := Power2(k - 1);
      StrideBound(q, i, |d|);
      HalvedPoints(Evens(d), k - 1, i);
    }
  }

  lemma StrideBound(q: nat, i: nat, n: nat)
    requires q > 0 && (2 * q) * (i + 1) <= n
    ensures q * (i + 1) <= n / 2 && 0 <= q * i < n / 2 && 2 * (q * i) == (2 * q) * i
  {
    assert (2 * q) * (i + 1) == 2 * (q * (i + 1));
    assert q * (i + 1) == q * i + q;
  }

  function FoldAll(c: Poly, parameters: seq<int>): Poly
    decreases |parameters|
  {
    if parameters == [] then c else FoldAll(Fold(c, parameters[0]), parameters[1..])
  }

  /** Three rounds: the first parameter weighs odd places, the second odd pairs, the third odd fours. */
  lemma {:induction false} ThreeFolds(c: Poly, x: int, y: int, z: int, i: nat)
    requires 8 * i + 7 < |c|
    ensures i < |FoldAll(c, [x, y, z])|
    ensures FoldAll(c, [x, y, z])[i]
         == (c[8 * i] + x * c[8 * i + 1] + y * (c[8 * i + 2] + x * c[8 * i + 3]))
            + z * (c[8 * i + 4] + x * c[8 * i + 5] + y * (c[8 * i + 6] + x * c[8 * i + 7]))
  {
    var ps := [x, y, z];
    var once := Fold(c, x);
    var twice := Fold(once, y);
    assert ps[1..] == [y, z] && [y, z][1..] == [z] && [z][1..] == [];
    assert FoldAll(c, ps) == FoldAll(once, [y, z]) == FoldAll(twice, [z]) == FoldAll(Fold(twice, z), []);
    assert once[4 * i] == c[8 * i] + x * c[8 * i + 1] && once[4 * i + 1] == c[8 * i + 2] + x * c[8 * i + 3];
    assert once[4 * i + 2] == c[8 * i + 4] + x * c[8 * i + 5] && once[4 * i + 3] == c[8 * i + 6] + x * c[8 * i + 7];
  }

  /** What the commit rounds make of a block, one round after the other. */
  function FriBlock(p: Modulus, d: seq<int>, block: seq<int>, parameters: seq<int>): seq<int>
    requires Prime(p) && Distinct(p, d) && |block| == |d|
    decreases |parameters|
  {
    if parameters == [] then block
    else
      EvensDistinct(p, d);
      FriBlock(p, Evens(d), FoldBlock(p, d, block, parameters[0]), parameters[1..])
  }

  method FriCommit(block: seq<int>, input: EvaluationDomain, parameters: seq<int>, total: nat, remaining: nat)
    returns (final: seq<int>)
    requires input.Valid() && |block| == input.size && remaining <= |parameters|
    requires Prime(input.p) && Distinct(input.p, input.domain)
    requires Power2(remaining) <= input.size
    modifies input.Repr()
    ensures final == FriBlock(input.p, input.domain, block, parameters[..remaining])
    decreases remaining
  {
    if remaining == 0 {
      return block;
    }
    assert input.size > 1 && input.half.Repr() <= input.Repr() && input.half in input.half.Repr();
    EvensDistinct(input.p, input.domain);
    var split0, split1 := Split(block, input);
    var commitment := Mix(input.p, [split0, split1], parameters[0]);
    assert parameters[..remaining][1..] == parameters[1..][..remaining - 1];
    final := FriCommit(commitment, input.half, parameters[1..], total, remaining - 1);
  }

  /** The commit rounds, on the evaluations of c, give the evaluations of the folded coefficients. */
  lemma {:induction false} FriFoldsCoefficients(p: Modulus, d: seq<int>, c: Poly, parameters: seq<int>)
    requires Prime(p) && Distinct(p, d) && |c| == |d|
    ensures |FoldAll(c, parameters)| == |Halved(d, |parameters|)|
    ensures FriBlock(p, d, Evaluations(p, d, c), parameters)
         == Evaluations(p, Halved(d, |parameters|), FoldAll(c, parameters))
    decreases |parameters|
  {
    if parameters != [] {
      EvensDistinct(p, d);
      FoldRound(p, d, c, parameters[0]);
      FriFoldsCoefficients(p, Evens(d), Fold(c, parameters[0]), parameters[1..]);
    }
  }

  /** The degree of c is below n. */
  ghost predicate DegreeBelow(p: Modulus, c: Poly, n: nat) {
    forall j :: n <= j < |c| ==> Cong(p, c[j], 0)
  }

  function CeilDiv(n: nat, d: nat): nat
    requires d > 0
  {
    (n + d - 1) / d
  }

  lemma FoldDegree(p: Modulus, c: Poly, a: int, n: nat)
    requires DegreeBelow(p, c, n)
    ensures DegreeBelow(p, Fold(c, a), CeilDiv(n, 2))
  {
    forall j | CeilDiv(n, 2) <= j < |c| / 2 ensures Cong(p, Fold(c, a)[j], 0) {
      CongScale(p, c[2 * j + 1], 0, a);
      CongAdd(p, c[2 * j], 0, a * c[2 * j + 1], 0);
    }
  }

  lemma CeilDivTwice(n: nat, d: nat)
    requires d > 0
    ensures CeilDiv(CeilDiv(n, 2), d) == CeilDiv(n, 2 * d)
  {
    var q, r := (n + 2 * d - 1) / (2 * d), (n + 2 * d - 1) % (2 * d);
    var m := (n + 1) / 2;
    assert n + 2 * d - 1 == 2 * (q * d) + r;
    DivModUnique(m + d - 1, d, q, m + d - 1 - q * d);
  }

  /** k rounds divide a degree bound by 2 to the k, rounding up. */
  lemma {:induction false} FriDegree(p: Modulus, c: Poly, parameters: seq<int>, n: nat)
    requires DegreeBelow(p, c, n)
    ensures DegreeBelow(p, FoldAll(c, parameters), CeilDiv(n, Power2(|parameters|)))
    decreases |parameters|
  {
    if parameters != [] {
      FoldDegree(p, c, parameters[0], n);
      FriDegree(p, Fold(c, parameters[0]), parameters[1..], CeilDiv(n, 2));
      CeilDivTwice(n, Power2(|parameters| - 1));
    }
  }
}
