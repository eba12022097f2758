/** From the committed blocks to the last block: DEEP quotients, their mix, and the three commit rounds on it. */
module StarkBatching {
  import opened ModArith
  import opened LinearAlgebra
  import opened Polynomials
  import opened Interpolation
  import opened EvaluationDomains
  import opened Fri
  import opened FriSoundness
  import opened Prelude
  import opened Quotients
  import opened StarkPipeline

  // ---------------------------------------------------------------- blocks of low degree

  ghost predicate Reduced(p: Modulus, block: seq<int>) {
    forall i :: 0 <= i < |block| ==> 0 <= block[i] < p
  }

  /** Blocks of field elements, one for every point. */
  ghost predicate BlocksOn(p: Modulus, d: seq<int>, blocks: seq<seq<int>>) {
    |blocks| > 0 && forall k :: 0 <= k < |blocks| ==> |blocks[k]| == |d| && Reduced(p, blocks[k])
  }

  lemma {:induction false} EvaluationsPadded(p: Modulus, d: seq<int>, c: Poly, n: nat)
    requires |c| <= n
    ensures Evaluations(p, d, Extend(c, n)) == Evaluations(p, d, c)
  {
    forall i | 0 <= i < |d| ensures Evaluations(p, d, Extend(c, n))[i] == Evaluations(p, d, c)[i] {
      EvalPadded(c, Extend(c, n), d[i]);
    }
  }

  /** The value does not depend on high coefficients that are zero. */
  lemma {:induction false} LowPartValue(p: Modulus, c: Poly, m: nat, x: int)
    requires m <= |c| && DegreeBelow(p, c, m)
    ensures Eval(c[..m], x) % p == Eval(c, x) % p
  {
    var e := Extend(c[..m], |c|);
    EvalPadded(c[..m], e, x);
    forall j | 0 <= j < |c| ensures Cong(p, e[j], c[j]) {
    }
    EvalCong(p, e, c, x, x);
  }

  /** A block has few coefficients exactly when the high ones of its interpolation are zero. */
  lemma {:induction false} LowDegreeIff(p: Modulus, d: seq<int>, c: Poly, n: nat)
    requires Prime(p) && Distinct(p, d) && |c| == |d| && n <= |d|
    ensures IsLowDegree(p, d, Evaluations(p, d, c), n) <==> DegreeBelow(p, c, n)
  {
    var block := Evaluations(p, d, c);
    if DegreeBelow(p, c, n) {
      forall i | 0 <= i < |d| ensures Evaluations(p, d, c[..n])[i] == block[i] {
        LowPartValue(p, c, n, d[i]);
      }
      assert Evaluations(p, d, c[..n]) == block;
    }
    if IsLowDegree(p, d, block, n) {
      var q: Poly :| |q| == n && Evaluations(p, d, q) == block;
      var e := Extend(q, |d|);
      EvaluationsPadded(p, d, q, |d|);
      forall i | 0 <= i < |d| ensures Cong(p, Eval(c, d[i]), Eval(e, d[i])) {
        assert Evaluations(p, d, e)[i] == block[i];
      }
      Identity(p, c, e, d);
    }
  }

  /** A DEEP quotient of n coefficients comes from a block of n + 1, whatever value was claimed. */
  lemma {:induction false} DeepSource(p: Modulus, d: seq<int>, block: seq<int>, z: int, e: int, n: nat)
    requires Prime(p) && Outside(p, d, z) && |block| == |d| && Reduced(p, block)
    requires IsLowDegree(p, d, DeepQuotient(p, d, block, z, e), n)
    ensures IsLowDegree(p, d, block, n + 1)
  {
    var q: Poly :| |q| == n && Evaluations(p, d, q) == DeepQuotient(p, d, block, z, e);
    var c := MinusConstant(TimesLinear(q, z), -e);
    forall i | 0 <= i < |d| ensures Evaluations(p, d, c)[i] == block[i] {
      DeepSourceEntry(p, d, block, z, e, q, i);
      ModUnique(p, Eval(c, d[i]), block[i]);
    }
    assert Evaluations(p, d, c) == block;
  }

  lemma {:induction false} DeepSourceEntry(
      p: Modulus, d: seq<int>, block: seq<int>, z: int, e: int, q: Poly, i: nat)
    requires Prime(p) && Outside(p, d, z) && |block| == |d| && i < |d|
    requires Evaluations(p, d, q)[i] == DeepQuotient(p, d, block, z, e)[i]
    ensures Cong(p, Eval(MinusConstant(TimesLinear(q, z), -e), d[i]), block[i])
  {
    var x := d[i];
    NonzeroDifference(p, x, z);
    QuotientEntry(p, block[i] - e, x - z, Eval(q, x));
    EvalMinusConstant(TimesLinear(q, z), -e, x);
    EvalTimesLinear(q, z, x);
    CongAdd(p, block[i] - e, (x - z) * Eval(q, x), e, e);
    CongSym(p, block[i], (x - z) * Eval(q, x) + e);
  }

  /** A DEEP quotient has n coefficients exactly when the claim is true and the block has n + 1. */
  lemma {:induction false} DeepLowIff(p: Modulus, d: seq<int>, c: Poly, z: int, e: int, n: nat)
    requires Prime(p) && Distinct(p, d) && Outside(p, d, z) && |c| == |d| && n < |d|
    ensures IsLowDegree(p, d, DeepQuotient(p, d, Evaluations(p, d, c), z, e), n)
       <==> Cong(p, e, Eval(c, z)) && DegreeBelow(p, c, n + 1)
  {
    hide IsLowDegree;
    var block := Evaluations(p, d, c);
    var quotient := DeepQuotient(p, d, block, z, e);
    if IsLowDegree(p, d, quotient, n) {
      DeepSource(p, d, block, z, e, n);
      LowDegreeIff(p, d, c, n + 1);
      LowerIsLow(p, d, quotient, n, |d| - 1);
      DeepIff(p, d, c, z, e);
    }
    if Cong(p, e, Eval(c, z)) && DegreeBelow(p, c, n + 1) {
      var low := c[..n + 1];
      forall i | 0 <= i < |d| ensures Evaluations(p, d, low)[i] == block[i] {
        LowPartValue(p, c, n + 1, d[i]);
      }
      assert Evaluations(p, d, low) == block;
      LowPartValue(p, c, n + 1, z);
      DeepComplete(p, d, low, z, e);
    }
  }

  // ---------------------------------------------------------------- mixing blocks and mixing coefficients

  /** Mixing the coefficients and mixing the values are the same. */
  lemma {:induction false} MixedEvaluations(p: Modulus, d: seq<int>, cs: seq<Poly>, blocks: seq<seq<int>>, b: int)
    requires SameLength(cs) && |blocks| == |cs|
    requires forall k :: 0 <= k < |cs| ==> blocks[k] == Evaluations(p, d, cs[k])
    ensures SameLength(blocks) && Mixed(p, blocks, b) == Evaluations(p, d, Mixed(p, cs, b))
  {
    var m, n := |cs|, |cs[0]|;
    var mixed := VecMat(Powers(b, m), cs, m, n);
    forall j | 0 <= j < n ensures Cong(p, mixed[j], Mixed(p, cs, b)[j]) {
      MixedCoefficient(p, cs, b, j);
    }
    forall i | 0 <= i < |d| ensures Mixed(p, blocks, b)[i] == Evaluations(p, d, Mixed(p, cs, b))[i] {
      forall k | 0 <= k < m ensures Cong(p, Row(blocks, i)[k], Eval(cs[k], d[i])) {
        CongMod(p, Eval(cs[k], d[i]));
      }
      EvalMixedPoly(p, cs, m, n, b, d[i], Row(blocks, i));
      EvalCong(p, mixed, Mixed(p, cs, b), d[i], d[i]);
    }
  }

  lemma {:induction false} MixedCoefficient(p: Modulus, cs: seq<Poly>, b: int, j: nat)
    requires SameLength(cs) && j < |cs[0]|
    ensures Cong(p, VecMat(Powers(b, |cs|), cs, |cs|, |cs[0]|)[j], Mixed(p, cs, b)[j])
  {
    var m, row := |cs|, Row(cs, j);
    CombineIsDot(Powers(b, m), cs, m, j, row);
    DotSymmetric(Powers(b, m), row, m);
    EvalIsDot(row, b);
    CongMod(p, Eval(row, b));
  }

  /** A block's polynomial of n coefficients. */
  ghost function LowPoly(p: Modulus, d: seq<int>, block: seq<int>, n: nat): (c: Poly)
    requires IsLowDegree(p, d, block, n)
    ensures |c| == n && Evaluations(p, d, c) == block
  {
    var q: Poly :| |q| == n && Evaluations(p, d, q) == block;
    q
  }

  /** Blocks of n coefficients are mixed to one of n coefficients. */
  lemma {:induction false} MixIsLow(p: Modulus, d: seq<int>, blocks: seq<seq<int>>, n: nat, b: int)
    requires |blocks| > 0 && forall k :: 0 <= k < |blocks| ==> IsLowDegree(p, d, blocks[k], n)
    ensures SameLength(blocks) && |blocks[0]| == |d| && IsLowDegree(p, d, Mixed(p, blocks, b), n)
  {
    hide IsLowDegree;
    var cs := seq(|blocks|, k requires 0 <= k < |blocks| => LowPoly(p, d, blocks[k], n));
    MixedEvaluations(p, d, cs, blocks, b);
    LowWitness(p, d, Mixed(p, blocks, b), Mixed(p, cs, b));
  }

  lemma {:induction false} LowWitness(p: Modulus, d: seq<int>, block: seq<int>, c: Poly)
    requires Evaluations(p, d, c) == block
    ensures IsLowDegree(p, d, block, |c|)
  {
  }

  /** A block of more than n coefficients is mixed to n coefficients by fewer parameters than there are blocks. */
  lemma {:induction false} MixSeldomLow(
      p: Modulus, d: seq<int>, blocks: seq<seq<int>>, k: nat, n: nat, parameters: seq<int>)
    requires Prime(p) && Distinct(p, d) && n <= |d| && BlocksOn(p, d, blocks)
    requires k < |blocks| && !IsLowDegree(p, d, blocks[k], n)
    requires Distinct(p, parameters)
    requires forall j :: 0 <= j < |parameters| ==> IsLowDegree(p, d, Mixed(p, blocks, parameters[j]), n)
    ensures |parameters| < |blocks|
  {
    hide IsLowDegree, Coefficients, Evaluations, Mixed;
    var cs := seq(|blocks|, i requires 0 <= i < |blocks| => Coefficients(p, d, blocks[i]));
    forall i | 0 <= i < |blocks| ensures blocks[i] == Evaluations(p, d, cs[i]) {
      EvaluationsOfCoefficients(p, d, blocks[i]);
    }
    LowDegreeIff(p, d, cs[k], n);
    var j: nat :| n <= j < |d| && !Cong(p, cs[k][j], 0);
    forall i | 0 <= i < |parameters| ensures Mixed(p, cs, parameters[i])[j] == 0 {
      var b := parameters[i];
      MixedEvaluations(p, d, cs, blocks, b);
      LowDegreeIff(p, d, Mixed(p, cs, b), n);
      MixedIsReduced(p, cs, b);
      CongSmall(p, Mixed(p, cs, b)[j], 0);
    }
    MixingSoundness(p, cs, j, parameters);
  }

  lemma {:induction false} MixedIsReduced(p: Modulus, blocks: seq<seq<int>>, b: int)
    requires SameLength(blocks)
    ensures Reduced(p, Mixed(p, blocks, b))
  {
  }

  // ---------------------------------------------------------------- three commit rounds on a mix

  /** Three commit rounds on the mix of the blocks end in a constant block. */
  ghost predicate Accepts(p: Modulus, d: seq<int>, blocks: seq<seq<int>>, b: int, rounds: seq<int>)
    requires Prime(p) && Distinct(p, d) && BlocksOn(p, d, blocks)
  {
    |rounds| == 3 && EndsConstant(p, d, Mixed(p, blocks, b), rounds)
  }

  lemma {:induction false} ThreeRounds(p: Modulus)
    ensures Power2(3) == 8 && Exceptions(p, 3) == 3 * Pow(p, 2)
  {
    assert Power2(3) == 2 * Power2(2) == 4 * Power2(1) == 8;
  }

  /** The mix as evaluations of reduced coefficients, and what its last block says about them. */
  lemma {:induction false} MixedCoefficients(p: Modulus, d: seq<int>, blocks: seq<seq<int>>, b: int) returns (c: Poly)
    requires Prime(p) && Distinct(p, d) && BlocksOn(p, d, blocks) && |d| >= 8
    ensures |c| == |d| && Evaluations(p, d, c) == Mixed(p, blocks, b)
    ensures IsLowDegree(p, d, Mixed(p, blocks, b), 8) <==> DegreeBelow(p, c, 8)
    ensures forall rounds: seq<int> :: |rounds| == 3 ==>
              (Accepts(p, d, blocks, b, rounds) <==> DegreeBelow(p, FoldAll(c, rounds), 1))
  {
    var block := Mixed(p, blocks, b);
    MixedIsReduced(p, blocks, b);
    c := Coefficients(p, d, block);
    EvaluationsOfCoefficients(p, d, block);
    LowDegreeIff(p, d, c, 8);
    hide IsLowDegree, DegreeBelow, FoldAll, FriBlock, IsConstant, Coefficients;
    forall rounds: seq<int> | |rounds| == 3
      ensures Accepts(p, d, blocks, b, rounds) <==> DegreeBelow(p, FoldAll(c, rounds), 1)
    {
      FinalBlockConstantIff(p, d, c, rounds);
    }
  }

  /** Blocks of eight coefficients are accepted whatever the parameters. */
  lemma {:induction false} LowBlocksAccepted(p: Modulus, d: seq<int>, blocks: seq<seq<int>>, b: int, rounds: seq<int>)
    requires Prime(p) && Distinct(p, d) && BlocksOn(p, d, blocks) && |d| >= 8 && |rounds| == 3
    requires forall k :: 0 <= k < |blocks| ==> IsLowDegree(p, d, blocks[k], 8)
    ensures Accepts(p, d, blocks, b, rounds)
  {
    hide IsLowDegree, DegreeBelow, FoldAll, Accepts;
    MixIsLow(p, d, blocks, 8, b);
    var c := MixedCoefficients(p, d, blocks, b);
    FriDegree(p, c, rounds, 8);
    ThreeRounds(p);
  }

  /** A block of more is rejected by some batching parameter among any as many as there are blocks. */
  lemma {:induction false} HighBlockRejected(
      p: Modulus, d: seq<int>, blocks: seq<seq<int>>, k: nat, parameters: seq<int>) returns (b: int, rounds: seq<int>)
    requires Prime(p) && Distinct(p, d) && BlocksOn(p, d, blocks) && |d| >= 8 && |d| % 8 == 0
    requires k < |blocks| && !IsLowDegree(p, d, blocks[k], 8)
    requires Distinct(p, parameters) && |parameters| >= |blocks|
    ensures b in parameters && IsDraw(p, rounds, 3) && !Accepts(p, d, blocks, b, rounds)
  {
    hide IsLowDegree, DegreeBelow, FoldAll, Accepts;
    if forall j :: 0 <= j < |parameters| ==> IsLowDegree(p, d, Mixed(p, blocks, parameters[j]), 8) {
      MixSeldomLow(p, d, blocks, k, 8, parameters);
      assert false;
    }
    var j :| 0 <= j < |parameters| && !IsLowDegree(p, d, Mixed(p, blocks, parameters[j]), 8);
    b := parameters[j];
    var c := MixedCoefficients(p, d, blocks, b);
    ThreeRounds(p);
    rounds := SomeDrawShows(p, c, 1, 3);
  }

  /** More than 3 p^2 of the p^3 draws of three parameters are accepted. */
  ghost predicate AcceptsOften(p: Modulus, d: seq<int>, blocks: seq<seq<int>>, b: int)
    requires Prime(p) && Distinct(p, d) && BlocksOn(p, d, blocks)
  {
    exists draws: set<seq<int>> :: |draws| > 3 * Pow(p, 2) && AllAccepted(p, d, blocks, b, draws)
  }

  ghost predicate AllAccepted(p: Modulus, d: seq<int>, blocks: seq<seq<int>>, b: int, draws: set<seq<int>>)
    requires Prime(p) && Distinct(p, d) && BlocksOn(p, d, blocks)
  {
    forall rounds :: rounds in draws ==> IsDraw(p, rounds, 3) && Accepts(p, d, blocks, b, rounds)
  }

  lemma {:induction false} OftenAcceptedIsLow(p: Modulus, d: seq<int>, blocks: seq<seq<int>>, b: int)
    requires Prime(p) && Distinct(p, d) && BlocksOn(p, d, blocks) && |d| >= 8 && |d| % 8 == 0
    requires AcceptsOften(p, d, blocks, b)
    ensures IsLowDegree(p, d, Mixed(p, blocks, b), 8)
  {
    var draws: set<seq<int>> :| |draws| > 3 * Pow(p, 2) && AllAccepted(p, d, blocks, b, draws);
    hide IsLowDegree, DegreeBelow, FoldAll, Accepts;
    var c := MixedCoefficients(p, d, blocks, b);
    if !DegreeBelow(p, c, 8) {
      ThreeRounds(p);
      FriIsSound(p, c, 1, 3, draws);
      assert false;
    }
  }

  /** A block of more than eight coefficients is often accepted for fewer batching parameters than there are blocks. */
  lemma {:induction false} HighBlockSeldomAccepted(
      p: Modulus, d: seq<int>, blocks: seq<seq<int>>, k: nat, parameters: seq<int>)
    requires Prime(p) && Distinct(p, d) && BlocksOn(p, d, blocks) && |d| >= 8 && |d| % 8 == 0
    requires k < |blocks| && !IsLowDegree(p, d, blocks[k], 8)
    requires Distinct(p, parameters)
    requires forall j :: 0 <= j < |parameters| ==> AcceptsOften(p, d, blocks, parameters[j])
    ensures |parameters| < |blocks|
  {
    hide IsLowDegree, AcceptsOften;
    forall j | 0 <= j < |parameters| ensures IsLowDegree(p, d, Mixed(p, blocks, parameters[j]), 8) {
      OftenAcceptedIsLow(p, d, blocks, parameters[j]);
    }
    MixSeldomLow(p, d, blocks, k, 8, parameters);
  }
}
