/** The whole proof: a trace, the values claimed at the DEEP point, the batching and the commit rounds. */
module StarkProof {
  import opened ModArith
  import opened Polynomials
  import opened Fri
  import opened Quotients
  import opened FibonacciTrace
  import opened StarkDomains
  import opened StarkPipeline
  import opened StarkBatching

  // ---------------------------------------------------------------- the seven blocks

  /**
   * The DEEP point, the values claimed there for columns 1, 4, 5 and 6 and for the validity polynomial, and the
   * two DEEP blocks that the program takes as given.
   */
  datatype Claims = Claims(point: int, values: seq<int>, second: seq<int>, third: seq<int>)

  ghost predicate AreClaims(s: Setup, claims: Claims) {
    && Outside(s.p, s.CommitmentDomain(), claims.point) && |claims.values| == 5
    && |claims.second| == |claims.third| == s.Size() && Reduced(s.p, claims.second) && Reduced(s.p, claims.third)
  }

  /** The committed blocks that values are claimed for. */
  ghost function Opened(s: Setup, t: Trace, parameter: int): (blocks: seq<seq<int>>)
    requires s.Valid() && IsTrace(t, 8)
    ensures |blocks| == 5 && forall k :: 0 <= k < 5 ==> |blocks[k]| == s.Size()
  {
    var c := Commitment(s, t);
    [c[0], c[3], c[4], c[5], ValidityBlock(s, t, parameter)]
  }

  /** Their polynomials: four of the trace polynomials, and the interpolation of the validity block. */
  ghost function OpenedPolys(s: Setup, t: Trace, parameter: int): (polys: seq<Poly>)
    requires s.Valid() && IsTrace(t, 8)
    ensures |polys| == 5 && |polys[4]| == s.Size() && forall k :: 0 <= k < 4 ==> |polys[k]| == 8
  {
    DomainsDistinct(s);
    var a := TracePolys(s, t);
    [a[0], a[3], a[4], a[5], Coefficients(s.p, s.CommitmentDomain(), ValidityBlock(s, t, parameter))]
  }

  ghost function DeepBlock(s: Setup, t: Trace, parameter: int, claims: Claims, k: nat): (block: seq<int>)
    requires s.Valid() && IsTrace(t, 8) && AreClaims(s, claims) && k < 5
    ensures |block| == s.Size()
  {
    DeepQuotient(s.p, s.CommitmentDomain(), Opened(s, t, parameter)[k], claims.point, claims.values[k])
  }

  /** What the program mixes into the first block of the commit rounds. */
  ghost function DeepBlocks(s: Setup, t: Trace, parameter: int, claims: Claims): (blocks: seq<seq<int>>)
    requires s.Valid() && IsTrace(t, 8) && AreClaims(s, claims)
    ensures |blocks| == 7 && BlocksOn(s.p, s.CommitmentDomain(), blocks)
  {
    [DeepBlock(s, t, parameter, claims, 0), claims.second, claims.third, DeepBlock(s, t, parameter, claims, 1),
     DeepBlock(s, t, parameter, claims, 2), DeepBlock(s, t, parameter, claims, 3),
     DeepBlock(s, t, parameter, claims, 4)]
  }

  /** Which block is mixed with which power of the batching parameter. */
  lemma {:induction false} BatchedEntry(s: Setup, t: Trace, parameter: int, claims: Claims, b: int, i: nat)
    requires s.Valid() && IsTrace(t, 8) && AreClaims(s, claims) && i < s.Size()
    ensures
      var d, z, e, c := s.CommitmentDomain(), claims.point, claims.values, Commitment(s, t);
      Mixed(s.p, DeepBlocks(s, t, parameter, claims), b)[i] ==
      (DeepQuotient(s.p, d, c[0], z, e[0])[i]
       + claims.second[i] * Pow(b, 1)
       + claims.third[i] * Pow(b, 2)
       + DeepQuotient(s.p, d, c[3], z, e[1])[i] * Pow(b, 3)
       + DeepQuotient(s.p, d, c[4], z, e[2])[i] * Pow(b, 4)
       + DeepQuotient(s.p, d, c[5], z, e[3])[i] * Pow(b, 5)
       + DeepQuotient(s.p, d, ValidityBlock(s, t, parameter), z, e[4])[i] * Pow(b, 6)) % s.p
  {
    hide DeepQuotient, ValidityBlock, Commitment;
    var blocks := DeepBlocks(s, t, parameter, claims);
    MixedIsSum(s.p, blocks, b, i);
    SevenTerms(blocks, b, i);
  }

  lemma {:induction false} SevenTerms(blocks: seq<seq<int>>, b: int, i: nat)
    requires |blocks| == 7 && forall k :: 0 <= k < 7 ==> i < |blocks[k]|
    ensures SumOfPowers(blocks, b, i, 7)
         == blocks[0][i] + blocks[1][i] * Pow(b, 1) + blocks[2][i] * Pow(b, 2) + blocks[3][i] * Pow(b, 3)
            + blocks[4][i] * Pow(b, 4) + blocks[5][i] * Pow(b, 5) + blocks[6][i] * Pow(b, 6)
  {
    assert Pow(b, 0) == 1 && SumOfPowers(blocks, b, i, 0) == 0;
    hide Pow;
    assert SumOfPowers(blocks, b, i, 2) == SumOfPowers(blocks, b, i, 1) + blocks[1][i] * Pow(b, 1);
    assert SumOfPowers(blocks, b, i, 4) ==
           SumOfPowers(blocks, b, i, 2) + blocks[2][i] * Pow(b, 2) + blocks[3][i] * Pow(b, 3);
    assert SumOfPowers(blocks, b, i, 6) ==
           SumOfPowers(blocks, b, i, 4) + blocks[4][i] * Pow(b, 4) + blocks[5][i] * Pow(b, 5);
  }

  /** The claimed value is the value of its polynomial. */
  ghost predicate IsTrue(s: Setup, t: Trace, parameter: int, claims: Claims, k: nat)
    requires s.Valid() && IsTrace(t, 8) && AreClaims(s, claims) && k < 5
  {
    Cong(s.p, claims.values[k], Eval(OpenedPolys(s, t, parameter)[k], claims.point))
  }

  /** All of them are. */
  ghost predicate ClaimsTrue(s: Setup, t: Trace, parameter: int, claims: Claims)
    requires s.Valid() && IsTrace(t, 8) && AreClaims(s, claims)
  {
    forall k :: 0 <= k < 5 ==> IsTrue(s, t, parameter, claims, k)
  }

  /** The mixed constraints hold, the claims are true, and the two given blocks have at most n coefficients. */
  ghost predicate Proper(s: Setup, t: Trace, parameter: int, claims: Claims, n: nat)
    requires s.Valid() && IsTrace(t, 8) && AreClaims(s, claims)
  {
    && RowsVanish(s, t, parameter) && ClaimsTrue(s, t, parameter, claims)
    && IsLowDegree(s.p, s.CommitmentDomain(), claims.second, n)
    && IsLowDegree(s.p, s.CommitmentDomain(), claims.third, n)
  }

  // ---------------------------------------------------------------- which of them are low

  /** A block of a trace column is low exactly when its claim is true. */
  lemma {:induction false} ColumnBlockIff(s: Setup, t: Trace, parameter: int, claims: Claims, k: nat, n: nat)
    requires s.Valid() && IsTrace(t, 8) && AreClaims(s, claims) && k < 4 && 7 <= n < s.Size()
    ensures IsLowDegree(s.p, s.CommitmentDomain(), DeepBlock(s, t, parameter, claims, k), n)
       <==> IsTrue(s, t, parameter, claims, k)
  {
    hide IsLowDegree, TracePolys, ValidityBlock;
    DomainsDistinct(s);
    var d, a, z := s.CommitmentDomain(), OpenedPolys(s, t, parameter)[k], claims.point;
    var c := Extend(a, s.Size());
    EvaluationsPadded(s.p, d, a, s.Size());
    EvalPadded(a, c, z);
    DeepLowIff(s.p, d, c, z, claims.values[k], n);
  }

  /** The block of the validity polynomial is low exactly when the mixed rows are zero and its claim is true. */
  lemma {:induction false} ValidityDeepIff(s: Setup, t: Trace, parameter: int, claims: Claims, n: nat)
    requires s.Valid() && IsTrace(t, 8) && AreClaims(s, claims) && 6 <= n < s.Size() - 8
    ensures IsLowDegree(s.p, s.CommitmentDomain(), DeepBlock(s, t, parameter, claims, 4), n)
       <==> RowsVanish(s, t, parameter) && IsTrue(s, t, parameter, claims, 4)
  {
    hide IsLowDegree, ValidityBlock, RowsVanish, Coefficients, DegreeBelow;
    DomainsDistinct(s);
    ValidityIsReduced(s, t, parameter);
    var d, block, c := s.CommitmentDomain(), ValidityBlock(s, t, parameter), OpenedPolys(s, t, parameter)[4];
    EvaluationsOfCoefficients(s.p, d, block);
    DeepLowIff(s.p, d, c, claims.point, claims.values[4], n);
    LowDegreeIff(s.p, d, c, n + 1);
    if RowsVanish(s, t, parameter) {
      VanishingRowsAreLow(s, t, parameter);
      LowerIsLow(s.p, d, block, 7, n + 1);
    }
    if IsLowDegree(s.p, d, block, n + 1) {
      LowerIsLow(s.p, d, block, n + 1, s.Size() - 8);
      ValidityBlockIff(s, t, parameter);
    }
  }

  /** All seven blocks have at most n coefficients. */
  ghost predicate AllLow(s: Setup, blocks: seq<seq<int>>, n: nat)
    requires |blocks| == 7
  {
    forall k :: 0 <= k < 7 ==> IsLowDegree(s.p, s.CommitmentDomain(), blocks[k], n)
  }

  lemma {:induction false} SevenLow(s: Setup, a: seq<int>, b: seq<int>, c: seq<int>, d: seq<int>, e: seq<int>,
                                    f: seq<int>, g: seq<int>, n: nat)
    ensures AllLow(s, [a, b, c, d, e, f, g], n) <==>
              && IsLowDegree(s.p, s.CommitmentDomain(), a, n) && IsLowDegree(s.p, s.CommitmentDomain(), b, n)
              && IsLowDegree(s.p, s.CommitmentDomain(), c, n) && IsLowDegree(s.p, s.CommitmentDomain(), d, n)
              && IsLowDegree(s.p, s.CommitmentDomain(), e, n) && IsLowDegree(s.p, s.CommitmentDomain(), f, n)
              && IsLowDegree(s.p, s.CommitmentDomain(), g, n)
  {
    hide IsLowDegree;
    var blocks := [a, b, c, d, e, f, g];
    if AllLow(s, blocks, n) {
      forall k | 0 <= k < 7 ensures IsLowDegree(s.p, s.CommitmentDomain(), blocks[k], n) {
      }
      assert blocks[0] == a && blocks[1] == b && blocks[2] == c && blocks[3] == d;
      assert blocks[4] == e && blocks[5] == f && blocks[6] == g;
    }
  }

  lemma {:induction false} FiveClaims(s: Setup, t: Trace, parameter: int, claims: Claims)
    requires s.Valid() && IsTrace(t, 8) && AreClaims(s, claims)
    ensures ClaimsTrue(s, t, parameter, claims) <==>
              && IsTrue(s, t, parameter, claims, 0) && IsTrue(s, t, parameter, claims, 1)
              && IsTrue(s, t, parameter, claims, 2) && IsTrue(s, t, parameter, claims, 3)
              && IsTrue(s, t, parameter, claims, 4)
  {
    hide IsTrue;
  }

  /** All seven blocks are low exactly when everything is proper. */
  lemma {:induction false} DeepBlocksIff(s: Setup, t: Trace, parameter: int, claims: Claims, n: nat)
    requires s.Valid() && IsTrace(t, 8) && AreClaims(s, claims) && 7 <= n < s.Size() - 8
    ensures AllLow(s, DeepBlocks(s, t, parameter, claims), n) <==> Proper(s, t, parameter, claims, n)
  {
    hide IsLowDegree, RowsVanish, DeepBlock, IsTrue, AllLow, ClaimsTrue;
    SevenLow(s, DeepBlock(s, t, parameter, claims, 0), claims.second, claims.third,
             DeepBlock(s, t, parameter, claims, 1), DeepBlock(s, t, parameter, claims, 2),
             DeepBlock(s, t, parameter, claims, 3), DeepBlock(s, t, parameter, claims, 4), n);
    FiveClaims(s, t, parameter, claims);
    ColumnBlockIff(s, t, parameter, claims, 0, n);
    ColumnBlockIff(s, t, parameter, claims, 1, n);
    ColumnBlockIff(s, t, parameter, claims, 2, n);
    ColumnBlockIff(s, t, parameter, claims, 3, n);
    ValidityDeepIff(s, t, parameter, claims, n);
  }

  // ---------------------------------------------------------------- acceptance

  /** Batching the seven blocks with b and folding three times ends in a constant block. */
  ghost predicate Accepted(s: Setup, t: Trace, parameter: int, claims: Claims, b: int, rounds: seq<int>)
    requires s.Valid() && IsTrace(t, 8) && AreClaims(s, claims)
  {
    DomainsDistinct(s);
    Accepts(s.p, s.CommitmentDomain(), DeepBlocks(s, t, parameter, claims), b, rounds)
  }

  /** More than 3 p^2 of the p^3 draws of round parameters are accepted. */
  ghost predicate OftenAccepted(s: Setup, t: Trace, parameter: int, claims: Claims, b: int)
    requires s.Valid() && IsTrace(t, 8) && AreClaims(s, claims)
  {
    DomainsDistinct(s);
    AcceptsOften(s.p, s.CommitmentDomain(), DeepBlocks(s, t, parameter, claims), b)
  }

  /**
   * A proof is accepted for every batching parameter and every draw of round parameters exactly when the mixed
   * constraints hold on the trace, every claimed value is true, and the two given blocks have eight coefficients.
   */
  lemma {:induction false} AlwaysAcceptedIff(s: Setup, t: Trace, parameter: int, claims: Claims)
    requires s.Valid() && IsTrace(t, 8) && AreClaims(s, claims) && s.expansion >= 3
    ensures (forall b, rounds: seq<int> :: |rounds| == 3 ==> Accepted(s, t, parameter, claims, b, rounds))
       <==> Proper(s, t, parameter, claims, 8)
  {
    hide IsLowDegree, Proper, DeepBlocks, Accepts;
    var d, blocks := s.CommitmentDomain(), DeepBlocks(s, t, parameter, claims);
    DomainsDistinct(s);
    DeepBlocksIff(s, t, parameter, claims, 8);
    if Proper(s, t, parameter, claims, 8) {
      forall b, rounds: seq<int> | |rounds| == 3 ensures Accepted(s, t, parameter, claims, b, rounds) {
        LowBlocksAccepted(s.p, d, blocks, b, rounds);
      }
    } else {
      var k :| 0 <= k < 7 && !IsLowDegree(s.p, d, blocks[k], 8);
      var b, rounds := HighBlockRejected(s.p, d, blocks, k, d);
      assert !Accepted(s, t, parameter, claims, b, rounds);
    }
  }

  /** Otherwise at most six batching parameters let more than 3 p^2 of the p^3 draws pass. */
  lemma {:induction false} SeldomAccepted(s: Setup, t: Trace, parameter: int, claims: Claims, batching: seq<int>)
    requires s.Valid() && IsTrace(t, 8) && AreClaims(s, claims) && s.expansion >= 3
    requires !Proper(s, t, parameter, claims, 8)
    requires Distinct(s.p, batching)
    requires forall j :: 0 <= j < |batching| ==> OftenAccepted(s, t, parameter, claims, batching[j])
    ensures |batching| <= 6
  {
    hide IsLowDegree, Proper, DeepBlocks, AcceptsOften;
    var d, blocks := s.CommitmentDomain(), DeepBlocks(s, t, parameter, claims);
    DomainsDistinct(s);
    DeepBlocksIff(s, t, parameter, claims, 8);
    var k :| 0 <= k < 7 && !IsLowDegree(s.p, d, blocks[k], 8);
    forall j | 0 <= j < |batching| ensures AcceptsOften(s.p, d, blocks, batching[j]) {
      assert OftenAccepted(s, t, parameter, claims, batching[j]);
    }
    HighBlockSeldomAccepted(s.p, d, blocks, k, batching);
  }

  /** An honest proof is mixed to seven coefficients and accepted, whatever the parameters. */
  lemma {:induction false} HonestProof(
      s: Setup, t: Trace, parameter: int, claims: Claims, b: int, rounds: seq<int>)
    requires s.Valid() && IsTrace(t, 8) && AreClaims(s, claims) && Satisfied(s.p, t, 8) && |rounds| == 3
    requires ClaimsTrue(s, t, parameter, claims)
    requires IsLowDegree(s.p, s.CommitmentDomain(), claims.second, 7)
    requires IsLowDegree(s.p, s.CommitmentDomain(), claims.third, 7)
    ensures IsLowDegree(s.p, s.CommitmentDomain(), Mixed(s.p, DeepBlocks(s, t, parameter, claims), b), 7)
    ensures Accepted(s, t, parameter, claims, b, rounds)
  {
    hide IsLowDegree, RowsVanish, Satisfied, DeepBlocks, Accepts;
    var d, blocks := s.CommitmentDomain(), DeepBlocks(s, t, parameter, claims);
    DomainsDistinct(s);
    SatisfiedRowsVanish(s, t, parameter);
    DeepBlocksIff(s, t, parameter, claims, 7);
    MixIsLow(s.p, d, blocks, 7, b);
    forall k | 0 <= k < 7 ensures IsLowDegree(s.p, d, blocks[k], 8) {
      LowerIsLow(s.p, d, blocks[k], 7, 8);
    }
    LowBlocksAccepted(s.p, d, blocks, b, rounds);
  }

  /** More than six batching parameters let the rounds accept more than 3 p^2 draws. */
  ghost predicate Passes(s: Setup, t: Trace, parameter: int, claims: Claims, batching: seq<int>)
    requires s.Valid() && IsTrace(t, 8)
  {
    && AreClaims(s, claims) && Distinct(s.p, batching) && |batching| > 6
    && forall j :: 0 <= j < |batching| ==> OftenAccepted(s, t, parameter, claims, batching[j])
  }

  /** That is so for some claims. */
  ghost predicate CanPass(s: Setup, t: Trace, parameter: int)
    requires s.Valid() && IsTrace(t, 8)
  {
    exists claims, batching :: Passes(s, t, parameter, claims, batching)
  }

  /**
   * For a trace that breaks a constraint, at most five constraint parameters can be passed, whatever is claimed
   * and whatever the two given blocks are.
   */
  lemma {:induction false} ProofSoundness(s: Setup, t: Trace, parameters: seq<int>)
    requires s.Valid() && IsTrace(t, 8) && !Satisfied(s.p, t, 8) && s.expansion >= 3
    requires Distinct(s.p, parameters)
    requires forall j :: 0 <= j < |parameters| ==> CanPass(s, t, parameters[j])
    ensures |parameters| <= 5
  {
    hide IsLowDegree, ValidityBlock, Satisfied, RowsVanish, OftenAccepted;
    forall j | 0 <= j < |parameters|
      ensures IsLowDegree(s.p, s.CommitmentDomain(), ValidityBlock(s, t, parameters[j]), s.Size() - 8)
    {
      var a := parameters[j];
      assert CanPass(s, t, a);
      var claims, batching :| Passes(s, t, a, claims, batching);
      if !RowsVanish(s, t, a) {
        SeldomAccepted(s, t, a, claims, batching);
        assert false;
      }
      ValidityBlockIff(s, t, a);
    }
    Soundness(s, t, parameters);
  }
}
