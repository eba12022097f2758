/** From a trace to its validity block: commit, constrain, mix, divide by X^8 - 1; complete and sound. */
module StarkPipeline {
  import opened ModArith
  import opened LinearAlgebra
  import opened Polynomials
  import opened EvaluationDomains
  import opened Fri
  import opened Quotients
  import opened FibonacciTrace
  import opened StarkDomains
  import opened StarkConstraints

  // ---------------------------------------------------------------- mixing the polynomials

  ghost function ConstraintPolys(a: seq<Poly>, w: int): (c: Matrix)
    requires ColumnPolys(a)
    ensures Shaped(c, 6, 15)
  {
    seq(6, k requires 0 <= k < 6 => ConstraintPoly(a, w, k))
  }

  ghost function MixedPoly(a: seq<Poly>, w: int, parameter: int): (c: Poly)
    requires ColumnPolys(a)
    ensures |c| == 15
  {
    VecMat(Powers(parameter, 6), ConstraintPolys(a, w), 6, 15)
  }

  /** Mixing the values and evaluating the mixed polynomial are the same. */
  lemma {:induction false} EvalMixedPoly(p: Modulus, cs: Matrix, n: nat, width: nat, parameter: int, x: int, row: Poly)
    requires Shaped(cs, n, width) && |row| == n
    requires forall k :: 0 <= k < n ==> Cong(p, row[k], Eval(cs[k], x))
    ensures Cong(p, Eval(row, parameter), Eval(VecMat(Powers(parameter, n), cs, n, width), x))
  {
    var w, xs := Powers(parameter, n), Powers(x, width);
    var mixed, values := VecMat(w, cs, n, width), MatVec(cs, xs, width);
    EvalIsDot(mixed, x);
    DotVecMat(w, cs, n, xs, width);
    EvalIsDot(values, parameter);
    DotSymmetric(values, w, n);
    forall k | 0 <= k < n ensures values[k] == Eval(cs[k], x) {
      EvalIsDot(cs[k], x);
    }
    EvalCong(p, row, values, parameter, parameter);
  }

  /** Which constraint is mixed with which power of the parameter, on a trace of at least eight rows. */
  lemma {:induction false} MixedConstraints(p: Modulus, t: Trace, n: nat, parameter: int, i: nat)
    requires IsTrace(t, n) && n >= 8 && i < n
    ensures
      var before := if i >= n / 8 then i - n / 8 else i - n / 8 + n;
      Mixed(p, Constraints(p, t, n), parameter)[i] ==
      ((t[2][i] - t[1][i] - t[0][i]) * (t[3][i] + t[4][i] + t[5][i]) % p
       + (t[0][i] - 24) * t[3][i] % p * Pow(parameter, 1)
       + (t[1][i] - 30) * t[3][i] % p * Pow(parameter, 2)
       + (t[2][i] - 28) * t[5][i] % p * Pow(parameter, 3)
       + (t[0][i] - t[1][before]) * t[4][i] % p * Pow(parameter, 4)
       + (t[1][i] - t[2][before]) * t[4][i] % p * Pow(parameter, 5)) % p
  {
    var c := Constraints(p, t, n);
    RowOfConstraints(p, t, n, i);
    hide Constraints, Pow;
    MixedIsSum(p, c, parameter, i);
    SixTerms(c, parameter, i);
  }

  lemma {:induction false} RowOfConstraints(p: Modulus, t: Trace, n: nat, i: nat)
    requires IsTrace(t, n) && n >= 8 && i < n
    ensures
      var before := if i >= n / 8 then i - n / 8 else i - n / 8 + n;
      var c := Constraints(p, t, n);
      && c[0][i] == (t[2][i] - t[1][i] - t[0][i]) * (t[3][i] + t[4][i] + t[5][i]) % p
      && c[1][i] == (t[0][i] - 24) * t[3][i] % p && c[2][i] == (t[1][i] - 30) * t[3][i] % p
      && c[3][i] == (t[2][i] - 28) * t[5][i] % p && c[4][i] == (t[0][i] - t[1][before]) * t[4][i] % p
      && c[5][i] == (t[1][i] - t[2][before]) * t[4][i] % p
  {
    PreviousInside(n, i);
  }

  lemma {:induction false} PreviousInside(n: nat, i: nat)
    requires n >= 8 && i < n
    ensures Previous(n, i) == if i >= n / 8 then i - n / 8 else i - n / 8 + n
  {
    var step := n / 8;
    assert 0 <= step < n;
    DivModUnique(step, n, 0, step);
  }

  lemma {:induction false} SixTerms(blocks: seq<seq<int>>, b: int, i: nat)
    requires |blocks| == 6 && forall k :: 0 <= k < 6 ==> i < |blocks[k]|
    ensures SumOfPowers(blocks, b, i, 6)
         == blocks[0][i] + blocks[1][i] * Pow(b, 1) + blocks[2][i] * Pow(b, 2) + blocks[3][i] * Pow(b, 3)
            + blocks[4][i] * Pow(b, 4) + blocks[5][i] * Pow(b, 5)
  {
    assert Pow(b, 0) == 1 && SumOfPowers(blocks, b, i, 0) == 0;
    hide Pow;
    assert SumOfPowers(blocks, b, i, 2) == SumOfPowers(blocks, b, i, 1) + blocks[1][i] * Pow(b, 1);
    assert SumOfPowers(blocks, b, i, 4) ==
           SumOfPowers(blocks, b, i, 2) + blocks[2][i] * Pow(b, 2) + blocks[3][i] * Pow(b, 3);
  }

  lemma {:induction false} MixedIsPoly(p: Modulus, a: seq<Poly>, w: int, d: seq<int>, t: Trace, parameter: int, i: nat)
    requires ColumnPolys(a) && IsTrace(t, |d|) && Represents(p, a, d, t) && StepsBack(p, d, w) && i < |d|
    ensures Mixed(p, Constraints(p, t, |d|), parameter)[i] == Eval(MixedPoly(a, w, parameter), d[i]) % p
  {
    hide Represents, StepsBack, Constraints, ConstraintPoly;
    var c := Constraints(p, t, |d|);
    forall k | 0 <= k < 6 ensures Cong(p, Row(c, i)[k], Eval(ConstraintPolys(a, w)[k], d[i])) {
      ConstraintIsPoly(p, a, w, d, t, k, i);
    }
    EvalMixedPoly(p, ConstraintPolys(a, w), 6, 15, parameter, d[i], Row(c, i));
  }

  // ---------------------------------------------------------------- the whole pipeline

  /** The trace polynomials: what the inverse transform makes of the columns. */
  ghost function TracePolys(s: Setup, t: Trace): (a: seq<Poly>)
    requires s.Valid() && IsTrace(t, 8)
    ensures ColumnPolys(a)
  {
    DomainsDistinct(s);
    seq(6, k requires 0 <= k < 6 => Coefficients(s.p, s.TraceDomain(), t[k]))
  }

  /** The trace blocks on the commitment domain. */
  ghost function Commitment(s: Setup, t: Trace): (blocks: Trace)
    requires s.Valid() && IsTrace(t, 8)
    ensures IsTrace(blocks, s.Size())
  {
    seq(6, k requires 0 <= k < 6 => Evaluations(s.p, s.CommitmentDomain(), TracePolys(s, t)[k]))
  }

  /** The block the prover commits to as the validity polynomial. */
  ghost function ValidityBlock(s: Setup, t: Trace, parameter: int): (v: seq<int>)
    requires s.Valid() && IsTrace(t, 8)
    ensures |v| == s.Size()
  {
    var d := s.CommitmentDomain();
    ZerosInvertible(s.p, d, 8);
    ValidityQuotient(s.p, Mixed(s.p, Constraints(s.p, Commitment(s, t), s.Size()), parameter),
                     Evaluations(s.p, d, ZerosPoly(8)))
  }

  lemma {:induction false} TraceRepresented(s: Setup, t: Trace)
    requires s.Valid() && IsTrace(t, 8)
    ensures Represents(s.p, TracePolys(s, t), s.TraceDomain(), t)
    ensures Represents(s.p, TracePolys(s, t), s.CommitmentDomain(), Commitment(s, t))
  {
    DomainsDistinct(s);
    forall k, i | 0 <= k < 6 && 0 <= i < 8
      ensures Cong(s.p, t[k][i], Eval(TracePolys(s, t)[k], s.TraceDomain()[i]))
    {
      EvalCoefficients(s.p, s.TraceDomain(), t[k], i);
    }
    forall k, i | 0 <= k < 6 && 0 <= i < s.Size()
      ensures Cong(s.p, Commitment(s, t)[k][i], Eval(TracePolys(s, t)[k], s.CommitmentDomain()[i]))
    {
      CongMod(s.p, Eval(TracePolys(s, t)[k], s.CommitmentDomain()[i]));
    }
  }

  /** Both domains step back by the same factor, so the same polynomials serve both. */
  lemma {:induction false} BothStepBack(s: Setup)
    requires s.Valid()
    ensures StepsBack(s.p, s.TraceDomain(), Pow(s.Omega(), 7))
    ensures StepsBack(s.p, s.CommitmentDomain(), Pow(s.Omega(), 7))
  {
    OmegaOrder(s);
    assert Pow(s.Omega(), 1) == s.Omega() * Pow(s.Omega(), 0) == s.Omega();
    DomainStepsBack(s.p, 1, s.Omega(), 8, s.Omega());
    DomainStepsBack(s.p, s.shift, s.generator, s.Size(), s.Omega());
  }

  /** The validity block is the quotient block of the mixed constraint polynomial. */
  lemma {:induction false} ValidityBlockIsQuotient(s: Setup, t: Trace, parameter: int)
    requires s.Valid() && IsTrace(t, 8)
    ensures ValidityBlock(s, t, parameter)
         == Validity(s.p, s.CommitmentDomain(), MixedPoly(TracePolys(s, t), Pow(s.Omega(), 7), parameter), 8)
  {
    hide Constraints, Represents, StepsBack, MixedPoly, TracePolys, Commitment;
    var d, blocks, w := s.CommitmentDomain(), Commitment(s, t), Pow(s.Omega(), 7);
    var c := MixedPoly(TracePolys(s, t), w, parameter);
    TraceRepresented(s, t);
    BothStepBack(s);
    ZerosInvertible(s.p, d, 8);
    forall i | 0 <= i < s.Size()
      ensures Mixed(s.p, Constraints(s.p, blocks, s.Size()), parameter)[i] == Evaluations(s.p, d, c)[i]
    {
      MixedIsPoly(s.p, TracePolys(s, t), w, d, blocks, parameter, i);
    }
    assert Mixed(s.p, Constraints(s.p, blocks, s.Size()), parameter) == Evaluations(s.p, d, c);
  }

  /** Every mixed row of the trace is zero. */
  ghost predicate RowsVanish(s: Setup, t: Trace, parameter: int)
    requires IsTrace(t, 8)
  {
    forall i :: 0 <= i < 8 ==> Mixed(s.p, Constraints(s.p, t, 8), parameter)[i] == 0
  }

  /** The mixed constraint polynomial vanishes on the trace domain exactly when the mixed rows are zero. */
  lemma {:induction false} MixedRows(s: Setup, t: Trace, parameter: int)
    requires s.Valid() && IsTrace(t, 8)
    ensures Roots(s.p, MixedPoly(TracePolys(s, t), Pow(s.Omega(), 7), parameter), s.TraceDomain())
       <==> RowsVanish(s, t, parameter)
  {
    hide Constraints, Represents, StepsBack, MixedPoly, TracePolys;
    TraceRepresented(s, t);
    BothStepBack(s);
    forall i | 0 <= i < 8
      ensures Mixed(s.p, Constraints(s.p, t, 8), parameter)[i]
           == Eval(MixedPoly(TracePolys(s, t), Pow(s.Omega(), 7), parameter), s.TraceDomain()[i]) % s.p
    {
      MixedIsPoly(s.p, TracePolys(s, t), Pow(s.Omega(), 7), s.TraceDomain(), t, parameter, i);
    }
  }

  /** The committed validity block has low degree exactly when every mixed row of the trace is zero. */
  lemma {:induction false} ValidityBlockIff(s: Setup, t: Trace, parameter: int)
    requires s.Valid() && IsTrace(t, 8)
    ensures IsLowDegree(s.p, s.CommitmentDomain(), ValidityBlock(s, t, parameter), s.Size() - 8)
       <==> RowsVanish(s, t, parameter)
  {
    hide Constraints, MixedPoly, TracePolys, ValidityBlock;
    DomainsDistinct(s);
    TraceDomainPoints(s);
    ValidityBlockIsQuotient(s, t, parameter);
    MixedRows(s, t, parameter);
    ValidityIff(s.p, s.CommitmentDomain(), MixedPoly(TracePolys(s, t), Pow(s.Omega(), 7), parameter), s.TraceDomain());
  }

  /** When every mixed row is zero, the validity block has seven coefficients. */
  lemma {:induction false} VanishingRowsAreLow(s: Setup, t: Trace, parameter: int)
    requires s.Valid() && IsTrace(t, 8) && RowsVanish(s, t, parameter)
    ensures IsLowDegree(s.p, s.CommitmentDomain(), ValidityBlock(s, t, parameter), 7)
  {
    hide Constraints, MixedPoly, TracePolys, ValidityBlock;
    var mixed := MixedPoly(TracePolys(s, t), Pow(s.Omega(), 7), parameter);
    TraceDomainPoints(s);
    ValidityBlockIsQuotient(s, t, parameter);
    MixedRows(s, t, parameter);
    ValidityComplete(s.p, s.CommitmentDomain(), mixed, s.TraceDomain());
  }

  lemma {:induction false} SatisfiedRowsVanish(s: Setup, t: Trace, parameter: int)
    requires IsTrace(t, 8) && Satisfied(s.p, t, 8)
    ensures RowsVanish(s, t, parameter)
  {
    var c := Constraints(s.p, t, 8);
    forall i | 0 <= i < 8 ensures Mixed(s.p, c, parameter)[i] == 0 {
      assert RowSatisfied(s.p, t, 8, i);
      EvalZeros(Row(c, i), parameter);
    }
  }

  /** The validity block of an honest trace has seven coefficients, for every mixing parameter. */
  lemma {:induction false} Completeness(s: Setup, t: Trace, parameter: int)
    requires s.Valid() && IsTrace(t, 8) && Satisfied(s.p, t, 8)
    ensures IsLowDegree(s.p, s.CommitmentDomain(), ValidityBlock(s, t, parameter), 7)
  {
    SatisfiedRowsVanish(s, t, parameter);
    VanishingRowsAreLow(s, t, parameter);
  }

  /** A trace that breaks a constraint in any row passes with at most five mixing parameters. */
  lemma {:induction false} Soundness(s: Setup, t: Trace, parameters: seq<int>)
    requires s.Valid() && IsTrace(t, 8) && !Satisfied(s.p, t, 8)
    requires Distinct(s.p, parameters)
    requires forall j :: 0 <= j < |parameters| ==>
      IsLowDegree(s.p, s.CommitmentDomain(), ValidityBlock(s, t, parameters[j]), s.Size() - 8)
    ensures |parameters| <= 5
  {
    var i, k := BrokenEntry(s.p, t);
    hide Constraints, ValidityBlock, IsLowDegree;
    forall j | 0 <= j < |parameters| ensures Mixed(s.p, Constraints(s.p, t, 8), parameters[j])[i] == 0 {
      ValidityBlockIff(s, t, parameters[j]);
    }
    MixingSoundness(s.p, Constraints(s.p, t, 8), i, parameters);
  }

  lemma {:induction false} BrokenEntry(p: Modulus, t: Trace) returns (i: nat, k: nat)
    requires IsTrace(t, 8) && !Satisfied(p, t, 8)
    ensures i < 8 && k < 6 && !Cong(p, Constraints(p, t, 8)[k][i], 0)
  {
    i :| 0 <= i < 8 && !RowSatisfied(p, t, 8, i);
    k :| 0 <= k < 6 && Constraints(p, t, 8)[k][i] != 0;
    hide Constraints, LeftValue, SelectorValue;
    ConstraintValue(p, t, 8, k, i);
    NonzeroResidue(p, LeftValue(t, 8, k, i) * SelectorValue(t, 8, k, i));
  }

  lemma {:induction false} ValidityIsReduced(s: Setup, t: Trace, parameter: int)
    requires s.Valid() && IsTrace(t, 8)
    ensures forall i :: 0 <= i < s.Size() ==> 0 <= ValidityBlock(s, t, parameter)[i] < s.p
  {
    hide Constraints, Commitment, Mixed;
  }
}
