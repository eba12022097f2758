/** The program's own run: its trace, and the two DEEP blocks it holds as constants. */
module StarkProgram {
  import opened ModArith
  import opened Polynomials
  import opened EvaluationDomains
  import opened Quotients
  import opened FibonacciTrace
  import opened StarkBatching
  import opened StarkProof
  import opened StarkParameters

  // ---------------------------------------------------------------- the trace

  const TRACE: Trace := [
    [24, 30, 54, 84, 78, 15, 29, 50],
    [30, 54, 84, 41, 2, 77, 21, 36],
    [54, 84, 41, 28, 71, 17, 92, 33],
    [1, 0, 0, 0, 0, 0, 0, 0],
    [0, 1, 1, 1, 0, 0, 0, 0],
    [0, 0, 0, 1, 0, 0, 0, 0]
  ]

  /** The trace of the program satisfies its constraints. */
  lemma {:induction false} TraceIsSatisfied()
    ensures IsTrace(TRACE, 8) && Controls(TRACE, 8, 3) && Satisfied(97, TRACE, 8)
  {
    FieldSizeIsPrime();
    hide Prime, Satisfied;
    forall i | 0 <= i <= 3 ensures RowRuns(97, TRACE, 8, i) {
      PreviousOfEight(i);
    }
    SatisfiedIffRuns(97, TRACE, 8, 3);
  }

  lemma {:induction false} PreviousOfEight(i: nat)
    ensures 0 < i < 8 ==> Previous(8, i) == i - 1
  {
  }

  // ---------------------------------------------------------------- the two constant blocks

  const DEEP_TEST_POINT := 93

  // The entries, eight to a row.
  const SECOND_0: seq<int> := [19, 74, 82, 13, 48, 30, 17, 58]
  const SECOND_8: seq<int> := [93, 63, 64, 42, 45, 10, 21, 71]
  const SECOND_16: seq<int> := [1, 52, 72, 71, 60, 10, 8, 44]
  const SECOND_24: seq<int> := [41, 5, 14, 16, 49, 15, 78, 41]
  const SECOND_BLOCK := SECOND_0 + SECOND_8 + SECOND_16 + SECOND_24

  const THIRD_0: seq<int> := [84, 63, 89, 93, 75, 36, 11, 80]
  const THIRD_8: seq<int> := [44, 23, 40, 11, 80, 33, 38, 50]
  const THIRD_16: seq<int> := [72, 33, 35, 78, 8, 8, 86, 36]
  const THIRD_24: seq<int> := [9, 25, 88, 95, 65, 22, 50, 91]
  const THIRD_BLOCK := THIRD_0 + THIRD_8 + THIRD_16 + THIRD_24

  /** The polynomials behind them. */
  const SECOND_POLY: Poly := [93, 66, 59, 71, 54, 24]
  const THIRD_POLY: Poly := [91, 77, 2, 78, 82, 35]

  function Horner(a: int, x: int, v: int): int {
    a + x * v
  }

  function SecondValue(x: int): int {
    Horner(93, x, Horner(66, x, Horner(59, x, Horner(71, x, Horner(54, x, 24)))))
  }

  function ThirdValue(x: int): int {
    Horner(91, x, Horner(77, x, Horner(2, x, Horner(78, x, Horner(82, x, 35)))))
  }

  // ---------------------------------------------------------------- the points of the domain

  ghost predicate PointIs(i: nat, x: int)
    requires i < 32
  {
    ShiftedPowers(97, 5, 125, 32)[i] == x
  }

  lemma {:induction false} NextPoint(i: nat, x: int, next: int)
    requires i < 31 && PointIs(i, x) && 125 * x % 97 == next
    ensures PointIs(i + 1, next)
  {
    var a, y := Pow(125, i), ShiftedPowers(97, 5, 125, 32)[i + 1];
    assert Pow(125, i + 1) == 125 * a;
    ShiftedPowerCong(97, 5, 125, 32, i);
    ShiftedPowerCong(97, 5, 125, 32, i + 1);
    PointReduced(i + 1);
    hide Pow, Cong, ShiftedPowers;
    SamePointAfter(a, x, y);
  }

  lemma {:induction false} PointReduced(i: nat)
    requires i < 32
    ensures 0 <= ShiftedPowers(97, 5, 125, 32)[i] < 97
  {
  }

  lemma {:induction false} SamePointAfter(a: int, x: int, y: int)
    requires Cong(97, x, 5 * a) && Cong(97, y, 5 * (125 * a)) && 0 <= y < 97
    ensures y == 125 * x % 97
  {
    CongScale(97, x, 5 * a, 125);
    CongSym(97, 125 * x, 5 * (125 * a));
    CongTrans(97, y, 5 * (125 * a), 125 * x);
  }

  lemma {:induction false} FirstPoint()
    ensures PointIs(0, 5)
  {
    assert Pow(125, 0) == 1;
    ShiftedPowerCong(97, 5, 125, 32, 0);
    PointReduced(0);
    CongSmall(97, ShiftedPowers(97, 5, 125, 32)[0], 5);
  }

  lemma {:induction false} Points0()
    ensures PointIs(0, 5) && PointIs(1, 43) && PointIs(2, 40) && PointIs(3, 53)
    ensures PointIs(4, 29) && PointIs(5, 36) && PointIs(6, 38) && PointIs(7, 94)
    ensures PointIs(8, 13)
  {
    FirstPoint();
    hide PointIs;
    NextPoint(0, 5, 43);
    NextPoint(1, 43, 40);
    NextPoint(2, 40, 53);
    NextPoint(3, 53, 29);
    NextPoint(4, 29, 36);
    NextPoint(5, 36, 38);
    NextPoint(6, 38, 94);
    NextPoint(7, 94, 13);
  }

  lemma {:induction false} Points8()
    ensures PointIs(8, 13) && PointIs(9, 73) && PointIs(10, 7) && PointIs(11, 2)
    ensures PointIs(12, 56) && PointIs(13, 16) && PointIs(14, 60) && PointIs(15, 31)
    ensures PointIs(16, 92)
  {
    Points0();
    hide PointIs;
    NextPoint(8, 13, 73);
    NextPoint(9, 73, 7);
    NextPoint(10, 7, 2);
    NextPoint(11, 2, 56);
    NextPoint(12, 56, 16);
    NextPoint(13, 16, 60);
    NextPoint(14, 60, 31);
    NextPoint(15, 31, 92);
  }

  lemma {:induction false} Points16()
    ensures PointIs(16, 92) && PointIs(17, 54) && PointIs(18, 57) && PointIs(19, 44)
    ensures PointIs(20, 68) && PointIs(21, 61) && PointIs(22, 59) && PointIs(23, 3)
    ensures PointIs(24, 84)
  {
    Points8();
    hide PointIs;
    NextPoint(16, 92, 54);
    NextPoint(17, 54, 57);
    NextPoint(18, 57, 44);
    NextPoint(19, 44, 68);
    NextPoint(20, 68, 61);
    NextPoint(21, 61, 59);
    NextPoint(22, 59, 3);
    NextPoint(23, 3, 84);
  }

  lemma {:induction false} Points24()
    ensures PointIs(24, 84) && PointIs(25, 24) && PointIs(26, 90) && PointIs(27, 95)
    ensures PointIs(28, 41) && PointIs(29, 81) && PointIs(30, 37) && PointIs(31, 66)
  {
    Points16();
    hide PointIs;
    NextPoint(24, 84, 24);
    NextPoint(25, 24, 90);
    NextPoint(26, 90, 95);
    NextPoint(27, 95, 41);
    NextPoint(28, 41, 81);
    NextPoint(29, 81, 37);
    NextPoint(30, 37, 66);
  }

  // ---------------------------------------------------------------- the values at the points

  lemma SecondValues0()
    ensures SecondValue(5) % 97 == SECOND_0[0] && SecondValue(43) % 97 == SECOND_0[1]
    ensures SecondValue(40) % 97 == SECOND_0[2] && SecondValue(53) % 97 == SECOND_0[3]
    ensures SecondValue(29) % 97 == SECOND_0[4] && SecondValue(36) % 97 == SECOND_0[5]
    ensures SecondValue(38) % 97 == SECOND_0[6] && SecondValue(94) % 97 == SECOND_0[7]
  {
  }

  lemma SecondValues8()
    ensures SecondValue(13) % 97 == SECOND_8[0] && SecondValue(73) % 97 == SECOND_8[1]
    ensures SecondValue(7) % 97 == SECOND_8[2] && SecondValue(2) % 97 == SECOND_8[3]
    ensures SecondValue(56) % 97 == SECOND_8[4] && SecondValue(16) % 97 == SECOND_8[5]
    ensures SecondValue(60) % 97 == SECOND_8[6] && SecondValue(31) % 97 == SECOND_8[7]
  {
  }

  lemma SecondValues16()
    ensures SecondValue(92) % 97 == SECOND_16[0] && SecondValue(54) % 97 == SECOND_16[1]
    ensures SecondValue(57) % 97 == SECOND_16[2] && SecondValue(44) % 97 == SECOND_16[3]
    ensures SecondValue(68) % 97 == SECOND_16[4] && SecondValue(61) % 97 == SECOND_16[5]
    ensures SecondValue(59) % 97 == SECOND_16[6] && SecondValue(3) % 97 == SECOND_16[7]
  {
  }

  lemma SecondValues24()
    ensures SecondValue(84) % 97 == SECOND_24[0] && SecondValue(24) % 97 == SECOND_24[1]
    ensures SecondValue(90) % 97 == SECOND_24[2] && SecondValue(95) % 97 == SECOND_24[3]
    ensures SecondValue(41) % 97 == SECOND_24[4] && SecondValue(81) % 97 == SECOND_24[5]
    ensures SecondValue(37) % 97 == SECOND_24[6] && SecondValue(66) % 97 == SECOND_24[7]
  {
  }

  lemma ThirdValues0()
    ensures ThirdValue(5) % 97 == THIRD_0[0] && ThirdValue(43) % 97 == THIRD_0[1]
    ensures ThirdValue(40) % 97 == THIRD_0[2] && ThirdValue(53) % 97 == THIRD_0[3]
    ensures ThirdValue(29) % 97 == THIRD_0[4] && ThirdValue(36) % 97 == THIRD_0[5]
    ensures ThirdValue(38) % 97 == THIRD_0[6] && ThirdValue(94) % 97 == THIRD_0[7]
  {
  }

  lemma ThirdValues8()
    ensures ThirdValue(13) % 97 == THIRD_8[0] && ThirdValue(73) % 97 == THIRD_8[1]
    ensures ThirdValue(7) % 97 == THIRD_8[2] && ThirdValue(2) % 97 == THIRD_8[3]
    ensures ThirdValue(56) % 97 == THIRD_8[4] && ThirdValue(16) % 97 == THIRD_8[5]
    ensures ThirdValue(60) % 97 == THIRD_8[6] && ThirdValue(31) % 97 == THIRD_8[7]
  {
  }

  lemma ThirdValues16()
    ensures ThirdValue(92) % 97 == THIRD_16[0] && ThirdValue(54) % 97 == THIRD_16[1]
    ensures ThirdValue(57) % 97 == THIRD_16[2] && ThirdValue(44) % 97 == THIRD_16[3]
    ensures ThirdValue(68) % 97 == THIRD_16[4] && ThirdValue(61) % 97 == THIRD_16[5]
    ensures ThirdValue(59) % 97 == THIRD_16[6] && ThirdValue(3) % 97 == THIRD_16[7]
  {
  }

  lemma ThirdValues24()
    ensures ThirdValue(84) % 97 == THIRD_24[0] && ThirdValue(24) % 97 == THIRD_24[1]
    ensures ThirdValue(90) % 97 == THIRD_24[2] && ThirdValue(95) % 97 == THIRD_24[3]
    ensures ThirdValue(41) % 97 == THIRD_24[4] && ThirdValue(81) % 97 == THIRD_24[5]
    ensures ThirdValue(37) % 97 == THIRD_24[6] && ThirdValue(66) % 97 == THIRD_24[7]
  {
  }

  /** At point i the two polynomials have the values of the blocks. */
  ghost predicate RowHolds(i: nat)
    requires i < 32
  {
    var x := ShiftedPowers(97, 5, 125, 32)[i];
    SecondValue(x) % 97 == SECOND_BLOCK[i] && ThirdValue(x) % 97 == THIRD_BLOCK[i] && x != DEEP_TEST_POINT
  }

  lemma {:induction false} RowIs(i: nat, x: int)
    requires i < 32 && PointIs(i, x) && x != DEEP_TEST_POINT
    requires SecondValue(x) % 97 == SECOND_BLOCK[i] && ThirdValue(x) % 97 == THIRD_BLOCK[i]
    ensures RowHolds(i)
  {
  }

  lemma Rows0()
    ensures RowHolds(0) && RowHolds(1) && RowHolds(2) && RowHolds(3)
    ensures RowHolds(4) && RowHolds(5) && RowHolds(6) && RowHolds(7)
  {
    Points0();
    SecondValues0();
    ThirdValues0();
    hide PointIs, RowHolds, SecondValue, ThirdValue;
    RowIs(0, 5);
    RowIs(1, 43);
    RowIs(2, 40);
    RowIs(3, 53);
    RowIs(4, 29);
    RowIs(5, 36);
    RowIs(6, 38);
    RowIs(7, 94);
  }

  lemma Rows8()
    ensures RowHolds(8) && RowHolds(9) && RowHolds(10) && RowHolds(11)
    ensures RowHolds(12) && RowHolds(13) && RowHolds(14) && RowHolds(15)
  {
    Points8();
    SecondValues8();
    ThirdValues8();
    hide PointIs, RowHolds, SecondValue, ThirdValue;
    RowIs(8, 13);
    RowIs(9, 73);
    RowIs(10, 7);
    RowIs(11, 2);
    RowIs(12, 56);
    RowIs(13, 16);
    RowIs(14, 60);
    RowIs(15, 31);
  }

  lemma Rows16()
    ensures RowHolds(16) && RowHolds(17) && RowHolds(18) && RowHolds(19)
    ensures RowHolds(20) && RowHolds(21) && RowHolds(22) && RowHolds(23)
  {
    Points16();
    SecondValues16();
    ThirdValues16();
    hide PointIs, RowHolds, SecondValue, ThirdValue;
    RowIs(16, 92);
    RowIs(17, 54);
    RowIs(18, 57);
    RowIs(19, 44);
    RowIs(20, 68);
    RowIs(21, 61);
    RowIs(22, 59);
    RowIs(23, 3);
  }

  lemma Rows24()
    ensures RowHolds(24) && RowHolds(25) && RowHolds(26) && RowHolds(27)
    ensures RowHolds(28) && RowHolds(29) && RowHolds(30) && RowHolds(31)
  {
    Points24();
    SecondValues24();
    ThirdValues24();
    hide PointIs, RowHolds, SecondValue, ThirdValue;
    RowIs(24, 84);
    RowIs(25, 24);
    RowIs(26, 90);
    RowIs(27, 95);
    RowIs(28, 41);
    RowIs(29, 81);
    RowIs(30, 37);
    RowIs(31, 66);
  }

  lemma {:induction false} EvalCons(a: int, c: Poly, x: int)
    ensures Eval([a] + c, x) == Horner(a, x, Eval(c, x))
  {
    assert ([a] + c)[1..] == c;
  }

  lemma {:induction false} EvalLast(a: int, x: int)
    ensures Eval([a], x) == a
  {
    assert [a][1..] == [];
  }

  lemma {:induction false} SecondIsValue(x: int)
    ensures Eval(SECOND_POLY, x) == SecondValue(x)
  {
    hide Horner, Eval;
    EvalLast(24, x);
    EvalCons(54, [24], x);
    EvalCons(71, [54, 24], x);
    EvalCons(59, [71, 54, 24], x);
    EvalCons(66, [59, 71, 54, 24], x);
    EvalCons(93, [66, 59, 71, 54, 24], x);
    assert [93] + [66, 59, 71, 54, 24] == SECOND_POLY;
    assert [66] + [59, 71, 54, 24] == [66, 59, 71, 54, 24];
    assert [59] + [71, 54, 24] == [59, 71, 54, 24];
    assert [71] + [54, 24] == [71, 54, 24];
    assert [54] + [24] == [54, 24];
  }

  lemma {:induction false} ThirdIsValue(x: int)
    ensures Eval(THIRD_POLY, x) == ThirdValue(x)
  {
    hide Horner, Eval;
    EvalLast(35, x);
    EvalCons(82, [35], x);
    EvalCons(78, [82, 35], x);
    EvalCons(2, [78, 82, 35], x);
    EvalCons(77, [2, 78, 82, 35], x);
    EvalCons(91, [77, 2, 78, 82, 35], x);
    assert [91] + [77, 2, 78, 82, 35] == THIRD_POLY;
    assert [77] + [2, 78, 82, 35] == [77, 2, 78, 82, 35];
    assert [2] + [78, 82, 35] == [2, 78, 82, 35];
    assert [78] + [82, 35] == [78, 82, 35];
    assert [82] + [35] == [82, 35];
  }

  // ---------------------------------------------------------------- the run

  lemma {:induction false} AllRows(i: nat)
    requires i < 32
    ensures RowHolds(i)
  {
    Rows0();
    Rows8();
    Rows16();
    Rows24();
    hide RowHolds;
  }

  lemma {:induction false} BlockEntry(i: nat)
    requires i < 32
    ensures
      var x := PROGRAM.CommitmentDomain()[i];
      && Eval(SECOND_POLY, x) % 97 == SECOND_BLOCK[i] && Eval(THIRD_POLY, x) % 97 == THIRD_BLOCK[i]
      && !Cong(97, x, DEEP_TEST_POINT)
  {
    hide SecondValue, ThirdValue, Eval, ShiftedPowers, Cong;
    var x := ShiftedPowers(97, 5, 125, 32)[i];
    AllRows(i);
    PointReduced(i);
    SecondIsValue(x);
    ThirdIsValue(x);
    OtherResidue(x);
  }

  lemma {:induction false} OtherResidue(x: int)
    requires 0 <= x < 97 && x != DEEP_TEST_POINT
    ensures !Cong(97, x, DEEP_TEST_POINT)
  {
    if Cong(97, x, DEEP_TEST_POINT) {
      CongSmall(97, x, DEEP_TEST_POINT);
      assert false;
    }
  }

  /** A block of reduced values of c. */
  lemma {:induction false} LowBlock(d: seq<int>, c: Poly, block: seq<int>)
    requires |block| == |d| && forall i :: 0 <= i < |d| ==> Eval(c, d[i]) % 97 == block[i]
    ensures IsLowDegree(97, d, block, |c|) && Reduced(97, block)
  {
    hide Eval;
    assert Evaluations(97, d, c) == block;
  }

  /** The two constant blocks are evaluations of six coefficients, and the DEEP point is outside the domain. */
  lemma {:induction false} ConstantBlocks()
    ensures IsLowDegree(97, PROGRAM.CommitmentDomain(), SECOND_BLOCK, 6)
    ensures IsLowDegree(97, PROGRAM.CommitmentDomain(), THIRD_BLOCK, 6)
    ensures Reduced(97, SECOND_BLOCK) && Reduced(97, THIRD_BLOCK)
    ensures Outside(97, PROGRAM.CommitmentDomain(), DEEP_TEST_POINT)
  {
    hide Eval, IsLowDegree, Reduced, Cong, ShiftedPowers;
    var d := PROGRAM.CommitmentDomain();
    forall i | 0 <= i < 32
      ensures Eval(SECOND_POLY, d[i]) % 97 == SECOND_BLOCK[i]
      ensures Eval(THIRD_POLY, d[i]) % 97 == THIRD_BLOCK[i]
      ensures !Cong(97, d[i], DEEP_TEST_POINT)
    {
      BlockEntry(i);
    }
    LowBlock(d, SECOND_POLY, SECOND_BLOCK);
    LowBlock(d, THIRD_POLY, THIRD_BLOCK);
  }

  /** What the program claims: the values of its own polynomials at the test point. */
  ghost function ProgramClaims(parameter: int): (claims: Claims)
    ensures IsTrace(TRACE, 8) && HonestClaims(TRACE, parameter, claims)
  {
    TraceIsSatisfied();
    ProgramIsValid();
    ConstantBlocks();
    LowerIsLow(97, PROGRAM.CommitmentDomain(), SECOND_BLOCK, 6, 7);
    LowerIsLow(97, PROGRAM.CommitmentDomain(), THIRD_BLOCK, 6, 7);
    hide Satisfied, IsLowDegree, Reduced, Outside, OpenedPolys;
    var polys := OpenedPolys(PROGRAM, TRACE, parameter);
    Claims(DEEP_TEST_POINT, seq(5, k requires 0 <= k < 5 => Eval(polys[k], DEEP_TEST_POINT)), SECOND_BLOCK, THIRD_BLOCK)
  }

  /** The program's own run ends in a constant block, whatever its constraint, batching and round parameters. */
  lemma {:induction false} ProgramRun(parameter: int, b: int, rounds: seq<int>)
    requires |rounds| == 3
    ensures ProgramAccepts(TRACE, parameter, ProgramClaims(parameter), b, rounds)
  {
    TraceIsSatisfied();
    hide HonestClaims, ProgramAccepts, ProgramClaims, Satisfied;
    HonestClaimsAccepted(TRACE, parameter, ProgramClaims(parameter), b, rounds);
  }
}
