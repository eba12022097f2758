/** The parameters the program runs with: a field of 97 elements, 32 points, shift 5. */
module StarkParameters {
  import opened LinearAlgebra
  import opened ModArith
  import opened Polynomials
  import opened EvaluationDomains
  import opened LocalFold
  import opened Quotients
  import opened FibonacciTrace
  import opened StarkDomains
  import opened StarkPipeline
  import opened StarkProof

  const FIELD_SIZE: Modulus := 97
  const PRIMITIVE_ROOT := 5
  const GENERATOR := 125
  const PROGRAM := Setup(FIELD_SIZE, GENERATOR, 4, 5)

  lemma {:induction false} NoSmallFactor(d: int)
    requires 2 <= d < 10
    ensures 97 % d != 0
  {
    assert 97 % 2 == 1 && 97 % 3 == 1 && 97 % 4 == 1 && 97 % 5 == 2;
    assert 97 % 6 == 1 && 97 % 7 == 6 && 97 % 8 == 1 && 97 % 9 == 7;
  }

  lemma {:induction false} LargeProduct(d: int, q: int)
    requires d >= 10 && q >= 10
    ensures q * d >= 100
  {
    assert (q - 10) * (d - 10) >= 0;
  }

  /** A divisor or its cofactor is below 10. */
  lemma {:induction false} FieldSizeIsPrime()
    ensures Prime(97)
  {
    forall d | 2 <= d < 97 ensures 97 % d != 0 {
      if d < 10 {
        NoSmallFactor(d);
      } else if 97 % d == 0 {
        var q := 97 / d;
        assert q * d == 97;
        if q >= 10 {
          LargeProduct(d, q);
          assert false;
        }
        NoSmallFactor(q);
        DivModUnique(97, q, d, 0);
        assert false;
      }
    }
  }

  /** One squaring of a reduced power. */
  lemma {:induction false} Square(g: int, j: nat, r: int)
    requires Cong(97, r, Pow(g, j))
    ensures Cong(97, r * r % 97, Pow(g, 2 * j))
  {
    CongMul(97, r, Pow(g, j), r, Pow(g, j));
    PowAdd(g, j, j);
    CongMod(97, r * r);
  }

  lemma {:induction false} FirstPower(g: int)
    ensures Cong(97, g % 97, Pow(g, 1))
  {
    CongMod(97, g);
    assert Pow(g, 1) == g * Pow(g, 0) == g;
  }

  lemma {:induction false} SixteenthPower()
    ensures Cong(97, Pow(GENERATOR, 16), -1)
  {
    hide Pow, Cong;
    FirstPower(125);
    Square(125, 1, 28);
    Square(125, 2, 8);
    Square(125, 4, 64);
    Square(125, 8, 22);
    MinusOne(Pow(125, 16));
  }

  lemma {:induction false} MinusOne(x: int)
    requires Cong(97, 96, x)
    ensures Cong(97, x, -1)
  {
  }

  /** Every exponent below 32 has a multiple that is an odd multiple of 16. */
  function Multiplier(k: nat): (t: nat)
    requires 0 < k < 32
    ensures k * t % 32 == 16
  {
    if k % 2 == 1 then 16 else if k % 4 == 2 then 8 else if k % 8 == 4 then 4 else if k % 16 == 8 then 2 else 1
  }

  lemma {:induction false} PowersOfMinusOne(n: nat)
    ensures Pow(-1, n) == if n % 2 == 0 then 1 else -1
  {
    if n > 0 {
      PowersOfMinusOne(n - 1);
    }
  }

  /** An element whose sixteenth power is -1 has no smaller period than 32. */
  lemma {:induction false} GeneratorOrder()
    ensures ExactOrder(97, GENERATOR, 32)
  {
    SixteenthPower();
    hide Pow;
    OddMultiple(97, GENERATOR, 16, 2);
    forall k | 0 < k < 32 ensures !Cong(97, Pow(GENERATOR, k), 1) {
      if Cong(97, Pow(GENERATOR, k), 1) {
        var t := Multiplier(k);
        var m := k * t / 16;
        PowMul(GENERATOR, k, t);
        PowCong(97, Pow(GENERATOR, k), 1, t);
        PowOne(t);
        assert k * t == 16 * m && m % 2 == 1;
        OddMultiple(97, GENERATOR, 16, m);
        assert false;
      }
    }
  }

  lemma {:induction false} OddMultiple(p: Modulus, g: int, half: nat, m: nat)
    requires Cong(p, Pow(g, half), -1)
    ensures Cong(p, Pow(g, half * m), if m % 2 == 0 then 1 else -1)
  {
    PowMul(g, half, m);
    PowCong(p, Pow(g, half), -1, m);
    PowersOfMinusOne(m);
  }

  /** The shift is outside the group the generator spans. */
  lemma {:induction false} ShiftIsOutside()
    ensures !Cong(97, Pow(5, 32), 1)
  {
    hide Pow, Cong;
    FirstPower(5);
    Square(5, 1, 5);
    Square(5, 2, 25);
    Square(5, 4, 43);
    Square(5, 8, 6);
    Square(5, 16, 36);
    ThirtyFive(Pow(5, 32));
  }

  lemma {:induction false} ThirtyFive(x: int)
    requires Cong(97, 35, x)
    ensures !Cong(97, x, 1)
  {
  }

  lemma {:induction false} PowProduct(x: int, y: int, n: nat)
    ensures Pow(x * y, n) == Pow(x, n) * Pow(y, n)
  {
    if n > 0 {
      PowProduct(x, y, n - 1);
      ProductStep(x, y, Pow(x, n - 1), Pow(y, n - 1));
    }
  }

  lemma {:induction false} ProductStep(x: int, y: int, a: int, b: int)
    ensures (x * y) * (a * b) == (x * a) * (y * b)
  {
    assert (x * y) * (a * b) == x * (y * (a * b));
    assert (x * a) * (y * b) == x * (a * (y * b));
    assert y * (a * b) == a * (y * b);
  }

  /** The order of the group, as an exponent, leaves only the shift. */
  lemma {:induction false} PointPower(p: Modulus, shift: int, g: int, n: nat, i: nat)
    requires i < n && Cong(p, Pow(g, n), 1)
    ensures Cong(p, Pow(ShiftedPowers(p, shift, g, n)[i], n), Pow(shift, n))
  {
    var x, a := ShiftedPowers(p, shift, g, n)[i], Pow(g, i);
    ShiftedPowerCong(p, shift, g, n, i);
    PowCong(p, x, shift * a, n);
    PowProduct(shift, a, n);
    PowMul(g, i, n);
    PowMul(g, n, i);
    assert i * n == n * i;
    PowCong(p, Pow(g, n), 1, i);
    PowOne(i);
    CongScale(p, Pow(a, n), 1, Pow(shift, n));
    CongTrans(p, Pow(x, n), Pow(shift * a, n), Pow(shift, n));
  }

  lemma {:induction false} OffTrace(p: Modulus, shift: int, g: int, m: nat, n: nat, size: nat, i: nat)
    requires size == m * n && i < size
    ensures Cong(p, Pow(g, size), 1) && Cong(p, Pow(ShiftedPowers(p, shift, g, size)[i], m), 1) ==>
              Cong(p, Pow(shift, size), 1)
  {
    var x := ShiftedPowers(p, shift, g, size)[i];
    if Cong(p, Pow(g, size), 1) && Cong(p, Pow(x, m), 1) {
      PointPower(p, shift, g, size, i);
      PowMul(x, m, n);
      PowCong(p, Pow(x, m), 1, n);
      PowOne(n);
      CongSym(p, Pow(x, size), Pow(shift, size));
      CongTrans(p, Pow(shift, size), Pow(x, size), 1);
    }
  }

  /** A coset whose shift is outside the subgroup holds no point of the trace domain. */
  lemma {:induction false} ShiftLeavesSubgroup(p: Modulus, shift: int, g: int, m: nat, n: nat, size: nat)
    requires size == m * n
    requires Cong(p, Pow(g, size), 1) && !Cong(p, Pow(shift, size), 1)
    ensures NoTracePoint(p, ShiftedPowers(p, shift, g, size), m)
  {
    hide Pow, Cong, ShiftedPowers;
    forall i | 0 <= i < size ensures !Cong(p, Pow(ShiftedPowers(p, shift, g, size)[i], m), 1) {
      OffTrace(p, shift, g, m, n, size, i);
    }
  }

  lemma {:induction false} SmallNonzero()
    ensures !Cong(97, 5, 0)
  {
  }

  /** The program's own parameters satisfy everything the theorems ask for. */
  lemma {:induction false} ProgramIsValid()
    ensures PROGRAM.Valid() && PROGRAM.Size() == 32
    ensures GENERATOR == Pow(PRIMITIVE_ROOT, (FIELD_SIZE - 1) / PROGRAM.Size())
  {
    GeneratorIsPower();
    FieldSizeIsPrime();
    GeneratorOrder();
    ShiftIsOutside();
    SmallNonzero();
    assert Cong(97, Pow(125, 32), 1);
    hide Pow, Prime, ExactOrder, NoTracePoint, Cong, ShiftedPowers;
    ShiftLeavesSubgroup(97, 5, 125, 8, 4, 32);
  }

  lemma {:induction false} GeneratorIsPower()
    ensures GENERATOR == Pow(PRIMITIVE_ROOT, (FIELD_SIZE - 1) / PROGRAM.Size())
  {
    assert Pow(5, 3) == 5 * Pow(5, 2) == 25 * Pow(5, 1) == 125 * Pow(5, 0);
  }

  /** With the program's parameters, the validity block of a trace has at most n coefficients. */
  ghost predicate IsLow(t: Trace, parameter: int, n: nat)
    requires IsTrace(t, 8)
  {
    ProgramIsValid();
    IsLowDegree(97, PROGRAM.CommitmentDomain(), ValidityBlock(PROGRAM, t, parameter), n)
  }

  /** Claims for the program's commitment domain, with batching and round parameters that are accepted. */
  ghost predicate ProgramAccepts(t: Trace, parameter: int, claims: Claims, b: int, rounds: seq<int>)
    requires IsTrace(t, 8)
  {
    ProgramIsValid();
    AreClaims(PROGRAM, claims) && Accepted(PROGRAM, t, parameter, claims, b, rounds)
  }

  /** True claims about the blocks of the trace, with two given blocks of at most seven coefficients. */
  ghost predicate HonestClaims(t: Trace, parameter: int, claims: Claims)
    requires IsTrace(t, 8)
  {
    ProgramIsValid();
    && AreClaims(PROGRAM, claims) && ClaimsTrue(PROGRAM, t, parameter, claims)
    && IsLowDegree(97, PROGRAM.CommitmentDomain(), claims.second, 7)
    && IsLowDegree(97, PROGRAM.CommitmentDomain(), claims.third, 7)
  }

  /** Some claims let more than six of the 97 batching parameters pass more than 3 * 97^2 of the 97^3 draws. */
  ghost predicate SomeClaimsPass(t: Trace, parameter: int)
    requires IsTrace(t, 8)
  {
    ProgramIsValid();
    CanPass(PROGRAM, t, parameter)
  }

  lemma {:induction false} HonestClaimsAccepted(t: Trace, parameter: int, claims: Claims, b: int, rounds: seq<int>)
    requires IsTrace(t, 8) && Satisfied(97, t, 8) && HonestClaims(t, parameter, claims) && |rounds| == 3
    ensures ProgramAccepts(t, parameter, claims, b, rounds)
  {
    ProgramIsValid();
    hide IsLowDegree, Satisfied, Accepted, ClaimsTrue, AreClaims;
    HonestProof(PROGRAM, t, parameter, claims, b, rounds);
  }

  lemma {:induction false} FewPassed(t: Trace, passed: seq<int>)
    requires IsTrace(t, 8) && Distinct(97, passed) && !Satisfied(97, t, 8)
    requires forall j :: 0 <= j < |passed| ==> SomeClaimsPass(t, passed[j])
    ensures |passed| <= 5
  {
    ProgramIsValid();
    hide Satisfied, CanPass, Setup.Valid;
    forall j | 0 <= j < |passed| ensures CanPass(PROGRAM, t, passed[j]) {
      assert SomeClaimsPass(t, passed[j]);
    }
    ProofSoundness(PROGRAM, t, passed);
  }

  /**
   * For an honest trace the validity block has seven coefficients and honest claims are accepted for every batching
   * parameter and every draw, with all 97 constraint parameters. For any other trace at most five constraint
   * parameters give 24 coefficients or fewer, and at most five can be passed, whatever is claimed.
   */
  lemma {:induction false} ProgramPipeline(t: Trace, low: seq<int>, passed: seq<int>)
    requires IsTrace(t, 8) && Distinct(97, low) && Distinct(97, passed)
    requires forall j :: 0 <= j < |low| ==> IsLow(t, low[j], 24)
    requires forall j :: 0 <= j < |passed| ==> SomeClaimsPass(t, passed[j])
    ensures Satisfied(97, t, 8) ==>
              && (forall a :: IsLow(t, a, 7))
              && (forall a, claims, b, rounds: seq<int> :: HonestClaims(t, a, claims) && |rounds| == 3 ==>
                    ProgramAccepts(t, a, claims, b, rounds))
    ensures !Satisfied(97, t, 8) ==> |low| <= 5 && |passed| <= 5
  {
    ProgramIsValid();
    hide ValidityBlock, IsLowDegree, Satisfied, HonestClaims, ProgramAccepts, SomeClaimsPass;
    if Satisfied(97, t, 8) {
      forall a ensures IsLow(t, a, 7) {
        Completeness(PROGRAM, t, a);
      }
      forall a, claims, b, rounds: seq<int> | HonestClaims(t, a, claims) && |rounds| == 3
        ensures ProgramAccepts(t, a, claims, b, rounds)
      {
        HonestClaimsAccepted(t, a, claims, b, rounds);
      }
    } else {
      Soundness(PROGRAM, t, low);
      FewPassed(t, passed);
    }
  }

  /** The program's own domain, 32 points with shift 5, is one where the rounds are not local. */
  lemma {:induction false} ProgramRoundsAreNotLocal()
    ensures !Cong(97, 5, 0) && ExactOrder(97, GENERATOR, 32) && Prime(97)
    ensures !RoundsAreLocal(97, 5, GENERATOR, 32)
  {
    FieldSizeIsPrime();
    GeneratorOrder();
    SmallNonzero();
    RoundsAreLocalIff(97, 5, GENERATOR, 32);
    assert !Cong(97, 5, 1);
  }
}
