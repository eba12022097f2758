/** The two domains of the pipeline, trace and commitment, and what one computational step is on each. */
module StarkDomains {
  import opened ModArith
  import opened Polynomials
  import opened EvaluationDomains
  import opened LocalFold
  import opened Quotients
  import opened FibonacciTrace

  /** The field, a generator of the commitment domain, its size in multiples of the trace, and its shift. */
  datatype Setup = Setup(p: Modulus, generator: int, expansion: nat, shift: int) {
    function Size(): nat { 8 * expansion }

    /** The generator of the trace domain. */
    function Omega(): int { Pow(generator, expansion) }

    function TraceDomain(): (d: seq<int>)
      ensures |d| == 8
    {
      ShiftedPowers(p, 1, Omega(), 8)
    }

    function CommitmentDomain(): (d: seq<int>)
      ensures |d| == Size()
    {
      ShiftedPowers(p, shift, generator, Size())
    }

    ghost predicate Valid() {
      && Prime(p) && expansion >= 2 && !Cong(p, shift, 0)
      && ExactOrder(p, generator, Size())
      && NoTracePoint(p, CommitmentDomain(), 8)
    }
  }

  // ---------------------------------------------------------------- the two domains

  lemma {:induction false} PowMul(x: int, m: nat, n: nat)
    ensures Pow(Pow(x, m), n) == Pow(x, m * n)
  {
    if n > 0 {
      PowMul(x, m, n - 1);
      PowAdd(x, m, m * (n - 1));
      assert m + m * (n - 1) == m * n;
    }
  }

  lemma {:induction false} PowCong(p: Modulus, x: int, y: int, n: nat)
    requires Cong(p, x, y)
    ensures Cong(p, Pow(x, n), Pow(y, n))
  {
    if n > 0 {
      PowCong(p, x, y, n - 1);
      CongMul(p, x, y, Pow(x, n - 1), Pow(y, n - 1));
    }
  }

  lemma {:induction false} PowOne(n: nat)
    ensures Pow(1, n) == 1
  {
    if n > 0 {
      PowOne(n - 1);
    }
  }

  lemma OmegaOrder(s: Setup)
    requires s.Valid()
    ensures ExactOrder(s.p, s.Omega(), 8) && !Cong(s.p, s.Omega(), 0)
  {
    PowMul(s.generator, s.expansion, 8);
    assert s.expansion * 8 == s.Size();
    forall k | 0 < k < 8 ensures !Cong(s.p, Pow(s.Omega(), k), 1) {
      PowMul(s.generator, s.expansion, k);
      assert 0 < s.expansion * k < s.Size();
    }
    HalfPower(s.p, s.Omega(), 8);
  }

  lemma TraceDomainDistinct(s: Setup)
    requires s.Valid()
    ensures Distinct(s.p, s.TraceDomain())
  {
    OmegaOrder(s);
    hide Pow, NoTracePoint;
    NonzeroOne(s.p);
    ShiftedPowersDistinct(s.p, 1, s.Omega(), 8);
  }

  lemma NonzeroOne(p: Modulus)
    ensures !Cong(p, 1, 0)
  {
  }

  lemma DomainsDistinct(s: Setup)
    requires s.Valid()
    ensures Distinct(s.p, s.TraceDomain()) && Distinct(s.p, s.CommitmentDomain())
  {
    hide Pow, NoTracePoint, Distinct;
    TraceDomainDistinct(s);
    HalfPower(s.p, s.generator, s.Size());
    ShiftedPowersDistinct(s.p, s.shift, s.generator, s.Size());
  }

  lemma TraceDomainPoints(s: Setup)
    requires s.Valid()
    ensures TracePoints(s.p, s.TraceDomain(), 8)
  {
    DomainsDistinct(s);
    OmegaOrder(s);
    forall i | 0 <= i < 8 ensures Cong(s.p, Pow(s.TraceDomain()[i], 8), 1) {
      var w := s.Omega();
      ShiftedPowerCong(s.p, 1, w, 8, i);
      PowCong(s.p, s.TraceDomain()[i], Pow(w, i), 8);
      PowMul(w, i, 8);
      PowMul(w, 8, i);
      assert i * 8 == 8 * i;
      PowCong(s.p, Pow(w, 8), 1, i);
      PowOne(i);
    }
  }

  // ---------------------------------------------------------------- stepping back on a domain

  /** The point one step before is omega^7 times the point. */
  ghost predicate StepsBack(p: Modulus, d: seq<int>, w: int) {
    forall i :: 0 <= i < |d| ==> Cong(p, d[Previous(|d|, i)], w * d[i])
  }

  /** A generator of n points whose eighth part is the eighth root of unity omega. */
  ghost predicate StepsBy(p: Modulus, h: int, n: nat, omega: int) {
    Cong(p, Pow(h, n), 1) && Cong(p, Pow(h, n / 8), omega) && Cong(p, Pow(omega, 8), 1)
  }

  lemma DomainStepsBack(p: Modulus, shift: int, h: int, n: nat, omega: int)
    requires n > 0 && StepsBy(p, h, n, omega)
    ensures StepsBack(p, ShiftedPowers(p, shift, h, n), Pow(omega, 7))
  {
    var d := ShiftedPowers(p, shift, h, n);
    forall i | 0 <= i < n ensures Cong(p, d[Previous(n, i)], Pow(omega, 7) * d[i]) {
      PointStepsForward(p, shift, h, n, i);
      var j := Previous(n, i);
      UndoStep(p, d[j], d[i], Pow(h, n / 8), omega);
    }
  }

  /** From the previous point to point i is one factor h^(n/8), cyclically. */
  lemma PointStepsForward(p: Modulus, shift: int, h: int, n: nat, i: nat)
    requires i < n && Cong(p, Pow(h, n), 1)
    ensures var d := ShiftedPowers(p, shift, h, n);
            Cong(p, d[i], d[Previous(n, i)] * Pow(h, n / 8))
  {
    var d, j, step := ShiftedPowers(p, shift, h, n), Previous(n, i), Pow(h, n / 8);
    ShiftedPowerCong(p, shift, h, n, i);
    ShiftedPowerCong(p, shift, h, n, j);
    CongScale(p, d[j], shift * Pow(h, j), step);
    PreviousExponent(n, i);
    StepExponent(p, shift, h, n, j, n / 8, i);
    CongTrans(p, d[i], shift * Pow(h, i), (shift * Pow(h, j)) * step);
  }

  lemma PreviousExponent(n: nat, i: nat)
    requires i < n
    ensures Previous(n, i) + n / 8 == i || Previous(n, i) + n / 8 == i + n
  {
    assert n / 8 % n == n / 8;
  }

  lemma StepExponent(p: Modulus, shift: int, h: int, n: nat, j: nat, step: nat, i: nat)
    requires (j + step == i || j + step == i + n) && Cong(p, Pow(h, n), 1)
    ensures Cong(p, shift * Pow(h, i), (shift * Pow(h, j)) * Pow(h, step))
  {
    hide Cong, Pow;
    PowAdd(h, j, step);
    PowWraps(p, h, n, j + step, i);
    CongScaleLeft(p, Pow(h, i), shift, Pow(h, j), Pow(h, step));
  }

  lemma PowWraps(p: Modulus, h: int, n: nat, e: nat, i: nat)
    requires (e == i || e == i + n) && Cong(p, Pow(h, n), 1)
    ensures Cong(p, Pow(h, i), Pow(h, e))
  {
    PowAdd(h, i, n);
    CongScale(p, Pow(h, n), 1, Pow(h, i));
  }

  lemma UndoStep(p: Modulus, before: int, at: int, step: int, omega: int)
    requires Cong(p, at, before * step) && Cong(p, step, omega) && Cong(p, Pow(omega, 8), 1)
    ensures Cong(p, before, Pow(omega, 7) * at)
  {
    var back := Pow(omega, 7);
    assert Pow(omega, 8) == omega * back;
    CongScale(p, step, omega, before);
    CongScale(p, at, before * omega, back);
    assert back * (before * omega) == before * (omega * back);
    CongScale(p, omega * back, 1, before);
  }
}
