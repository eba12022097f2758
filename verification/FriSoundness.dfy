/** How often folding hides a high degree: over all rounds, for few of the parameters that may be drawn. */
module FriSoundness {
  import opened ModArith
  import opened LinearAlgebra
  import opened Polynomials
  import opened Interpolation
  import opened EvaluationDomains
  import opened Fri
  import opened Prelude

  // ---------------------------------------------------------------- one round

  lemma DifferenceFactors(e: int, o: int, a: int, b: int)
    ensures (e + a * o) - (e + b * o) == (a - b) * o
  {
  }

  lemma PairVanishes(p: Modulus, e: int, o: int, a: int, b: int)
    requires Prime(p) && Cong(p, e + a * o, 0) && Cong(p, e + b * o, 0) && !Cong(p, b, a)
    ensures Cong(p, e, 0) && Cong(p, o, 0)
  {
    hide Cong;
    CongSub(p, e + a * o, 0, e + b * o, 0);
    DifferenceFactors(e, o, a, b);
    NonzeroDifference(p, a, b);
    NoZeroDivisors(p, a - b, o);
    CongScale(p, o, 0, a);
    CongSub(p, e + a * o, 0, a * o, 0);
  }

  /** At most one parameter, modulo p, folds a polynomial of degree 2n or more below degree n. */
  lemma FoldDropsOnce(p: Modulus, c: Poly, n: nat, a: int, b: int)
    requires Prime(p) && |c| % 2 == 0 && !DegreeBelow(p, c, 2 * n)
    requires DegreeBelow(p, Fold(c, a), n) && DegreeBelow(p, Fold(c, b), n)
    ensures Cong(p, a, b)
  {
    var j :| 2 * n <= j < |c| && !Cong(p, c[j], 0);
    var i := j / 2;
    assert n <= i < |c| / 2;
    assert Cong(p, Fold(c, a)[i], 0) && Cong(p, Fold(c, b)[i], 0);
    if !Cong(p, a, b) {
      PairVanishes(p, c[2 * i], c[2 * i + 1], a, b);
      assert false;
    }
  }

  // ---------------------------------------------------------------- counting draws

  /** One parameter of the field for each of k rounds. */
  predicate IsDraw(p: Modulus, ps: seq<int>, k: nat) {
    |ps| == k && forall i :: 0 <= i < k ==> 0 <= ps[i] < p
  }

  /** The draws of the later rounds when the first parameter is a. */
  function Tails(draws: set<seq<int>>, a: int): (tails: set<seq<int>>)
    ensures forall ps :: ps in tails <==> [a] + ps in draws
  {
    var tails := set ps | ps in draws && ps != [] && ps[0] == a :: ps[1..];
    assert forall ps :: [a] + ps in draws ==> ([a] + ps)[1..] == ps;
    assert forall ps :: ps in draws && ps != [] && ps[0] == a ==> ps == [a] + ps[1..];
    tails
  }

  function Starting(draws: set<seq<int>>, a: int): set<seq<int>> {
    set ps | ps in draws && ps != [] && ps[0] == a
  }

  lemma {:induction false} TailsSize(draws: set<seq<int>>, a: int)
    ensures |Starting(draws, a)| == |Tails(draws, a)|
    decreases |draws|
  {
    if ps :| ps in Starting(draws, a) {
      var rest := draws - {ps};
      TailsSize(rest, a);
      assert ps == [a] + ps[1..];
      assert Starting(draws, a) == Starting(rest, a) + {ps};
      assert Tails(draws, a) == Tails(rest, a) + {ps[1..]} by {
        assert forall qs :: [a] + qs == ps ==> qs == ps[1..];
      }
    } else {
      assert Tails(draws, a) == {} by {
        assert forall qs :: [a] + qs in draws ==> [a] + qs in Starting(draws, a);
      }
    }
  }

  /** The draws that start below m, counted by their first parameter. */
  function CountTails(draws: set<seq<int>>, m: nat): nat {
    if m == 0 then 0 else CountTails(draws, m - 1) + |Tails(draws, m - 1)|
  }

  lemma {:induction false} CountIsSize(draws: set<seq<int>>, m: nat)
    requires forall ps :: ps in draws ==> ps != [] && 0 <= ps[0] < m
    ensures |draws| == CountTails(draws, m)
  {
    if m > 0 {
      var last := Starting(draws, m - 1);
      var rest := draws - last;
      CountIsSize(rest, m - 1);
      SameCount(draws, rest, m - 1);
      TailsSize(draws, m - 1);
      assert draws == rest + last;
    } else if ps :| ps in draws {
      assert false;
    }
  }

  lemma {:induction false} SameCount(draws: set<seq<int>>, rest: set<seq<int>>, m: nat)
    requires rest == draws - Starting(draws, m)
    ensures forall k: nat :: k <= m ==> CountTails(rest, k) == CountTails(draws, k)
  {
    for k := 0 to m
      invariant forall l: nat :: l <= k ==> CountTails(rest, l) == CountTails(draws, l)
    {
      forall ps ensures [k] + ps in rest <==> [k] + ps in draws {
        assert ([k] + ps)[0] == k;
      }
      assert Tails(rest, k) == Tails(draws, k);
    }
  }

  /** With one exception e, no first parameter leaves more than `most` draws. */
  lemma {:induction false} CountBound(draws: set<seq<int>>, m: nat, e: int, most: nat, exception: nat)
    requires forall a :: 0 <= a < m ==> |Tails(draws, a)| <= if a == e then exception else most
    ensures CountTails(draws, m) <= m * most + if 0 <= e < m then exception else 0
  {
    if m > 0 {
      CountBound(draws, m - 1, e, most, exception);
      assert m * most == (m - 1) * most + most;
    }
  }

  lemma {:induction false} PowPositive(x: int, n: nat)
    requires x > 0
    ensures Pow(x, n) > 0
  {
    if n > 0 {
      PowPositive(x, n - 1);
      MulNonnegative(x - 1, Pow(x, n - 1));
      assert x * Pow(x, n - 1) == (x - 1) * Pow(x, n - 1) + Pow(x, n - 1);
    }
  }

  /** There are p to the k draws of k parameters. */
  lemma {:induction false} DrawsBound(p: Modulus, k: nat, draws: set<seq<int>>)
    requires forall ps :: ps in draws ==> IsDraw(p, ps, k)
    ensures |draws| <= Pow(p, k)
  {
    if k == 0 {
      assert draws <= {[]};
      SubsetSize(draws, {[]});
    } else {
      forall a | 0 <= a < p ensures |Tails(draws, a)| <= Pow(p, k - 1) {
        TailsAreDraws(p, k, draws, a);
        DrawsBound(p, k - 1, Tails(draws, a));
      }
      PowPositive(p, k - 1);
      CountIsSize(draws, p);
      CountBound(draws, p, -1, Pow(p, k - 1), 0);
    }
  }

  lemma SubsetSize<T>(a: set<T>, b: set<T>)
    requires a <= b
    ensures |a| <= |b|
  {
    assert b == a + (b - a);
  }

  lemma TailsAreDraws(p: Modulus, k: nat, draws: set<seq<int>>, a: int)
    requires k > 0 && forall ps :: ps in draws ==> IsDraw(p, ps, k)
    ensures forall ps :: ps in Tails(draws, a) ==> IsDraw(p, ps, k - 1)
  {
    forall ps | ps in Tails(draws, a) ensures IsDraw(p, ps, k - 1) {
      var whole := [a] + ps;
      assert IsDraw(p, whole, k);
      assert forall i :: 0 <= i < |ps| ==> ps[i] == whole[i + 1];
    }
  }

  // ---------------------------------------------------------------- all rounds

  /** All these draws fold c below degree n. */
  ghost predicate AllFold(p: Modulus, c: Poly, n: nat, k: nat, draws: set<seq<int>>) {
    forall ps :: ps in draws ==> IsDraw(p, ps, k) && DegreeBelow(p, FoldAll(c, ps), n)
  }

  lemma TailsFold(p: Modulus, c: Poly, n: nat, k: nat, draws: set<seq<int>>, a: int)
    requires k > 0 && AllFold(p, c, n, k, draws)
    ensures AllFold(p, Fold(c, a), n, k - 1, Tails(draws, a))
  {
    TailsAreDraws(p, k, draws, a);
    forall ps | ps in Tails(draws, a) ensures DegreeBelow(p, FoldAll(Fold(c, a), ps), n) {
      var whole := [a] + ps;
      assert whole in draws && whole[1..] == ps;
    }
  }

  /** How many of the p to the k draws may fold a polynomial of high degree below the bound. */
  function Exceptions(p: Modulus, k: nat): int {
    if k == 0 then 0 else k * Pow(p, k - 1)
  }

  lemma ExceptionsStep(p: Modulus, k: nat)
    requires k > 0
    ensures p * Exceptions(p, k - 1) + Pow(p, k - 1) == Exceptions(p, k) && Exceptions(p, k - 1) >= 0
  {
    if k > 1 {
      var w := Pow(p, k - 2);
      PowPositive(p, k - 2);
      MulNonnegative(k - 1, w);
      assert p * ((k - 1) * w) == (k - 1) * (p * w);
      assert (k - 1) * (p * w) + p * w == k * (p * w);
    } else {
      assert Pow(p, 0) == 1;
    }
  }

  lemma HalfLength(n: nat, q: nat)
    requires q > 0 && n % (2 * q) == 0
    ensures n % 2 == 0 && n / 2 % q == 0
  {
    var m := n / (2 * q);
    assert n == 2 * (m * q) by {
      assert n == m * (2 * q);
    }
    DivModUnique(n / 2, q, m, 0);
  }

  /**
   * A polynomial of degree 2^k * n or more is folded below degree n by at most k * p^(k - 1) of the p^k draws of
   * parameters for k rounds.
   */
  lemma {:induction false} FriIsSound(p: Modulus, c: Poly, n: nat, k: nat, draws: set<seq<int>>)
    requires Prime(p) && |c| % Power2(k) == 0 && !DegreeBelow(p, c, Power2(k) * n)
    requires AllFold(p, c, n, k, draws)
    ensures |draws| <= Exceptions(p, k)
    decreases k
  {
    if k == 0 {
      if ps :| ps in draws {
        assert false;
      }
    } else {
      var q := Power2(k - 1);
      assert Power2(k) * n == 2 * (q * n);
      HalfLength(|c|, q);
      var e := if e :| 0 <= e < p && DegreeBelow(p, Fold(c, e), q * n) then e else -1;
      PowPositive(p, k - 1);
      ExceptionsStep(p, k);
      forall a | 0 <= a < p
        ensures |Tails(draws, a)| <= if a == e then Pow(p, k - 1) else Exceptions(p, k - 1)
      {
        FirstParameter(p, c, n, k, draws, a, e);
      }
      assert forall ps :: ps in draws ==> IsDraw(p, ps, k);
      CountIsSize(draws, p);
      CountBound(draws, p, e, Exceptions(p, k - 1), Pow(p, k - 1));
    }
  }

  /** After one bad first parameter anything may follow; after any other, few draws do. */
  lemma {:induction false} FirstParameter(p: Modulus, c: Poly, n: nat, k: nat, draws: set<seq<int>>, a: int, e: int)
    requires Prime(p) && k > 0 && |c| % 2 == 0 && |c| / 2 % Power2(k - 1) == 0
    requires !DegreeBelow(p, c, 2 * (Power2(k - 1) * n)) && AllFold(p, c, n, k, draws) && 0 <= a < p
    requires if e == -1 then forall b :: 0 <= b < p ==> !DegreeBelow(p, Fold(c, b), Power2(k - 1) * n)
             else 0 <= e < p && DegreeBelow(p, Fold(c, e), Power2(k - 1) * n)
    ensures |Tails(draws, a)| <= if a == e then Pow(p, k - 1) else Exceptions(p, k - 1)
    decreases k, 0
  {
    TailsFold(p, c, n, k, draws, a);
    if a == e {
      DrawsBound(p, k - 1, Tails(draws, a));
    } else {
      if DegreeBelow(p, Fold(c, a), Power2(k - 1) * n) {
        FoldDropsOnce(p, c, Power2(k - 1) * n, a, e);
        CongSmall(p, a, e);
        assert false;
      }
      FriIsSound(p, Fold(c, a), n, k - 1, Tails(draws, a));
    }
  }

  /** A polynomial of degree 2^k * n or more is not folded below degree n by some draw of zeros and ones. */
  lemma {:induction false} SomeDrawShows(p: Modulus, c: Poly, n: nat, k: nat) returns (ps: seq<int>)
    requires Prime(p) && |c| % Power2(k) == 0 && !DegreeBelow(p, c, Power2(k) * n)
    ensures IsDraw(p, ps, k) && !DegreeBelow(p, FoldAll(c, ps), n)
    decreases k
  {
    ps := [];
    if k > 0 {
      var q := Power2(k - 1);
      assert Power2(k) * n == 2 * (q * n);
      HalfLength(|c|, q);
      var a := if DegreeBelow(p, Fold(c, 0), q * n) then 1 else 0;
      if DegreeBelow(p, Fold(c, a), q * n) {
        FoldDropsOnce(p, c, q * n, 0, 1);
        assert false;
      }
      var rest := SomeDrawShows(p, Fold(c, a), n, k - 1);
      ps := [a] + rest;
      assert ps[1..] == rest;
    }
  }

  // ---------------------------------------------------------------- what the last block shows

  lemma {:induction false} HalvedDistinct(p: Modulus, d: seq<int>, k: nat)
    requires Distinct(p, d)
    ensures Distinct(p, Halved(d, k))
    decreases k
  {
    if k > 0 {
      EvensDistinct(p, d);
      HalvedDistinct(p, Evens(d), k - 1);
    }
  }

  ghost predicate IsConstant(block: seq<int>) {
    forall i, j :: 0 <= i < |block| && 0 <= j < |block| ==> block[i] == block[j]
  }

  /** A block of evaluations is constant exactly when the degree is 0. */
  lemma ConstantIff(p: Modulus, d: seq<int>, c: Poly)
    requires Prime(p) && Distinct(p, d) && |c| == |d|
    ensures IsConstant(Evaluations(p, d, c)) <==> DegreeBelow(p, c, 1)
  {
    if d != [] {
      var block := Evaluations(p, d, c);
      if DegreeBelow(p, c, 1) {
        forall i | 0 <= i < |d| ensures block[i] == c[0] % p {
          ConstantValue(p, c, c[0], d[i]);
        }
      }
      if IsConstant(block) {
        var flat := Extend([block[0]], |d|);
        forall i | 0 <= i < |d| ensures Cong(p, Eval(c, d[i]), Eval(flat, d[i])) {
          EvalPadded([block[0]], flat, d[i]);
          assert [block[0]][1..] == [];
          assert block[i] == block[0];
          CongMod(p, Eval(c, d[i]));
        }
        Identity(p, c, flat, d);
      }
    }
  }

  lemma ConstantValue(p: Modulus, c: Poly, e: int, x: int)
    requires c != [] && c[0] == e && DegreeBelow(p, c, 1)
    ensures Eval(c, x) % p == e % p
  {
    var flat := Extend([e], |c|);
    forall j | 0 <= j < |c| ensures Cong(p, c[j], flat[j]) {
    }
    EvalCong(p, c, flat, x, x);
    EvalPadded([e], flat, x);
    assert [e][1..] == [];
  }

  /** The last block of the commit rounds is constant exactly when the folded coefficients have degree 0. */
  lemma FinalBlockConstantIff(p: Modulus, d: seq<int>, c: Poly, ps: seq<int>)
    requires Prime(p) && Distinct(p, d) && |c| == |d|
    ensures IsConstant(FriBlock(p, d, Evaluations(p, d, c), ps)) <==> DegreeBelow(p, FoldAll(c, ps), 1)
  {
    FriFoldsCoefficients(p, d, c, ps);
    HalvedDistinct(p, d, |ps|);
    ConstantIff(p, Halved(d, |ps|), FoldAll(c, ps));
  }

  /** k rounds on these parameters end in a constant block. */
  ghost predicate EndsConstant(p: Modulus, d: seq<int>, block: seq<int>, ps: seq<int>)
    requires Prime(p) && Distinct(p, d) && |block| == |d|
  {
    IsConstant(FriBlock(p, d, block, ps))
  }

  /** k rounds on the evaluations of degree 2^k or more end constant for at most k * p^(k - 1) of the p^k draws. */
  lemma FinalBlockIsSound(p: Modulus, d: seq<int>, c: Poly, k: nat, draws: set<seq<int>>)
    requires Prime(p) && Distinct(p, d) && |c| == |d| && |d| % Power2(k) == 0 && !DegreeBelow(p, c, Power2(k))
    requires forall ps :: ps in draws ==> IsDraw(p, ps, k) && EndsConstant(p, d, Evaluations(p, d, c), ps)
    ensures |draws| <= Exceptions(p, k)
  {
    hide FriBlock, FoldAll, DegreeBelow, IsConstant;
    forall ps | ps in draws ensures DegreeBelow(p, FoldAll(c, ps), 1) {
      assert EndsConstant(p, d, Evaluations(p, d, c), ps);
      FinalBlockConstantIff(p, d, c, ps);
    }
    FriIsSound(p, c, 1, k, draws);
  }
}
