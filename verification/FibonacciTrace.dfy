/** The six constraints of a Fibonacci trace, row by row. */
module FibonacciTrace {
  import opened ModArith

  /** Columns d1, d2, d3 (data) and c1, c2, c3 (control), all of one length. */
  type Trace = seq<seq<int>>

  predicate IsTrace(t: Trace, n: nat) {
    |t| == 6 && n > 0 && forall k :: 0 <= k < 6 ==> |t[k]| == n
  }

  /** The row one computational step before row i, cyclically; a step is an eighth of the rows. */
  function Previous(n: nat, i: nat): (j: nat)
    requires i < n
    ensures j < n
  {
    var j := i - n / 8 % n;
    if j >= 0 then j else j + n
  }

  function FibConstraint(p: Modulus, t: Trace, n: nat): (c: seq<int>)
    requires IsTrace(t, n)
    ensures |c| == n
  {
    seq(n, i requires 0 <= i < n => ((t[2][i] - t[1][i] - t[0][i]) * (t[3][i] + t[4][i] + t[5][i])) % p)
  }

  function Init1Constraint(p: Modulus, t: Trace, n: nat): (c: seq<int>)
    requires IsTrace(t, n)
    ensures |c| == n
  {
    seq(n, i requires 0 <= i < n => ((t[0][i] - 24) * t[3][i]) % p)
  }

  function Init2Constraint(p: Modulus, t: Trace, n: nat): (c: seq<int>)
    requires IsTrace(t, n)
    ensures |c| == n
  {
    seq(n, i requires 0 <= i < n => ((t[1][i] - 30) * t[3][i]) % p)
  }

  function TerminationConstraint(p: Modulus, t: Trace, n: nat): (c: seq<int>)
    requires IsTrace(t, n)
    ensures |c| == n
  {
    seq(n, i requires 0 <= i < n => ((t[2][i] - 28) * t[5][i]) % p)
  }

  /** Data column k is the column after it, one step before. */
  function RecursionEntry(p: Modulus, t: Trace, n: nat, k: nat, i: nat): int
    requires IsTrace(t, n) && k < 2 && i < n
  {
    ((t[k][i] - t[k + 1][Previous(n, i)]) * t[4][i]) % p
  }

  function RecursionConstraint(p: Modulus, t: Trace, n: nat, k: nat): (c: seq<int>)
    requires IsTrace(t, n) && k < 2
    ensures |c| == n
  {
    seq(n, i requires 0 <= i < n => RecursionEntry(p, t, n, k, i))
  }

  /** The loop of the first (k == 0) and second (k == 1) recursion constraint. */
  method ComputeRecursionConstraint(p: Modulus, t: Trace, k: nat) returns (constraint: seq<int>)
    requires |t| == 6 && IsTrace(t, |t[0]|) && k < 2
    ensures constraint == RecursionConstraint(p, t, |t[0]|, k)
  {
    var n := |t[0]|;
    constraint := seq(n, _ => 0);
    for i := 0 to n
      invariant |constraint| == n
      invariant forall q :: 0 <= q < i ==> constraint[q] == RecursionEntry(p, t, n, k, q)
    {
      var j := i - n / 8 % n;
      if j < 0 {
        j := j + n;
      }
      constraint := constraint[i := ((t[k][i] - t[k + 1][j]) * t[4][i]) % p];
    }
  }

  /** The constraint blocks in the order in which they are mixed. */
  function Constraints(p: Modulus, t: Trace, n: nat): (c: seq<seq<int>>)
    requires IsTrace(t, n)
    ensures |c| == 6 && forall k :: 0 <= k < 6 ==> |c[k]| == n
  {
    [FibConstraint(p, t, n), Init1Constraint(p, t, n), Init2Constraint(p, t, n), TerminationConstraint(p, t, n),
     RecursionConstraint(p, t, n, 0), RecursionConstraint(p, t, n, 1)]
  }

  ghost predicate RowSatisfied(p: Modulus, t: Trace, n: nat, i: nat)
    requires IsTrace(t, n) && i < n
  {
    forall k :: 0 <= k < 6 ==> Constraints(p, t, n)[k][i] == 0
  }

  ghost predicate Satisfied(p: Modulus, t: Trace, n: nat)
    requires IsTrace(t, n)
  {
    forall i :: 0 <= i < n ==> RowSatisfied(p, t, n, i)
  }

  /** Control columns: row 0 initialises, rows 1 to m compute, row m terminates, the rest is padding. */
  ghost predicate Controls(t: Trace, n: nat, m: nat)
    requires IsTrace(t, n)
  {
    && m < n
    && forall i :: 0 <= i < n ==>
         && t[3][i] == (if i == 0 then 1 else 0)
         && t[4][i] == (if 1 <= i <= m then 1 else 0)
         && t[5][i] == (if i == m then 1 else 0)
  }

  // ---------------------------------------------------------------- what the constraints say

  /** Row i of the data columns: its own sum, and its link to the row one step before. */
  ghost predicate RowRuns(p: Modulus, t: Trace, n: nat, i: nat)
    requires IsTrace(t, n) && i < n
  {
    && Cong(p, t[2][i], t[0][i] + t[1][i])
    && (i > 0 ==> Cong(p, t[0][i], t[1][Previous(n, i)]) && Cong(p, t[1][i], t[2][Previous(n, i)]))
  }

  /** Rows 0 to m start at (24, 30), add up, take their inputs from the previous row, and end in 28. */
  ghost predicate Runs(p: Modulus, t: Trace, n: nat, m: nat)
    requires IsTrace(t, n) && m < n
  {
    && Cong(p, t[0][0], 24) && Cong(p, t[1][0], 30) && Cong(p, t[2][m], 28)
    && forall i :: 0 <= i <= m ==> RowRuns(p, t, n, i)
  }

  /** A selected difference vanishes exactly when its two sides agree. */
  lemma {:induction false} Selected(p: Modulus, a: int, b: int, selector: int)
    requires Prime(p) && !Cong(p, selector, 0)
    ensures ((a - b) * selector) % p == 0 <==> Cong(p, a, b)
  {
    CongDifference(p, a, b);
    if Cong(p, a - b, 0) {
      CongScale(p, a - b, 0, selector);
    } else if Cong(p, (a - b) * selector, 0) {
      NoZeroDivisors(p, a - b, selector);
    }
  }

  lemma {:induction false} OddPrimeSelectors(p: Modulus)
    requires p > 2
    ensures !Cong(p, 1, 0) && !Cong(p, 2, 0)
  {
  }

  lemma {:induction false} FibRow(p: Modulus, t: Trace, n: nat, m: nat, i: nat)
    requires Prime(p) && p > 2 && IsTrace(t, n) && Controls(t, n, m) && i < n
    ensures FibConstraint(p, t, n)[i] == 0 <==> i <= m ==> Cong(p, t[2][i], t[0][i] + t[1][i])
  {
    OddPrimeSelectors(p);
    var selector := t[3][i] + t[4][i] + t[5][i];
    assert t[2][i] - t[1][i] - t[0][i] == t[2][i] - (t[0][i] + t[1][i]);
    if i <= m {
      assert selector == 1 || selector == 2;
      Selected(p, t[2][i], t[0][i] + t[1][i], selector);
    } else {
      assert selector == 0;
    }
  }

  lemma {:induction false} EdgeRows(p: Modulus, t: Trace, n: nat, m: nat, i: nat)
    requires Prime(p) && p > 2 && IsTrace(t, n) && Controls(t, n, m) && i < n
    ensures Init1Constraint(p, t, n)[i] == 0 <==> i == 0 ==> Cong(p, t[0][i], 24)
    ensures Init2Constraint(p, t, n)[i] == 0 <==> i == 0 ==> Cong(p, t[1][i], 30)
    ensures TerminationConstraint(p, t, n)[i] == 0 <==> i == m ==> Cong(p, t[2][i], 28)
  {
    Selected(p, t[0][i], 24, 1);
    Selected(p, t[1][i], 30, 1);
    Selected(p, t[2][i], 28, 1);
  }

  lemma {:induction false} RecursionRow(p: Modulus, t: Trace, n: nat, m: nat, k: nat, i: nat)
    requires Prime(p) && p > 2 && IsTrace(t, n) && Controls(t, n, m) && k < 2 && i < n
    ensures RecursionConstraint(p, t, n, k)[i] == 0
       <==> 1 <= i <= m ==> Cong(p, t[k][i], t[k + 1][Previous(n, i)])
  {
    Selected(p, t[k][i], t[k + 1][Previous(n, i)], 1);
  }

  /** The six constraints of one row, spelled out. */
  lemma {:induction false} RowSatisfiedIff(p: Modulus, t: Trace, n: nat, m: nat, i: nat)
    requires Prime(p) && p > 2 && IsTrace(t, n) && Controls(t, n, m) && i < n
    ensures RowSatisfied(p, t, n, i) <==>
      && (i <= m ==> RowRuns(p, t, n, i))
      && (i == 0 ==> Cong(p, t[0][i], 24) && Cong(p, t[1][i], 30))
      && (i == m ==> Cong(p, t[2][i], 28))
  {
    hide FibConstraint, Init1Constraint, Init2Constraint, TerminationConstraint, RecursionConstraint;
    FibRow(p, t, n, m, i);
    EdgeRows(p, t, n, m, i);
    RecursionRow(p, t, n, m, 0, i);
    RecursionRow(p, t, n, m, 1, i);
    var c := Constraints(p, t, n);
    assert RowSatisfied(p, t, n, i) <==>
      c[0][i] == 0 && c[1][i] == 0 && c[2][i] == 0 && c[3][i] == 0 && c[4][i] == 0 && c[5][i] == 0;
  }

  /** All constraints vanish exactly when the data columns run the program, whatever the padding holds. */
  lemma {:induction false} SatisfiedIffRuns(p: Modulus, t: Trace, n: nat, m: nat)
    requires Prime(p) && p > 2 && IsTrace(t, n) && Controls(t, n, m)
    ensures Satisfied(p, t, n) <==> Runs(p, t, n, m)
  {
    hide Constraints, RowRuns;
    forall i | 0 <= i < n
      ensures RowSatisfied(p, t, n, i) <==>
        && (i <= m ==> RowRuns(p, t, n, i))
        && (i == 0 ==> Cong(p, t[0][i], 24) && Cong(p, t[1][i], 30))
        && (i == m ==> Cong(p, t[2][i], 28))
    {
      RowSatisfiedIff(p, t, n, m, i);
    }
  }

  /** The sequence the program computes. */
  function Fibonacci(i: nat): int {
    if i == 0 then 24 else if i == 1 then 30 else Fibonacci(i - 2) + Fibonacci(i - 1)
  }

  ghost predicate RowIsFibonacci(p: Modulus, t: Trace, n: nat, i: nat)
    requires IsTrace(t, n) && i < n
  {
    Cong(p, t[0][i], Fibonacci(i)) && Cong(p, t[1][i], Fibonacci(i + 1)) && Cong(p, t[2][i], Fibonacci(i + 2))
  }

  lemma {:induction false} PreviousRow(n: nat, i: nat)
    requires n / 8 == 1 && 0 < i < n
    ensures Previous(n, i) == i - 1
  {
  }

  /** Sums of congruent terms, read in either direction. */
  lemma {:induction false} SumCong(p: Modulus, a: int, b: int, c: int, x: int, y: int)
    requires Cong(p, a, x) && Cong(p, b, y)
    ensures Cong(p, c, a + b) <==> Cong(p, c, x + y)
  {
    CongAdd(p, a, x, b, y);
  }

  lemma {:induction false} RunsRow(p: Modulus, t: Trace, n: nat, m: nat, i: nat)
    requires IsTrace(t, n) && n / 8 == 1 && i <= m < n && Runs(p, t, n, m)
    ensures RowIsFibonacci(p, t, n, i)
  {
    assert RowRuns(p, t, n, i);
    if i > 0 {
      RunsRow(p, t, n, m, i - 1);
      PreviousRow(n, i);
      CongTrans(p, t[0][i], t[1][i - 1], Fibonacci(i));
      CongTrans(p, t[1][i], t[2][i - 1], Fibonacci(i + 1));
    }
    SumCong(p, t[0][i], t[1][i], t[2][i], Fibonacci(i), Fibonacci(i + 1));
  }

  lemma {:induction false} FibonacciRow(p: Modulus, t: Trace, n: nat, i: nat)
    requires IsTrace(t, n) && n / 8 == 1 && i < n && RowIsFibonacci(p, t, n, i)
    requires i > 0 ==> RowIsFibonacci(p, t, n, i - 1)
    ensures RowRuns(p, t, n, i)
  {
    SumCong(p, t[0][i], t[1][i], t[2][i], Fibonacci(i), Fibonacci(i + 1));
    if i > 0 {
      PreviousRow(n, i);
      assert Cong(p, t[1][i - 1], Fibonacci(i));
      assert Cong(p, t[2][i - 1], Fibonacci(i + 1));
    }
  }

  /**
   * When a step is one row, the constraints vanish exactly when rows 0 to m hold the Fibonacci
   * sequence from (24, 30) and its element m + 2 is the claimed output.
   */
  lemma {:induction false} SatisfiedIffFibonacci(p: Modulus, t: Trace, n: nat, m: nat)
    requires Prime(p) && p > 2 && IsTrace(t, n) && Controls(t, n, m) && n / 8 == 1
    ensures Satisfied(p, t, n) <==>
      && (forall i :: 0 <= i <= m ==> RowIsFibonacci(p, t, n, i))
      && Cong(p, Fibonacci(m + 2), 28)
  {
    SatisfiedIffRuns(p, t, n, m);
    if Runs(p, t, n, m) {
      forall i | 0 <= i <= m ensures RowIsFibonacci(p, t, n, i) {
        RunsRow(p, t, n, m, i);
      }
      assert RowIsFibonacci(p, t, n, m);
    } else if (forall i :: 0 <= i <= m ==> RowIsFibonacci(p, t, n, i)) && Cong(p, Fibonacci(m + 2), 28) {
      assert RowIsFibonacci(p, t, n, 0) && RowIsFibonacci(p, t, n, m);
      forall i | 0 <= i <= m ensures RowRuns(p, t, n, i) {
        assert RowIsFibonacci(p, t, n, i);
        FibonacciRow(p, t, n, i);
      }
      assert false;
    }
  }
}
