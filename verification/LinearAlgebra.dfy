/** Dot products, matrices as sequences of rows, and their row-major flattening. */
module LinearAlgebra {
  import opened ModArith

  type Matrix = seq<seq<int>>

  predicate Shaped(m: Matrix, rows: nat, width: nat) {
    |m| == rows && forall i :: 0 <= i < rows ==> |m[i]| == width
  }

  /** The product of the first n entries of a and b. */
  function Dot(a: seq<int>, b: seq<int>, n: nat): int
    requires n <= |a| && n <= |b|
  {
    if n == 0 then 0 else Dot(a, b, n - 1) + a[n - 1] * b[n - 1]
  }

  /** Column j of the first n rows of m, weighted by w. */
  function Combine(w: seq<int>, m: Matrix, n: nat, j: nat): int
    requires n <= |w| && n <= |m| && forall k :: 0 <= k < n ==> j < |m[k]|
  {
    if n == 0 then 0 else Combine(w, m, n - 1, j) + w[n - 1] * m[n - 1][j]
  }

  function VecMat(w: seq<int>, m: Matrix, n: nat, width: nat): (row: seq<int>)
    requires n <= |w| && n <= |m| && forall k :: 0 <= k < n ==> |m[k]| == width
    ensures |row| == width
  {
    seq(width, j requires 0 <= j < width => Combine(w, m, n, j))
  }

  function MatVec(m: Matrix, v: seq<int>, width: nat): (col: seq<int>)
    requires width <= |v| && forall k :: 0 <= k < |m| ==> |m[k]| == width
    ensures |col| == |m|
  {
    seq(|m|, i requires 0 <= i < |m| => Dot(m[i], v, width))
  }

  lemma {:induction false} DotLinear(a: seq<int>, b: seq<int>, s: int, c: seq<int>, v: seq<int>, n: nat)
    requires n <= |a| && n <= |b| && n <= |c| && n <= |v|
    requires forall j :: 0 <= j < n ==> c[j] == a[j] + s * b[j]
    ensures Dot(c, v, n) == Dot(a, v, n) + s * Dot(b, v, n)
  {
    if n > 0 {
      DotLinear(a, b, s, c, v, n - 1);
      var i := n - 1;
      calc {
        Dot(c, v, n);
        Dot(a, v, i) + s * Dot(b, v, i) + (a[i] + s * b[i]) * v[i];
        { assert (a[i] + s * b[i]) * v[i] == a[i] * v[i] + s * (b[i] * v[i]); }
        Dot(a, v, n) + s * Dot(b, v, i) + s * (b[i] * v[i]);
        { assert s * Dot(b, v, i) + s * (b[i] * v[i]) == s * (Dot(b, v, i) + b[i] * v[i]); }
        Dot(a, v, n) + s * Dot(b, v, n);
      }
    }
  }

  lemma {:induction false} DotZero(a: seq<int>, v: seq<int>, n: nat)
    requires n <= |a| && n <= |v| && forall j :: 0 <= j < n ==> a[j] == 0
    ensures Dot(a, v, n) == 0
  {
    if n > 0 {
      DotZero(a, v, n - 1);
    }
  }

  lemma {:induction false} DotSymmetric(a: seq<int>, b: seq<int>, n: nat)
    requires n <= |a| && n <= |b|
    ensures Dot(a, b, n) == Dot(b, a, n)
  {
    if n > 0 {
      DotSymmetric(a, b, n - 1);
    }
  }

  /** Dot only looks at the first n entries. */
  lemma {:induction false} DotPrefix(a: seq<int>, b: seq<int>, c: seq<int>, d: seq<int>, n: nat)
    requires n <= |a| && n <= |b| && n <= |c| && n <= |d|
    requires forall j :: 0 <= j < n ==> a[j] == c[j] && b[j] == d[j]
    ensures Dot(a, b, n) == Dot(c, d, n)
  {
    if n > 0 {
      DotPrefix(a, b, c, d, n - 1);
    }
  }

  /** Entries of a that are zero from n on do not contribute. */
  lemma {:induction false} DotTail(a: seq<int>, v: seq<int>, n: nat, m: nat)
    requires n <= m <= |a| && m <= |v| && forall j :: n <= j < m ==> a[j] == 0
    ensures Dot(a, v, m) == Dot(a, v, n)
  {
    if n < m {
      DotTail(a, v, n, m - 1);
    }
  }

  /** Zeros, and a one at place k. */
  function Unit(n: nat, k: nat): (u: seq<int>)
    ensures |u| == n && forall j :: 0 <= j < n ==> u[j] == if j == k then 1 else 0
  {
    seq(n, j requires 0 <= j < n => if j == k then 1 else 0)
  }

  lemma {:induction false} DotUnit(a: seq<int>, v: seq<int>, n: nat, k: nat)
    requires k < n <= |a| && n <= |v|
    requires forall j :: 0 <= j < n ==> a[j] == if j == k then 1 else 0
    ensures Dot(a, v, n) == v[k]
  {
    DotTail(a, v, k + 1, n);
    DotZero(a, v, k);
  }

  /** (w * m) . v == w . (m * v) */
  lemma {:induction false} DotVecMat(w: seq<int>, m: Matrix, n: nat, v: seq<int>, width: nat)
    requires n <= |w| && n == |m| && width <= |v| && forall k :: 0 <= k < n ==> |m[k]| == width
    ensures Dot(VecMat(w, m, n, width), v, width) == Dot(w, MatVec(m, v, width), n)
  {
    DotVecMatPrefix(w, m, n, v, width);
  }

  lemma {:induction false} DotVecMatPrefix(w: seq<int>, m: Matrix, n: nat, v: seq<int>, width: nat)
    requires n <= |w| && n <= |m| && width <= |v| && forall k :: 0 <= k < |m| ==> |m[k]| == width
    ensures Dot(VecMat(w, m, n, width), v, width) == Dot(w, MatVec(m, v, width), n)
  {
    var row := VecMat(w, m, n, width);
    if n == 0 {
      DotZero(row, v, width);
    } else {
      DotVecMatPrefix(w, m, n - 1, v, width);
      DotLinear(VecMat(w, m, n - 1, width), m[n - 1], w[n - 1], row, v, width);
    }
  }

  lemma {:induction false} DotCong(p: Modulus, a: seq<int>, b: seq<int>, v: seq<int>, n: nat)
    requires n <= |a| && n <= |b| && n <= |v| && forall j :: 0 <= j < n ==> Cong(p, a[j], b[j])
    ensures Cong(p, Dot(a, v, n), Dot(b, v, n)) && Cong(p, Dot(v, a, n), Dot(v, b, n))
  {
    if n > 0 {
      DotCong(p, a, b, v, n - 1);
      CongScale(p, a[n - 1], b[n - 1], v[n - 1]);
      CongAdd(p, Dot(a, v, n - 1), Dot(b, v, n - 1), a[n - 1] * v[n - 1], b[n - 1] * v[n - 1]);
      CongAdd(p, Dot(v, a, n - 1), Dot(v, b, n - 1), v[n - 1] * a[n - 1], v[n - 1] * b[n - 1]);
    }
  }

  lemma {:induction false} DotAdd(a: seq<int>, b: seq<int>, c: seq<int>, v: seq<int>, n: nat)
    requires n <= |a| && n <= |b| && n <= |c| && n <= |v|
    requires forall j :: 0 <= j < n ==> c[j] == a[j] + b[j]
    ensures Dot(v, c, n) == Dot(v, a, n) + Dot(v, b, n)
  {
    if n > 0 {
      DotAdd(a, b, c, v, n - 1);
      assert v[n - 1] * (a[n - 1] + b[n - 1]) == v[n - 1] * a[n - 1] + v[n - 1] * b[n - 1];
    }
  }

  lemma WeightedSum(p: Modulus, w: seq<int>, a: seq<int>, b: seq<int>, s: seq<int>, n: nat)
    requires n == |w| == |a| == |b| == |s|
    requires forall k :: 0 <= k < n ==> Cong(p, a[k] + b[k], s[k])
    ensures Cong(p, Dot(w, a, n) + Dot(w, b, n), Dot(w, s, n))
  {
    var sums := seq(n, k requires 0 <= k < n => a[k] + b[k]);
    DotAdd(a, b, sums, w, n);
    DotCong(p, sums, s, w, n);
  }

  /** A row that agrees with w * m modulo p has, at v, the value w . (m * v). */
  lemma WeightedRows(p: Modulus, w: seq<int>, m: Matrix, v: seq<int>, n: nat, width: nat, row: seq<int>)
    requires n == |w| == |m| && |v| == width == |row|
    requires forall k :: 0 <= k < n ==> |m[k]| == width
    requires forall j :: 0 <= j < width ==> Cong(p, row[j], Combine(w, m, n, j))
    ensures Cong(p, Dot(row, v, width), Dot(w, MatVec(m, v, width), n))
  {
    DotCong(p, row, VecMat(w, m, n, width), v, width);
    DotVecMat(w, m, n, v, width);
  }

  /**
   * If (m, o) evaluated at v is s modulo p, then a weighting of the rows of m together with the
   * same weighting of o, each reduced or not, evaluates at v to the weighting of s.
   */
  lemma WeightedAffine(p: Modulus, w: seq<int>, m: Matrix, o: seq<int>, v: seq<int>, s: seq<int>,
                       n: nat, width: nat, row: seq<int>, offset: int)
    requires n == |w| == |m| == |o| == |s| && |v| == width == |row|
    requires forall k :: 0 <= k < n ==> |m[k]| == width
    requires forall k :: 0 <= k < n ==> Cong(p, MatVec(m, v, width)[k] + o[k], s[k])
    requires forall j :: 0 <= j < width ==> Cong(p, row[j], Combine(w, m, n, j))
    requires Cong(p, offset, Dot(w, o, n))
    ensures Cong(p, Dot(row, v, width) + offset, Dot(w, s, n))
  {
    var values := MatVec(m, v, width);
    WeightedRows(p, w, m, v, n, width, row);
    WeightedSum(p, w, values, o, s, n);
    CongAddTrans(p, Dot(row, v, width), Dot(w, values, n), offset, Dot(w, o, n), Dot(w, s, n));
  }

  /** Row-major layout: entry (i, j) sits at i * width + j. */
  function Flat(m: Matrix, width: nat): (flat: seq<int>)
    requires width > 0 && Shaped(m, |m|, width)
    ensures |flat| == |m| * width
  {
    seq(|m| * width, t requires 0 <= t < |m| * width => assert 0 <= t / width < |m| by { RowOf(t, |m|, width); }
                                                      m[t / width][t % width])
  }

  lemma RowOf(t: nat, rows: nat, width: nat)
    requires width > 0 && t < rows * width
    ensures 0 <= t / width < rows
  {
    assert t == (t / width) * width + t % width;
  }

  /** The row after row i starts one width later, still inside the layout. */
  lemma NextRow(i: nat, rows: nat, width: nat)
    requires i < rows
    ensures (i + 1) * width == i * width + width <= rows * width
    ensures i * width >= 0
  {
    var k := rows - i - 1;
    MulNonnegative(k, width);
    MulNonnegative(i, width);
    assert rows * width == (i + 1) * width + k * width;
  }

  lemma MulNonnegative(a: nat, b: nat)
    ensures a * b >= 0
  {
  }

  lemma CellIndex(i: nat, j: nat, rows: nat, width: nat)
    requires i < rows && j < width
    ensures 0 <= i * width + j < rows * width
    ensures (i * width + j) / width == i && (i * width + j) % width == j
  {
    NextRow(i, rows, width);
    DivModUnique(i * width + j, width, i, j);
  }

  lemma DivModUnique(t: int, d: int, q: int, r: int)
    requires d > 0 && t == q * d + r && 0 <= r < d
    ensures t / d == q && t % d == r
  {
    var q', r' := t / d, t % d;
    assert (q - q') * d == r' - r;
    SmallMultiple(d, q - q');
  }

  lemma FlatAt(m: Matrix, width: nat, i: nat, j: nat)
    requires width > 0 && Shaped(m, |m|, width) && i < |m| && j < width
    ensures 0 <= i * width + j < |m| * width && Flat(m, width)[i * width + j] == m[i][j]
  {
    CellIndex(i, j, |m|, width);
  }

  lemma FlatRow(m: Matrix, width: nat, i: nat)
    requires width > 0 && Shaped(m, |m|, width) && i < |m|
    ensures i * width + width <= |m| * width && Flat(m, width)[i * width..i * width + width] == m[i]
  {
    CellIndex(i, width - 1, |m|, width);
    forall j | 0 <= j < width ensures Flat(m, width)[i * width + j] == m[i][j] {
      FlatAt(m, width, i, j);
    }
  }

  /** Replacing row 0 of the matrix replaces the first entries of its layout. */
  lemma FlatUpdate0(m: Matrix, width: nat, row: seq<int>)
    requires width > 0 && Shaped(m, |m|, width) && |m| > 0 && |row| == width
    ensures width <= |m| * width && Flat(m[0 := row], width) == row + Flat(m, width)[width..]
  {
    var n := m[0 := row];
    FlatRow(n, width, 0);
    forall q | width <= q < |m| * width ensures Flat(n, width)[q] == Flat(m, width)[q] {
      RowOf(q, |m|, width);
      DivModUnique(q, width, q / width, q % width);
      assert q / width != 0;
    }
  }

  /** Row i of a row-major layout. */
  ghost predicate RowIs(flat: seq<int>, width: nat, i: nat, row: seq<int>) {
    i * width + width <= |flat| && flat[i * width..i * width + width] == row
  }

  lemma RowOrder(i: nat, k: nat, width: nat)
    requires i < k
    ensures i * width + width <= k * width
  {
    NextRow(i, k, width);
  }

  lemma SliceKept(flat: seq<int>, a: nat, b: nat, width: nat, middle: seq<int>)
    requires a + width <= b || b + width <= a
    requires a + width <= |flat| && b + width <= |flat| && |middle| == width
    ensures (flat[..b] + middle + flat[b + width..])[a..a + width] == flat[a..a + width]
  {
  }

  /** Overwriting one row leaves the others. */
  lemma RowKept(flat: seq<int>, width: nat, i: nat, row: seq<int>, k: nat, newRow: seq<int>, flat': seq<int>)
    requires RowIs(flat, width, i, row) && i != k && |newRow| == width && k * width + width <= |flat|
    requires flat' == flat[..k * width] + newRow + flat[k * width + width..]
    ensures RowIs(flat', width, i, row)
  {
    if i < k {
      RowOrder(i, k, width);
    } else {
      RowOrder(k, i, width);
    }
    SliceKept(flat, i * width, k * width, width, newRow);
  }

  lemma RowWritten(flat: seq<int>, width: nat, k: nat, newRow: seq<int>, flat': seq<int>)
    requires |newRow| == width && k * width + width <= |flat|
    requires flat' == flat[..k * width] + newRow + flat[k * width + width..]
    ensures RowIs(flat', width, k, newRow)
  {
  }

  lemma RowCell(flat: seq<int>, a: nat, width: nat, j: nat)
    requires a + width <= |flat| && j < width
    ensures flat[a..a + width][j] == flat[a + j]
  {
  }

  lemma FlatFromRows(flat: seq<int>, m: Matrix, width: nat)
    requires width > 0 && Shaped(m, |m|, width) && |flat| == |m| * width
    requires forall i :: 0 <= i < |m| ==> RowIs(flat, width, i, m[i])
    ensures flat == Flat(m, width)
  {
    forall q | 0 <= q < |flat| ensures flat[q] == Flat(m, width)[q] {
      RowOf(q, |m|, width);
      FlatFromRow(flat, m, width, q, q / width, q % width);
    }
  }

  lemma FlatFromRow(flat: seq<int>, m: Matrix, width: nat, q: nat, i: nat, j: nat)
    requires width > 0 && Shaped(m, |m|, width) && |flat| == |m| * width
    requires q < |flat| && i < |m| && i == q / width && j == q % width && RowIs(flat, width, i, m[i])
    ensures flat[q] == Flat(m, width)[q]
  {
    assert q == i * width + j;
    RowCell(flat, i * width, width, j);
  }
}
