/**
 * Two implementations of the network: one enumerates windows and reshapes, the other, the reference,
 * loops over centre positions. Both are proved to compute ConvNet.Run on every input, so they agree.
 */
module NetworkImplementations {
  import opened LinearAlgebra
  import opened ConvNet
  import opened Prelude

  // ---------------------------------------------------------------- results written cell by cell

  /** The contents of a freshly filled three-dimensional array. */
  method Freeze(output: array3<int>) returns (t: Tensor)
    ensures t.Volume? && WellShaped(t)
    ensures t.h == output.Length0 && t.w == output.Length1 && t.c == output.Length2
    ensures forall i, j, k :: 0 <= i < t.h && 0 <= j < t.w && 0 <= k < t.c ==> t.cells[i][j][k] == output[i, j, k]
  {
    var cells: Cells := [];
    for i := 0 to output.Length0
      invariant IsCells(cells, i, output.Length1, output.Length2)
      invariant forall a, j, k :: 0 <= a < i && 0 <= j < output.Length1 && 0 <= k < output.Length2 ==>
                  cells[a][j][k] == output[a, j, k]
    {
      var row: seq<seq<int>> := [];
      for j := 0 to output.Length1
        invariant |row| == j && forall b :: 0 <= b < j ==> |row[b]| == output.Length2
        invariant forall b, k :: 0 <= b < j && 0 <= k < output.Length2 ==> row[b][k] == output[i, b, k]
      {
        var cell := seq(output.Length2, k requires 0 <= k < output.Length2 reads output => output[i, j, k]);
        row := row + [cell];
      }
      cells := cells + [row];
    }
    t := Volume(output.Length0, output.Length1, output.Length2, cells);
  }

  /** Volumes of one shape with the same cells are the same. */
  lemma SameVolume(a: Tensor, b: Tensor)
    requires a.Volume? && b.Volume? && WellShaped(a) && WellShaped(b) && a.h == b.h && a.w == b.w && a.c == b.c
    requires forall i, j, k :: 0 <= i < a.h && 0 <= j < a.w && 0 <= k < a.c ==> a.cells[i][j][k] == b.cells[i][j][k]
    ensures a == b
  {
    forall i | 0 <= i < a.h ensures a.cells[i] == b.cells[i] {
      forall j | 0 <= j < a.w ensures a.cells[i][j] == b.cells[i][j] {
      }
    }
  }

  /** Cell (i, j, ch) of the output array holds the convolution there. */
  ghost predicate Convolved(output: array3<int>, t: Tensor, k: Kernel, i: nat, j: nat, ch: nat)
    requires WellShaped(t) && k.Valid() && Convolvable(t, k) && OutputFits(output, t, k)
    requires i < output.Length0 && j < output.Length1 && ch < output.Length2
    reads output
  {
    output[i, j, ch] == ConvAt(t, k, i, j, ch)
  }

  predicate OutputFits(output: array3<int>, t: Tensor, k: Kernel)
    requires Convolvable(t, k)
  {
    output.Length0 == t.h - k.hf + 1 && output.Length1 == t.w - k.wf + 1 && output.Length2 == k.cOut
  }

  lemma ConvolutionResult(t: Tensor, k: Kernel, volume: Tensor)
    requires WellShaped(t) && k.Valid() && Convolvable(t, k)
    requires volume.Volume? && WellShaped(volume)
    requires volume.h == t.h - k.hf + 1 && volume.w == t.w - k.wf + 1 && volume.c == k.cOut
    requires forall i, j, ch :: 0 <= i < volume.h && 0 <= j < volume.w && 0 <= ch < volume.c ==>
               volume.cells[i][j][ch] == ConvAt(t, k, i, j, ch)
    ensures Apply(Convolution(k), t) == Some(volume)
  {
    hide WindowSum, ConvAt;
    SameVolume(volume, Apply(Convolution(k), t).value);
  }

  method FinishConvolution(t: Tensor, k: Kernel, output: array3<int>) returns (volume: Tensor)
    requires WellShaped(t) && k.Valid() && Convolvable(t, k) && OutputFits(output, t, k)
    requires forall i, j, ch :: 0 <= i < output.Length0 && 0 <= j < output.Length1 && 0 <= ch < output.Length2 ==>
               Convolved(output, t, k, i, j, ch)
    ensures Apply(Convolution(k), t) == Some(volume)
  {
    hide WindowSum, ConvAt;
    volume := Freeze(output);
    forall i, j, ch | 0 <= i < volume.h && 0 <= j < volume.w && 0 <= ch < volume.c
      ensures volume.cells[i][j][ch] == ConvAt(t, k, i, j, ch)
    {
      assert Convolved(output, t, k, i, j, ch);
    }
    ConvolutionResult(t, k, volume);
  }

  // ---------------------------------------------------------------- convolution by windows

  /** The origin of window q, when windows are enumerated row by row. */
  function WindowOrigin(q: nat, rows: nat, columns: nat): (w: (nat, nat))
    requires columns > 0 && q < rows * columns
    ensures w.0 < rows && w.1 < columns
  {
    RowOf(q, rows, columns);
    (q / columns, q % columns)
  }

  function Windows(rows: nat, columns: nat): (ws: seq<(nat, nat)>)
    requires columns > 0
    ensures |ws| == rows * columns
    ensures forall q :: 0 <= q < |ws| ==> ws[q] == WindowOrigin(q, rows, columns)
  {
    MulNonnegative(rows, columns);
    seq(rows * columns, q requires 0 <= q < rows * columns => WindowOrigin(q, rows, columns))
  }

  /** Position of cell (i, j) in a row-major list. */
  function Position(i: nat, j: nat, rows: nat, columns: nat): (q: nat)
    requires i < rows && j < columns
    ensures q < rows * columns && q / columns == i && q % columns == j
  {
    CellIndex(i, j, rows, columns);
    i * columns + j
  }

  /** One output channel: the list of window sums, and that list reshaped into the channel. */
  method ConvolveChannel(t: Tensor, k: Kernel, ch: nat, output: array3<int>)
    requires WellShaped(t) && k.Valid() && Convolvable(t, k) && OutputFits(output, t, k) && ch < k.cOut
    modifies output
    ensures forall i, j :: 0 <= i < output.Length0 && 0 <= j < output.Length1 ==> Convolved(output, t, k, i, j, ch)
    ensures forall i, j, c ::
              0 <= i < output.Length0 && 0 <= j < output.Length1 && 0 <= c < output.Length2 && c != ch ==>
                output[i, j, c] == old(output[i, j, c])
  {
    hide WindowSum, ConvAt;
    var rows, columns := output.Length0, output.Length1;
    var windows := Windows(rows, columns);
    var values: seq<int> := [];
    for q := 0 to |windows|
      invariant |values| == q
      invariant forall r :: 0 <= r < q ==> values[r] == ConvAt(t, k, windows[r].0, windows[r].1, ch)
    {
      values := values + [ConvAt(t, k, windows[q].0, windows[q].1, ch)];
    }
    forall i: nat, j: nat | i < rows && j < columns {
      output[i, j, ch] := values[Position(i, j, rows, columns)];
    }
    forall i: nat, j: nat | i < rows && j < columns ensures Convolved(output, t, k, i, j, ch) {
      assert windows[Position(i, j, rows, columns)] == (i, j);
    }
  }

  method ConvolveByWindows(t: Tensor, k: Kernel) returns (r: Option<Tensor>)
    requires WellShaped(t) && k.Valid()
    ensures r == Apply(Convolution(k), t)
  {
    if !Convolvable(t, k) {
      return None;
    }
    hide WindowSum, ConvAt, Apply;
    var output := new int[t.h - k.hf + 1, t.w - k.wf + 1, k.cOut]((_, _, _) => 0);
    for ch := 0 to k.cOut
      invariant forall i, j, c :: 0 <= i < output.Length0 && 0 <= j < output.Length1 && 0 <= c < ch ==>
                  Convolved(output, t, k, i, j, c)
    {
      label before:
      ConvolveChannel(t, k, ch, output);
      forall i, j, c | 0 <= i < output.Length0 && 0 <= j < output.Length1 && 0 <= c < ch
        ensures Convolved(output, t, k, i, j, c)
      {
        assert old@before(Convolved(output, t, k, i, j, c));
      }
    }
    var volume := FinishConvolution(t, k, output);
    r := Some(volume);
  }

  // ---------------------------------------------------------------- convolution by centres

  /** The cells from row i0 to i1 and column j0 to j1, as a volume of its own. */
  function Slice(x: Cells, i0: nat, i1: nat, j0: nat, j1: nat): (s: Cells)
    requires i0 <= i1 <= |x| && j0 <= j1 && forall a :: i0 <= a < i1 ==> j1 <= |x[a]|
    ensures |s| == i1 - i0
  {
    seq(i1 - i0, a requires 0 <= a < i1 - i0 => x[i0 + a][j0..j1])
  }

  lemma {:induction false} SliceRowSum(row: seq<seq<int>>, f: seq<seq<int>>, j0: nat, j1: nat, columns: nat, c: nat)
    requires j0 + columns <= j1 <= |row| && columns <= |f|
    requires forall b :: 0 <= b < columns ==> |f[b]| == c
    requires forall b :: j0 <= b < j0 + columns ==> |row[b]| == c
    ensures RowSum(row[j0..j1], f, 0, columns, c) == RowSum(row, f, j0, columns, c)
  {
    if columns > 0 {
      SliceRowSum(row, f, j0, j1, columns - 1, c);
    }
  }

  /** Summing over a slice is summing over the window at its corner. */
  lemma {:induction false} SliceWindowSum(x: Cells, f: Cells, i0: nat, i1: nat, j0: nat, rows: nat, wf: nat, c: nat)
    requires i0 + rows <= i1 <= |x| && IsCells(f, |f|, wf, c) && rows <= |f|
    requires forall a :: i0 <= a < i1 ==> j0 + wf <= |x[a]|
    requires forall a, b :: i0 <= a < i1 && j0 <= b < j0 + wf ==> |x[a][b]| == c
    ensures WindowSum(Slice(x, i0, i1, j0, j0 + wf), f, 0, 0, rows, wf, c) == WindowSum(x, f, i0, j0, rows, wf, c)
  {
    if rows > 0 {
      SliceWindowSum(x, f, i0, i1, j0, rows - 1, wf, c);
      assert f[rows - 1] in f;
      SliceRowSum(x[i0 + rows - 1], f[rows - 1], j0, j0 + wf, wf, c);
    }
  }

  /** The first n channels at (i, j) hold the convolution there. */
  ghost predicate CellConvolved(output: array3<int>, t: Tensor, k: Kernel, i: nat, j: nat, n: nat)
    requires WellShaped(t) && k.Valid() && Convolvable(t, k) && OutputFits(output, t, k)
    requires i < output.Length0 && j < output.Length1 && n <= output.Length2
    reads output
  {
    forall ch :: 0 <= ch < n ==> Convolved(output, t, k, i, j, ch)
  }

  /** The patch around centre (i, j). */
  function CentrePatch(t: Tensor, k: Kernel, i: nat, j: nat): (p: Cells)
    requires WellShaped(t) && k.Valid() && Convolvable(t, k)
    requires k.hf / 2 <= i < t.h - k.hf / 2 && k.wf / 2 <= j < t.w - k.wf / 2
    ensures IsCells(p, k.hf, k.wf, t.c)
  {
    var dh, dw := k.hf / 2, k.wf / 2;
    Slice(t.cells, i - dh, i + dh + 1, j - dw, j + dw + 1)
  }

  /** The patch times kernel ch. */
  function CentreSum(t: Tensor, k: Kernel, i: nat, j: nat, ch: nat): int
    requires WellShaped(t) && k.Valid() && Convolvable(t, k) && ch < k.cOut
    requires k.hf / 2 <= i < t.h - k.hf / 2 && k.wf / 2 <= j < t.w - k.wf / 2
  {
    WindowSum(CentrePatch(t, k, i, j), k.weights[ch], 0, 0, k.hf, k.wf, t.c)
  }

  lemma OddIsTwiceHalf(n: nat)
    requires n % 2 == 1
    ensures n == 2 * (n / 2) + 1
  {
  }

  /** It is the convolution of the window with that centre. */
  lemma CentreSumIsConvolution(t: Tensor, k: Kernel, i: nat, j: nat, ch: nat)
    requires WellShaped(t) && k.Valid() && Convolvable(t, k) && ch < k.cOut
    requires k.hf / 2 <= i < t.h - k.hf / 2 && k.wf / 2 <= j < t.w - k.wf / 2
    ensures CentreSum(t, k, i, j, ch) == ConvAt(t, k, i - k.hf / 2, j - k.wf / 2, ch)
  {
    hide WindowSum;
    var dh, dw := k.hf / 2, k.wf / 2;
    OddIsTwiceHalf(k.hf);
    OddIsTwiceHalf(k.wf);
    assert j + dw + 1 == (j - dw) + k.wf;
    SliceWindowSum(t.cells, k.weights[ch], i - dh, i + dh + 1, j - dw, k.hf, k.wf, t.c);
  }

  /** All channels at one centre. */
  method ConvolveCentre(t: Tensor, k: Kernel, i: nat, j: nat, output: array3<int>)
    requires WellShaped(t) && k.Valid() && Convolvable(t, k) && OutputFits(output, t, k)
    requires k.hf / 2 <= i < t.h - k.hf / 2 && k.wf / 2 <= j < t.w - k.wf / 2
    modifies output
    ensures CellConvolved(output, t, k, i - k.hf / 2, j - k.wf / 2, k.cOut)
    ensures forall a, b, c |
              0 <= a < output.Length0 && 0 <= b < output.Length1 && 0 <= c < output.Length2 ::
              (a == i - k.hf / 2 && b == j - k.wf / 2) || output[a, b, c] == old(output[a, b, c])
  {
    hide WindowSum, ConvAt, CentreSum, WellShaped, Convolvable;
    var a0, b0 := i - k.hf / 2, j - k.wf / 2;
    for ch := 0 to k.cOut
      invariant forall a, b, c |
                  0 <= a < output.Length0 && 0 <= b < output.Length1 && 0 <= c < output.Length2 ::
                  (a == a0 && b == b0) || output[a, b, c] == old(output[a, b, c])
      invariant CellConvolved(output, t, k, a0, b0, ch)
    {
      label before:
      CentreSumIsConvolution(t, k, i, j, ch);
      output[a0, b0, ch] := CentreSum(t, k, i, j, ch);
      forall q: nat | q <= ch ensures Convolved(output, t, k, a0, b0, q) {
        if q < ch {
          assert old@before(Convolved(output, t, k, a0, b0, q));
        }
      }
    }
  }

  /** The cells written before centre (i, j) is reached. */
  predicate Earlier(a: nat, b: nat, i: int, j: int) {
    a < i || (a == i && b < j)
  }

  method ConvolveByCentres(t: Tensor, k: Kernel) returns (r: Option<Tensor>)
    requires WellShaped(t) && k.Valid()
    ensures r == Apply(Convolution(k), t)
  {
    if !Convolvable(t, k) {
      return None;
    }
    hide WindowSum, ConvAt, Apply;
    var dh, dw := k.hf / 2, k.wf / 2;
    var output := new int[t.h - 2 * dh, t.w - 2 * dw, k.cOut]((_, _, _) => 0);
    for i := dh to t.h - dh
      invariant forall a, b | 0 <= a < output.Length0 && 0 <= b < output.Length1 && Earlier(a, b, i - dh, 0) ::
                  CellConvolved(output, t, k, a, b, k.cOut)
    {
      for j := dw to t.w - dw
        invariant forall a, b | 0 <= a < output.Length0 && 0 <= b < output.Length1 && Earlier(a, b, i - dh, j - dw) ::
                    CellConvolved(output, t, k, a, b, k.cOut)
      {
        label before:
        ConvolveCentre(t, k, i, j, output);
        forall a, b | 0 <= a < output.Length0 && 0 <= b < output.Length1 && Earlier(a, b, i - dh, j + 1 - dw)
          ensures CellConvolved(output, t, k, a, b, k.cOut)
        {
          if Earlier(a, b, i - dh, j - dw) {
            assert old@before(CellConvolved(output, t, k, a, b, k.cOut));
            forall ch | 0 <= ch < k.cOut ensures Convolved(output, t, k, a, b, ch) {
              assert old@before(Convolved(output, t, k, a, b, ch));
            }
          }
        }
      }
    }
    forall a, b, ch | 0 <= a < output.Length0 && 0 <= b < output.Length1 && 0 <= ch < output.Length2
      ensures Convolved(output, t, k, a, b, ch)
    {
      assert CellConvolved(output, t, k, a, b, k.cOut);
    }
    var volume := FinishConvolution(t, k, output);
    r := Some(volume);
  }

  // ---------------------------------------------------------------- max pooling, the same strided loop in both

  /** Multiples of the side: the corner of patch n, and its number back. */
  lemma Stride(n: nat, size: nat, side: nat)
    requires side > 0 && size % side == 0 && n < size / side
    ensures n * side + side == (n + 1) * side <= size && (n * side) / side == n
  {
    PatchInside(size, side, n);
    DivModUnique(n * side, side, n, 0);
  }

  lemma StrideEnds(n: nat, size: nat, side: nat)
    requires side > 0 && size % side == 0 && n * side < size
    ensures n < size / side
  {
    var m := size / side;
    if m < n {
      RowOrder(m, n, side);
    }
    assert size == m * side;
  }

  lemma StrideDone(n: nat, size: nat, side: nat)
    requires side > 0 && size % side == 0 && n * side >= size && n <= size / side
    ensures n == size / side
  {
    if n < size / side {
      RowOrder(n, size / side, side);
      assert false;
    }
  }

  /** One row of patches. */
  method PoolRow(t: Tensor, side: nat, i: nat, ghost n: nat, output: array3<int>)
    requires WellShaped(t) && Poolable(t, side) && i == n * side && n < t.h / side
    requires output.Length0 == t.h / side && output.Length1 == t.w / side && output.Length2 == t.c
    modifies output
    ensures forall b, c :: 0 <= b < output.Length1 && 0 <= c < t.c ==> output[n, b, c] == PoolAt(t, side, n, b, c)
    ensures forall a, b, c :: 0 <= a < output.Length0 && a != n && 0 <= b < output.Length1 && 0 <= c < t.c ==>
              output[a, b, c] == old(output[a, b, c])
  {
    var j: nat := 0;
    ghost var m: nat := 0;
    Stride(n, t.h, side);
    while j < t.w
      invariant j == m * side && m <= t.w / side
      invariant forall b, c :: 0 <= b < m && 0 <= c < t.c ==> output[n, b, c] == PoolAt(t, side, n, b, c)
      invariant forall a, b, c :: 0 <= a < output.Length0 && a != n && 0 <= b < output.Length1 && 0 <= c < t.c ==>
                  output[a, b, c] == old(output[a, b, c])
    {
      StrideEnds(m, t.w, side);
      Stride(m, t.w, side);
      for ch := 0 to t.c
        invariant forall b, c :: 0 <= b < m && 0 <= c < t.c ==> output[n, b, c] == PoolAt(t, side, n, b, c)
        invariant forall c :: 0 <= c < ch ==> output[n, m, c] == PoolAt(t, side, n, m, c)
        invariant forall a, b, c :: 0 <= a < output.Length0 && a != n && 0 <= b < output.Length1 && 0 <= c < t.c ==>
                    output[a, b, c] == old(output[a, b, c])
      {
        output[i / side, j / side, ch] := PatchMax(t.cells, i, j, side, side, ch);
      }
      j := j + side;
      m := m + 1;
    }
    StrideDone(m, t.w, side);
  }

  lemma PoolResult(t: Tensor, side: nat, volume: Tensor)
    requires WellShaped(t) && Poolable(t, side)
    requires volume.Volume? && WellShaped(volume)
    requires volume.h == t.h / side && volume.w == t.w / side && volume.c == t.c
    requires forall i, j, ch :: 0 <= i < volume.h && 0 <= j < volume.w && 0 <= ch < volume.c ==>
               volume.cells[i][j][ch] == PoolAt(t, side, i, j, ch)
    ensures Apply(MaxPool(side), t) == Some(volume)
  {
    hide PoolAt;
    SameVolume(volume, Apply(MaxPool(side), t).value);
  }

  method Pool(t: Tensor, side: nat) returns (r: Option<Tensor>)
    requires WellShaped(t)
    ensures r == Apply(MaxPool(side), t)
  {
    if !Poolable(t, side) {
      return None;
    }
    hide PoolAt, Apply, WellShaped;
    var output := new int[t.h / side, t.w / side, t.c]((_, _, _) => 0);
    var i: nat := 0;
    ghost var n: nat := 0;
    while i < t.h
      invariant i == n * side && n <= t.h / side
      invariant forall a, b, c :: 0 <= a < n && 0 <= b < output.Length1 && 0 <= c < t.c ==>
                  output[a, b, c] == PoolAt(t, side, a, b, c)
    {
      StrideEnds(n, t.h, side);
      Stride(n, t.h, side);
      PoolRow(t, side, i, n, output);
      i := i + side;
      n := n + 1;
    }
    StrideDone(n, t.h, side);
    var volume := Freeze(output);
    PoolResult(t, side, volume);
    r := Some(volume);
  }

  // ---------------------------------------------------------------- relu: overwriting the negatives of a copy

  method ReluByOverwrite(v: seq<int>) returns (output: seq<int>)
    ensures output == ReluVector(v)
  {
    output := v;
    for i := 0 to |v|
      invariant |output| == |v|
      invariant forall q :: 0 <= q < i ==> output[q] == Max(0, v[q])
      invariant forall q :: i <= q < |v| ==> output[q] == v[q]
    {
      if output[i] < 0 {
        output := output[i := 0];
      }
    }
  }

  method ReluCellsByOverwrite(x: Cells) returns (output: Cells)
    ensures output == ReluCells(x)
  {
    output := [];
    for i := 0 to |x|
      invariant |output| == i && forall q :: 0 <= q < i ==> output[q] == ReluCells(x)[q]
    {
      var row: seq<seq<int>> := [];
      for j := 0 to |x[i]|
        invariant |row| == j && forall q :: 0 <= q < j ==> row[q] == ReluVector(x[i][q])
      {
        var cell := ReluByOverwrite(x[i][j]);
        row := row + [cell];
      }
      output := output + [row];
    }
  }

  // ---------------------------------------------------------------- flatten: iteration, or an index formula

  method FlattenByIteration(x: Cells) returns (values: seq<int>)
    ensures values == FlattenCells(x)
  {
    values := [];
    for i := 0 to |x|
      invariant values == FlattenCells(x[..i])
    {
      ghost var before := values;
      for j := 0 to |x[i]|
        invariant values == before + FlattenRow(x[i][..j])
      {
        assert x[i][..j + 1][..j] == x[i][..j];
        assert (before + FlattenRow(x[i][..j])) + x[i][j] == before + (FlattenRow(x[i][..j]) + x[i][j]);
        values := values + x[i][j];
      }
      assert x[i][..|x[i]|] == x[i];
      assert x[..i + 1][..i] == x[..i];
    }
    assert x[..|x|] == x;
  }

  lemma {:induction false} FlattenRowAt(row: seq<seq<int>>, c: nat, j: nat, k: nat)
    requires (forall b :: 0 <= b < |row| ==> |row[b]| == c) && j < |row| && k < c
    ensures |FlattenRow(row)| == |row| * c && 0 <= j * c + k < |row| * c && FlattenRow(row)[j * c + k] == row[j][k]
  {
    var n := |row| - 1;
    FlattenRowLength(row, c);
    FlattenRowLength(row[..n], c);
    CellIndex(j, k, |row|, c);
    if j < n {
      FlattenRowAt(row[..n], c, j, k);
    }
  }

  lemma {:induction false} FlattenRowLength(row: seq<seq<int>>, c: nat)
    requires forall b :: 0 <= b < |row| ==> |row[b]| == c
    ensures |FlattenRow(row)| == |row| * c
  {
    if row != [] {
      FlattenRowLength(row[..|row| - 1], c);
      NextRow(|row| - 1, |row|, c);
    }
  }

  lemma {:induction false} FlattenCellsLength(x: Cells, w: nat, c: nat)
    requires IsCells(x, |x|, w, c)
    ensures |FlattenCells(x)| == |x| * (w * c)
  {
    if x != [] {
      FlattenCellsLength(x[..|x| - 1], w, c);
      FlattenRowLength(x[|x| - 1], c);
      MulNonnegative(w, c);
      NextRow(|x| - 1, |x|, w * c);
    }
  }

  /** Cell (i, j, k) of a volume sits at i * (w * c) + j * c + k of its flattening. */
  lemma {:induction false} FlattenAt(x: Cells, w: nat, c: nat, i: nat, j: nat, k: nat)
    requires IsCells(x, |x|, w, c) && i < |x| && j < w && k < c
    ensures 0 <= i * (w * c) + (j * c + k) < |FlattenCells(x)|
    ensures FlattenCells(x)[i * (w * c) + (j * c + k)] == x[i][j][k]
  {
    var n := |x| - 1;
    FlattenCellsLength(x, w, c);
    FlattenCellsLength(x[..n], w, c);
    FlattenRowAt(x[i], c, j, k);
    MulNonnegative(w, c);
    CellIndex(i, j * c + k, |x|, w * c);
    if i < n {
      FlattenAt(x[..n], w, c, i, j, k);
    }
  }

  // ---------------------------------------------------------------- the two networks

  /** A layer of the network that enumerates windows. */
  method ApplyByWindows(l: Layer, t: Tensor) returns (r: Option<Tensor>)
    requires ValidLayer(l) && WellShaped(t)
    ensures r == Apply(l, t)
  {
    match l
    case Convolution(k) => r := ConvolveByWindows(t, k);
    case MaxPool(side) => r := Pool(t, side);
    case Relu =>
      r := Some(if t.Vector? then Vector(ReluVector(t.values)) else Volume(t.h, t.w, t.c, ReluCells(t.cells)));
    case Flatten =>
      if t.Vector? {
        return Some(t);
      }
      var values := FlattenByIteration(t.cells);
      r := Some(Vector(values));
    case FullyConnected(rows, columns, weights, biases) =>
      if !Multiplies(t, l) {
        return None;
      }
      r := Some(Vector(seq(rows, q requires 0 <= q < rows => Dot(weights[q], t.values, columns) + biases[q])));
  }

  /** A layer of the reference. */
  method ApplyReference(l: Layer, t: Tensor) returns (r: Option<Tensor>)
    requires ValidLayer(l) && WellShaped(t)
    ensures r == Apply(l, t)
  {
    match l
    case Convolution(k) => r := ConvolveByCentres(t, k);
    case MaxPool(side) => r := Pool(t, side);
    case Relu =>
      if t.Vector? {
        var values := ReluByOverwrite(t.values);
        r := Some(Vector(values));
      } else {
        var cells := ReluCellsByOverwrite(t.cells);
        r := Some(Volume(t.h, t.w, t.c, cells));
      }
    case Flatten =>
      r := Some(if t.Vector? then t else FlattenByFormula(t));
    case FullyConnected(rows, columns, weights, biases) =>
      if !Multiplies(t, l) {
        return None;
      }
      r := Some(Vector(seq(rows, q requires 0 <= q < rows => Dot(weights[q], t.values, columns) + biases[q])));
  }

  /** Element q of the flattened volume, computed from its index alone. */
  function FlattenByFormula(t: Tensor): (v: Tensor)
    requires t.Volume? && WellShaped(t)
    ensures v == Vector(FlattenCells(t.cells))
  {
    FlattenCellsLength(t.cells, t.w, t.c);
    MulNonnegative(t.w, t.c);
    MulNonnegative(t.h, t.w * t.c);
    var values := seq(t.h * (t.w * t.c), q requires 0 <= q < t.h * (t.w * t.c) => CellByFormula(t, q));
    assert values == FlattenCells(t.cells);
    Vector(values)
  }

  function CellByFormula(t: Tensor, q: nat): (value: int)
    requires t.Volume? && WellShaped(t) && q < t.h * (t.w * t.c)
    ensures q < |FlattenCells(t.cells)| && value == FlattenCells(t.cells)[q]
  {
    FormulaInside(t.h, t.w, t.c, q);
    FlattenAt(t.cells, t.w, t.c, q / (t.w * t.c), q % (t.w * t.c) / t.c, q % t.c);
    t.cells[q / (t.w * t.c)][q % (t.w * t.c) / t.c][q % t.c]
  }

  lemma FormulaInside(h: nat, w: nat, c: nat, q: nat)
    requires q < h * (w * c)
    ensures w * c > 0 && c > 0
    ensures 0 <= q / (w * c) < h && 0 <= q % (w * c) / c < w
    ensures q == q / (w * c) * (w * c) + (q % (w * c) / c * c + q % c)
  {
    var n := w * c;
    MulNonnegative(w, c);
    assert n != 0;
    RowOf(q, h, n);
    RowOf(q % n, w, c);
    RemainderOfRemainder(q, w, c);
    assert q == q / n * n + q % n;
    assert q % n == q % n / c * c + q % n % c;
  }

  lemma RemainderOfRemainder(q: nat, w: nat, c: nat)
    requires c > 0 && w * c > 0
    ensures q % (w * c) % c == q % c
  {
    var n := w * c;
    var r := q % n;
    assert q == (q / n) * n + r && r == (r / c) * c + r % c;
    assert (q / n) * (w * c) == ((q / n) * w) * c;
    assert q == ((q / n) * w + r / c) * c + r % c;
    DivModUnique(q, c, (q / n) * w + r / c, r % c);
  }

  datatype Outcome = Declined | Failed | Computed(output: Tensor)

  /** The network object: layers are added one by one and applied in order to three-dimensional inputs. */
  class NeuralNetwork {
    var layers: seq<Layer>

    ghost predicate Valid()
      reads this
    {
      forall i :: 0 <= i < |layers| ==> ValidLayer(layers[i])
    }

    constructor ()
      ensures Valid() && layers == []
    {
      layers := [];
    }

    method AddLayer(layer: Layer)
      requires Valid() && ValidLayer(layer)
      modifies this
      ensures Valid() && layers == old(layers) + [layer]
    {
      layers := layers + [layer];
    }

    method ApplyAll(input: Tensor, dim: nat) returns (r: Outcome)
      requires Valid() && WellShaped(input)
      ensures r == if dim != 3 then Declined
                   else match Run(layers, input) { case None => Failed case Some(t) => Computed(t) }
    {
      if dim != 3 {
        return Declined;
      }
      var output := input;
      for n := 0 to |layers|
        invariant WellShaped(output) && Run(layers[..n], input) == Some(output)
      {
        assert layers[..n + 1][..n] == layers[..n];
        var next := ApplyByWindows(layers[n], output);
        if next.None? {
          RunFails(layers, input, n + 1);
          return Failed;
        }
        output := next.value;
      }
      assert layers[..|layers|] == layers;
      r := Computed(output);
    }
  }

  lemma {:induction false} RunFails(layers: seq<Layer>, t: Tensor, n: nat)
    requires WellShaped(t) && n <= |layers| && forall i :: 0 <= i < |layers| ==> ValidLayer(layers[i])
    ensures Run(layers[..n], t) == None ==> Run(layers, t) == None
  {
    if n == |layers| {
      assert layers[..n] == layers;
    } else {
      assert layers[..|layers| - 1][..n] == layers[..n];
      RunFails(layers[..|layers| - 1], t, n);
    }
  }

  /** The reference applies the layers by hand, one after the other. */
  method RunReference(layers: seq<Layer>, input: Tensor) returns (r: Option<Tensor>)
    requires WellShaped(input) && forall i :: 0 <= i < |layers| ==> ValidLayer(layers[i])
    ensures r == Run(layers, input)
  {
    var x := input;
    for n := 0 to |layers|
      invariant WellShaped(x) && Run(layers[..n], input) == Some(x)
    {
      assert layers[..n + 1][..n] == layers[..n];
      var next := ApplyReference(layers[n], x);
      if next.None? {
        RunFails(layers, input, n + 1);
        return None;
      }
      x := next.value;
    }
    assert layers[..|layers|] == layers;
    r := Some(x);
  }
}
