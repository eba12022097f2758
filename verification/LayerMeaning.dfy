/** What each layer does to single cells, told without the sums and maxima that define it. */
module LayerMeaning {
  import opened ConvNet
  import opened LinearAlgebra
  import opened NetworkImplementations
  import opened Prelude

  // ---------------------------------------------------------------- convolution

  /** The cells are zero, except for v at (a, b, q). */
  predicate OnlyAt(f: Cells, a: nat, b: nat, q: nat, v: int) {
    forall i, j, k :: 0 <= i < |f| && 0 <= j < |f[i]| && 0 <= k < |f[i][j]| ==>
      f[i][j][k] == if i == a && j == b && k == q then v else 0
  }

  lemma {:induction false} DotOnlyAt(x: seq<int>, f: seq<int>, n: nat, q: nat, v: int)
    requires n <= |x| && n <= |f| && forall k :: 0 <= k < n ==> f[k] == if k == q then v else 0
    ensures Dot(x, f, n) == if q < n then v * x[q] else 0
  {
    if n > 0 {
      DotOnlyAt(x, f, n - 1, q, v);
    }
  }

  lemma {:induction false} RowOnlyAt(row: seq<seq<int>>, f: seq<seq<int>>, j: nat, columns: nat, c: nat,
                                     b: nat, q: nat, v: int)
    requires columns <= |f| && j + columns <= |row| && q < c
    requires forall k :: 0 <= k < columns ==> |f[k]| == c
    requires forall k :: j <= k < j + columns ==> |row[k]| == c
    requires forall k, n :: 0 <= k < columns && 0 <= n < c ==> f[k][n] == if k == b && n == q then v else 0
    ensures RowSum(row, f, j, columns, c) == if b < columns then v * row[j + b][q] else 0
  {
    if columns > 0 {
      RowOnlyAt(row, f, j, columns - 1, c, b, q, v);
      DotOnlyAt(row[j + columns - 1], f[columns - 1], c, q, if columns - 1 == b then v else 0);
    }
  }

  lemma {:induction false} WindowOnlyAt(x: Cells, f: Cells, i: nat, j: nat, rows: nat, wf: nat, c: nat,
                                        a: nat, b: nat, q: nat, v: int)
    requires IsCells(f, |f|, wf, c) && rows <= |f| && i + rows <= |x| && b < wf && q < c
    requires forall k :: i <= k < i + rows ==> j + wf <= |x[k]|
    requires forall k, n :: i <= k < i + rows && j <= n < j + wf ==> |x[k][n]| == c
    requires OnlyAt(f, a, b, q, v)
    ensures WindowSum(x, f, i, j, rows, wf, c) == if a < rows then v * x[i + a][j + b][q] else 0
  {
    if rows > 0 {
      WindowOnlyAt(x, f, i, j, rows - 1, wf, c, a, b, q, v);
      RowOnlyAt(x[i + rows - 1], f[rows - 1], j, wf, c, b, q, if rows - 1 == a then v else 0);
    }
  }

  predicate SameSize(k: Kernel, l: Kernel) {
    k.cOut == l.cOut && k.hf == l.hf && k.wf == l.wf && k.cIn == l.cIn
  }

  predicate HasCell(t: Tensor, i: nat, j: nat, ch: nat) {
    t.Volume? && WellShaped(t) && i < t.h && j < t.w && ch < t.c
  }

  /** The convolution is defined for an odd kernel that fits a volume of its channels, and has this shape. */
  lemma {:induction false} ConvolutionShape(k: Kernel, t: Tensor)
    requires k.Valid() && WellShaped(t)
    ensures
      var r := Apply(Convolution(k), t);
      && (r.Some? <==> t.Volume? && t.c == k.cIn && k.hf % 2 == k.wf % 2 == 1 && k.hf <= t.h && k.wf <= t.w)
      && (r.Some? ==> r.value.Volume? && r.value.c == k.cOut && r.value.h == t.h - k.hf + 1 &&
                      r.value.w == t.w - k.wf + 1)
  {
  }

  /** Where the cells of the result come from. */
  lemma {:induction false} ConvolutionCell(k: Kernel, t: Tensor, i: nat, j: nat, ch: nat)
    requires k.Valid() && WellShaped(t) && Apply(Convolution(k), t).Some? && ch < k.cOut
    requires i + k.hf <= t.h && j + k.wf <= t.w
    ensures
      var r := Apply(Convolution(k), t).value;
      HasCell(r, i, j, ch) && r.cells[i][j][ch] == ConvAt(t, k, i, j, ch)
  {
    hide ConvAt;
  }

  /** A single weight v at (a, b, q) multiplies the cell that lies under it. */
  lemma {:induction false} SingleWeight(k: Kernel, t: Tensor, ch: nat, a: nat, b: nat, q: nat, v: int, i: nat, j: nat)
    requires k.Valid() && WellShaped(t) && Apply(Convolution(k), t).Some?
    requires ch < k.cOut && a < k.hf && b < k.wf && q < k.cIn && OnlyAt(k.weights[ch], a, b, q, v)
    requires i + k.hf <= t.h && j + k.wf <= t.w
    ensures Apply(Convolution(k), t).value.cells[i][j][ch] == v * t.cells[i + a][j + b][q]
  {
    ConvolutionCell(k, t, i, j, ch);
    hide Apply;
    WindowOnlyAt(t.cells, k.weights[ch], i, j, k.hf, k.wf, t.c, a, b, q, v);
  }

  /** f is g and h added cell by cell. */
  predicate IsSum(f: Cells, g: Cells, h: Cells) {
    |f| == |g| == |h| && forall i :: 0 <= i < |f| ==>
      |f[i]| == |g[i]| == |h[i]| && forall j :: 0 <= j < |f[i]| ==>
        |f[i][j]| == |g[i][j]| == |h[i][j]| && forall k :: 0 <= k < |f[i][j]| ==> f[i][j][k] == g[i][j][k] + h[i][j][k]
  }

  lemma {:induction false} RowAdds(row: seq<seq<int>>, f: seq<seq<int>>, g: seq<seq<int>>, h: seq<seq<int>>,
                                   j: nat, columns: nat, c: nat)
    requires columns <= |f| && |f| == |g| == |h| && j + columns <= |row|
    requires forall k :: 0 <= k < columns ==> |f[k]| == |g[k]| == |h[k]| == c
    requires forall k :: j <= k < j + columns ==> |row[k]| == c
    requires forall k, n :: 0 <= k < columns && 0 <= n < c ==> f[k][n] == g[k][n] + h[k][n]
    ensures RowSum(row, f, j, columns, c) == RowSum(row, g, j, columns, c) + RowSum(row, h, j, columns, c)
  {
    if columns > 0 {
      var n := columns - 1;
      RowAdds(row, f, g, h, j, n, c);
      DotAdd(g[n], h[n], f[n], row[j + n], c);
    }
  }

  lemma {:induction false} WindowAdds(
      x: Cells, f: Cells, g: Cells, h: Cells, i: nat, j: nat, rows: nat, wf: nat, c: nat)
    requires IsCells(f, |f|, wf, c) && IsCells(g, |g|, wf, c) && IsCells(h, |h|, wf, c) && IsSum(f, g, h)
    requires rows <= |f| && i + rows <= |x|
    requires forall k :: i <= k < i + rows ==> j + wf <= |x[k]|
    requires forall k, n :: i <= k < i + rows && j <= n < j + wf ==> |x[k][n]| == c
    ensures WindowSum(x, f, i, j, rows, wf, c)
         == WindowSum(x, g, i, j, rows, wf, c) + WindowSum(x, h, i, j, rows, wf, c)
  {
    if rows > 0 {
      WindowAdds(x, f, g, h, i, j, rows - 1, wf, c);
      RowAdds(x[i + rows - 1], f[rows - 1], g[rows - 1], h[rows - 1], j, wf, c);
    }
  }

  /** Convolving with a sum of kernels adds the results; with SingleWeight, every kernel is determined. */
  lemma {:induction false} KernelsAdd(k: Kernel, l: Kernel, m: Kernel, t: Tensor, i: nat, j: nat, ch: nat)
    requires k.Valid() && l.Valid() && m.Valid() && WellShaped(t) && Apply(Convolution(k), t).Some?
    requires SameSize(k, l) && SameSize(k, m) && ch < k.cOut && i + k.hf <= t.h && j + k.wf <= t.w
    requires IsSum(k.weights[ch], l.weights[ch], m.weights[ch])
    ensures Apply(Convolution(l), t).Some? && Apply(Convolution(m), t).Some?
    ensures HasCell(Apply(Convolution(k), t).value, i, j, ch) && HasCell(Apply(Convolution(l), t).value, i, j, ch)
    ensures HasCell(Apply(Convolution(m), t).value, i, j, ch)
    ensures Apply(Convolution(k), t).value.cells[i][j][ch]
         == Apply(Convolution(l), t).value.cells[i][j][ch] + Apply(Convolution(m), t).value.cells[i][j][ch]
  {
    ConvolutionShape(l, t);
    ConvolutionShape(m, t);
    ConvolutionCell(k, t, i, j, ch);
    ConvolutionCell(l, t, i, j, ch);
    ConvolutionCell(m, t, i, j, ch);
    ConvolutionShape(k, t);
    hide Apply, ConvAt, IsSum;
    ConvAdds(k, l, m, t, i, j, ch);
  }

  lemma {:induction false} ConvAdds(k: Kernel, l: Kernel, m: Kernel, t: Tensor, i: nat, j: nat, ch: nat)
    requires k.Valid() && l.Valid() && m.Valid() && WellShaped(t) && Convolvable(t, k)
    requires SameSize(k, l) && SameSize(k, m) && ch < k.cOut && i + k.hf <= t.h && j + k.wf <= t.w
    requires IsSum(k.weights[ch], l.weights[ch], m.weights[ch])
    ensures ConvAt(t, k, i, j, ch) == ConvAt(t, l, i, j, ch) + ConvAt(t, m, i, j, ch)
  {
    hide WindowSum;
    WindowAdds(t.cells, k.weights[ch], l.weights[ch], m.weights[ch], i, j, k.hf, k.wf, t.c);
  }

  // ---------------------------------------------------------------- the other layers

  /** Pooling is defined for a side that divides both dimensions, and has this shape. */
  lemma {:induction false} PoolingShape(side: nat, t: Tensor)
    requires WellShaped(t)
    ensures
      var r := Apply(MaxPool(side), t);
      && (r.Some? <==> t.Volume? && side > 0 && t.h % side == 0 && t.w % side == 0)
      && (r.Some? ==> r.value.Volume? && r.value.h == t.h / side && r.value.w == t.w / side && r.value.c == t.c)
  {
  }

  lemma {:induction false} PoolingCell(side: nat, t: Tensor, i: nat, j: nat, ch: nat)
    requires WellShaped(t) && Poolable(t, side) && i < t.h / side && j < t.w / side && ch < t.c
    ensures Apply(MaxPool(side), t).Some? && HasCell(Apply(MaxPool(side), t).value, i, j, ch)
    ensures Apply(MaxPool(side), t).value.cells[i][j][ch] == PoolAt(t, side, i, j, ch)
  {
    hide PoolAt;
  }

  /** The pooled value bounds the cells of its own patch and is one of them. */
  lemma {:induction false} PoolingTakesMaximum(side: nat, t: Tensor, i: nat, j: nat, ch: nat)
    requires WellShaped(t) && t.Volume? && side > 0 && t.h % side == 0 && t.w % side == 0
    requires i < t.h / side && j < t.w / side && ch < t.c
    ensures Apply(MaxPool(side), t).Some? && HasCell(Apply(MaxPool(side), t).value, i, j, ch)
    ensures forall a, b :: InPatch(t, side, i, j, a, b) ==>
              t.cells[a][b][ch] <= Apply(MaxPool(side), t).value.cells[i][j][ch]
    ensures exists a, b :: InPatch(t, side, i, j, a, b) &&
              t.cells[a][b][ch] == Apply(MaxPool(side), t).value.cells[i][j][ch]
  {
    PoolingCell(side, t, i, j, ch);
    hide Apply, PoolAt;
    PoolAtIsMaximum(side, t, i, j, ch);
  }

  lemma {:induction false} PoolAtIsMaximum(side: nat, t: Tensor, i: nat, j: nat, ch: nat)
    requires WellShaped(t) && Poolable(t, side) && i < t.h / side && j < t.w / side && ch < t.c
    ensures forall a, b :: InPatch(t, side, i, j, a, b) ==> t.cells[a][b][ch] <= PoolAt(t, side, i, j, ch)
    ensures exists a, b :: InPatch(t, side, i, j, a, b) && t.cells[a][b][ch] == PoolAt(t, side, i, j, ch)
  {
    PatchInside(t.h, side, i);
    PatchInside(t.w, side, j);
    hide PatchMax;
    var x, y := i * side, j * side;
    PatchMaxIsMaximum(t.cells, x, y, side, side, ch);
    var a, b :| x <= a < x + side && y <= b < y + side && t.cells[a][b][ch] == PatchMax(t.cells, x, y, side, side, ch);
    assert InPatch(t, side, i, j, a, b);
  }

  /** (a, b) lies in patch (i, j). */
  predicate InPatch(t: Tensor, side: nat, i: nat, j: nat, a: int, b: int)
    requires t.Volume?
  {
    0 <= i * side <= a < i * side + side && 0 <= j * side <= b < j * side + side && a < t.h && b < t.w
  }

  /** Negative values become zero and others stay. */
  lemma {:induction false} ReluKeepsPositive(t: Tensor)
    requires WellShaped(t) && t.Volume?
    ensures
      var r := Apply(Relu, t);
      && r.Some? && r.value.Volume? && r.value.h == t.h && r.value.w == t.w && r.value.c == t.c
      && forall i, j, k :: 0 <= i < t.h && 0 <= j < t.w && 0 <= k < t.c ==>
           r.value.cells[i][j][k] == if t.cells[i][j][k] < 0 then 0 else t.cells[i][j][k]
  {
  }

  lemma {:induction false} ReluOfVector(t: Tensor)
    requires t.Vector?
    ensures
      var r := Apply(Relu, t);
      && r.Some? && r.value.Vector? && |r.value.values| == |t.values|
      && forall k :: 0 <= k < |t.values| ==> r.value.values[k] == if t.values[k] < 0 then 0 else t.values[k]
  {
  }

  /** Cell (i, j, k) of a volume goes to place (i * w + j) * c + k of the vector; a vector stays. */
  lemma {:induction false} FlattenPlaces(t: Tensor, i: nat, j: nat, k: nat)
    requires WellShaped(t)
    ensures
      var r := Apply(Flatten, t);
      && r.Some? && r.value.Vector? && (t.Vector? ==> r.value == t)
      && (t.Volume? && i < t.h && j < t.w && k < t.c ==>
            && 0 <= i * (t.w * t.c) + j * t.c + k < |r.value.values| == t.h * (t.w * t.c)
            && r.value.values[i * (t.w * t.c) + j * t.c + k] == t.cells[i][j][k])
  {
    if t.Volume? && i < t.h && j < t.w && k < t.c {
      FlattenAt(t.cells, t.w, t.c, i, j, k);
      FlattenCellsLength(t.cells, t.w, t.c);
    }
  }

  /** A dense layer maps zero to its biases, a unit vector to a column of weights plus the biases, and is affine. */
  lemma {:induction false} DenseIsAffine(l: Layer, t: Tensor, u: Tensor, sum: Tensor, r: nat, j: nat)
    requires l.FullyConnected? && ValidLayer(l) && r < l.rows && |l.biases| == l.rows
    requires t.Vector? && u.Vector? && sum.Vector? && |t.values| == |u.values| == |sum.values| == l.columns
    requires forall k :: 0 <= k < l.columns ==> sum.values[k] == t.values[k] + u.values[k]
    ensures Apply(l, t).Some? && Apply(l, u).Some? && Apply(l, sum).Some?
    ensures |Apply(l, t).value.values| == |Apply(l, u).value.values| == |Apply(l, sum).value.values| == l.rows
    ensures (forall k :: 0 <= k < l.columns ==> t.values[k] == 0) ==> Apply(l, t).value.values[r] == l.biases[r]
    ensures j < l.columns && (forall k :: 0 <= k < l.columns ==> t.values[k] == if k == j then 1 else 0) ==>
              Apply(l, t).value.values[r] == l.weights[r][j] + l.biases[r]
    ensures Apply(l, sum).value.values[r] == Apply(l, t).value.values[r] + Apply(l, u).value.values[r] - l.biases[r]
  {
    var row := l.weights[r];
    DotAdd(t.values, u.values, sum.values, row, l.columns);
    if forall k :: 0 <= k < l.columns ==> t.values[k] == 0 {
      DotOnlyAt(row, t.values, l.columns, 0, 0);
    }
    if j < l.columns && forall k :: 0 <= k < l.columns ==> t.values[k] == if k == j then 1 else 0 {
      DotOnlyAt(row, t.values, l.columns, j, 1);
    }
  }

  /** A dense layer is defined for vectors of its number of columns, with a bias for each row. */
  lemma {:induction false} DenseShape(l: Layer, t: Tensor)
    requires l.FullyConnected? && ValidLayer(l) && WellShaped(t)
    ensures Apply(l, t).Some? <==> t.Vector? && |t.values| == l.columns && |l.biases| == l.rows
  {
  }

  /** The layers are applied from the first to the last, and an error of one is an error of all. */
  lemma {:induction false} RunComposes(first: seq<Layer>, second: seq<Layer>, t: Tensor)
    requires WellShaped(t) && forall i :: 0 <= i < |first| ==> ValidLayer(first[i])
    requires forall i :: 0 <= i < |second| ==> ValidLayer(second[i])
    ensures Run([], t) == Some(t)
    ensures forall l :: ValidLayer(l) ==> Run([l], t) == Apply(l, t)
    ensures Run(first + second, t) == match Run(first, t) case None => None case Some(u) => Run(second, u)
  {
    hide Apply;
    forall l | ValidLayer(l) ensures Run([l], t) == Apply(l, t) {
      assert [l][..0] == [];
    }
    var all, n := first + second, |second| - 1;
    if second == [] {
      assert all == first;
    } else {
      RunComposes(first, second[..n], t);
      assert all[..|all| - 1] == first + second[..n];
    }
  }
}
