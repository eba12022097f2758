/** What the layers of the convolutional network compute, over exact integers. */
module ConvNet {
  import opened LinearAlgebra
  import opened Prelude

  type Cells = seq<seq<seq<int>>>

  /** A height x width x channels volume, or a flat vector. */
  datatype Tensor = Volume(h: nat, w: nat, c: nat, cells: Cells) | Vector(values: seq<int>)

  predicate IsCells(x: Cells, h: nat, w: nat, c: nat) {
    && |x| == h
    && (forall i :: 0 <= i < h ==> |x[i]| == w)
    && (forall i, j :: 0 <= i < h && 0 <= j < w ==> |x[i][j]| == c)
  }

  predicate WellShaped(t: Tensor) {
    t.Volume? ==> IsCells(t.cells, t.h, t.w, t.c)
  }

  /** Output channels x height x width x input channels. */
  datatype Kernel = Kernel(cOut: nat, hf: nat, wf: nat, cIn: nat, weights: seq<Cells>) {
    predicate Valid() {
      |weights| == cOut && forall k :: 0 <= k < cOut ==> IsCells(weights[k], hf, wf, cIn)
    }
  }

  datatype Layer =
    | Convolution(kernel: Kernel)
    | MaxPool(side: nat)
    | Relu
    | Flatten
    | FullyConnected(rows: nat, columns: nat, weights: Matrix, biases: seq<int>)

  predicate ValidLayer(l: Layer) {
    && (l.Convolution? ==> l.kernel.Valid())
    && (l.FullyConnected? ==> Shaped(l.weights, l.rows, l.columns))
  }

  // ---------------------------------------------------------------- convolution

  /** The window at (i, j) times a kernel slice, summed over the first `rows` rows of the window. */
  function WindowSum(x: Cells, f: Cells, i: nat, j: nat, rows: nat, wf: nat, c: nat): int
    requires IsCells(f, |f|, wf, c) && rows <= |f| && i + rows <= |x|
    requires forall a :: i <= a < i + rows ==> j + wf <= |x[a]|
    requires forall a, b :: i <= a < i + rows && j <= b < j + wf ==> |x[a][b]| == c
  {
    if rows == 0 then 0
    else WindowSum(x, f, i, j, rows - 1, wf, c) + RowSum(x[i + rows - 1], f[rows - 1], j, wf, c)
  }

  function RowSum(row: seq<seq<int>>, f: seq<seq<int>>, j: nat, columns: nat, c: nat): int
    requires columns <= |f| && j + columns <= |row|
    requires forall b :: 0 <= b < columns ==> |f[b]| == c
    requires forall b :: j <= b < j + columns ==> |row[b]| == c
  {
    if columns == 0 then 0
    else RowSum(row, f, j, columns - 1, c) + Dot(row[j + columns - 1], f[columns - 1], c)
  }

  /** The kernel is odd in both directions and fits the volume. */
  predicate Convolvable(t: Tensor, k: Kernel) {
    t.Volume? && t.c == k.cIn && k.hf % 2 == 1 && k.wf % 2 == 1 && k.hf <= t.h && k.wf <= t.w
  }

  function ConvAt(t: Tensor, k: Kernel, i: nat, j: nat, ch: nat): int
    requires WellShaped(t) && k.Valid() && Convolvable(t, k)
    requires i + k.hf <= t.h && j + k.wf <= t.w && ch < k.cOut
  {
    WindowSum(t.cells, k.weights[ch], i, j, k.hf, k.wf, t.c)
  }

  // ---------------------------------------------------------------- max pooling

  /** The maximum of channel ch over n > 0 cells of a row, starting at column j. */
  function RowMax(row: seq<seq<int>>, j: nat, n: nat, ch: nat): int
    requires n > 0 && j + n <= |row| && forall b :: j <= b < j + n ==> ch < |row[b]|
  {
    if n == 1 then row[j][ch] else Max(RowMax(row, j, n - 1, ch), row[j + n - 1][ch])
  }

  /** The maximum of channel ch over a patch of n rows and s columns. */
  function PatchMax(x: Cells, i: nat, j: nat, n: nat, s: nat, ch: nat): int
    requires n > 0 && s > 0 && i + n <= |x|
    requires forall a :: i <= a < i + n ==> j + s <= |x[a]|
    requires forall a, b :: i <= a < i + n && j <= b < j + s ==> ch < |x[a][b]|
  {
    if n == 1 then RowMax(x[i], j, s, ch)
    else Max(PatchMax(x, i, j, n - 1, s, ch), RowMax(x[i + n - 1], j, s, ch))
  }

  lemma {:induction false} RowMaxIsMaximum(row: seq<seq<int>>, j: nat, n: nat, ch: nat)
    requires n > 0 && j + n <= |row| && forall b :: j <= b < j + n ==> ch < |row[b]|
    ensures forall b :: j <= b < j + n ==> row[b][ch] <= RowMax(row, j, n, ch)
    ensures exists b :: j <= b < j + n && row[b][ch] == RowMax(row, j, n, ch)
  {
    if n > 1 {
      RowMaxIsMaximum(row, j, n - 1, ch);
    }
  }

  /** The pooled value is at least every value of the patch and is one of them. */
  lemma {:induction false} PatchMaxIsMaximum(x: Cells, i: nat, j: nat, n: nat, s: nat, ch: nat)
    requires n > 0 && s > 0 && i + n <= |x|
    requires forall a :: i <= a < i + n ==> j + s <= |x[a]|
    requires forall a, b :: i <= a < i + n && j <= b < j + s ==> ch < |x[a][b]|
    ensures forall a, b :: i <= a < i + n && j <= b < j + s ==> x[a][b][ch] <= PatchMax(x, i, j, n, s, ch)
    ensures exists a, b :: i <= a < i + n && j <= b < j + s && x[a][b][ch] == PatchMax(x, i, j, n, s, ch)
  {
    RowMaxIsMaximum(x[i + n - 1], j, s, ch);
    if n > 1 {
      PatchMaxIsMaximum(x, i, j, n - 1, s, ch);
    }
  }

  predicate Poolable(t: Tensor, side: nat) {
    t.Volume? && side > 0 && t.h % side == 0 && t.w % side == 0
  }

  /** Cell (i, j) of the pooled volume lies over the patch at (i * side, j * side). */
  lemma PatchInside(n: nat, side: nat, i: nat)
    requires side > 0 && n % side == 0 && i < n / side
    ensures 0 <= i * side && i * side + side <= n
  {
    NextRow(i, n / side, side);
  }

  function PoolAt(t: Tensor, side: nat, i: nat, j: nat, ch: nat): int
    requires WellShaped(t) && Poolable(t, side) && i < t.h / side && j < t.w / side && ch < t.c
  {
    PatchInside(t.h, side, i);
    PatchInside(t.w, side, j);
    PatchMax(t.cells, i * side, j * side, side, side, ch)
  }

  // ---------------------------------------------------------------- the other layers

  function ReluCells(x: Cells): Cells {
    seq(|x|, i requires 0 <= i < |x| => seq(|x[i]|, j requires 0 <= j < |x[i]| => ReluVector(x[i][j])))
  }

  function ReluVector(v: seq<int>): (r: seq<int>)
    ensures |r| == |v|
  {
    seq(|v|, i requires 0 <= i < |v| => Max(0, v[i]))
  }

  /** Row-major order: rows, then columns, then channels. */
  function FlattenRow(row: seq<seq<int>>): seq<int> {
    if row == [] then [] else FlattenRow(row[..|row| - 1]) + row[|row| - 1]
  }

  function FlattenCells(x: Cells): seq<int> {
    if x == [] then [] else FlattenCells(x[..|x| - 1]) + FlattenRow(x[|x| - 1])
  }

  predicate Multiplies(t: Tensor, l: Layer)
    requires l.FullyConnected?
  {
    t.Vector? && |t.values| == l.columns && |l.biases| == l.rows
  }

  // ---------------------------------------------------------------- layers and networks

  /** The volume with the given cells. */
  function Tabulate(h: nat, w: nat, c: nat, f: (nat, nat, nat) --> int): (t: Tensor)
    requires forall i: nat, j: nat, k: nat :: i < h && j < w && k < c ==> f.requires(i, j, k)
    ensures WellShaped(t)
  {
    Volume(h, w, c,
      seq(h, i requires 0 <= i < h => seq(w, j requires 0 <= j < w => seq(c, k requires 0 <= k < c => f(i, j, k)))))
  }

  /** The output of a layer; None where the implementations raise an error. */
  function Apply(l: Layer, t: Tensor): (r: Option<Tensor>)
    requires ValidLayer(l) && WellShaped(t)
    ensures r.Some? ==> WellShaped(r.value)
  {
    match l
    case Convolution(k) =>
      if !Convolvable(t, k) then None
      else Some(Tabulate(t.h - k.hf + 1, t.w - k.wf + 1, k.cOut,
                  (i: nat, j: nat, ch: nat) requires i + k.hf <= t.h && j + k.wf <= t.w && ch < k.cOut =>
                    ConvAt(t, k, i, j, ch)))
    case MaxPool(side) =>
      if !Poolable(t, side) then None
      else Some(Tabulate(t.h / side, t.w / side, t.c,
                  (i: nat, j: nat, ch: nat) requires i < t.h / side && j < t.w / side && ch < t.c =>
                    PoolAt(t, side, i, j, ch)))
    case Relu =>
      (match t
       case Volume(h, w, c, x) => Some(Volume(h, w, c, ReluCells(x)))
       case Vector(v) => Some(Vector(ReluVector(v))))
    case Flatten =>
      (match t
       case Volume(_, _, _, x) => Some(Vector(FlattenCells(x)))
       case Vector(v) => Some(t))
    case FullyConnected(rows, columns, weights, biases) =>
      if !Multiplies(t, l) then None
      else Some(Vector(seq(rows, r requires 0 <= r < rows => Dot(weights[r], t.values, columns) + biases[r])))
  }

  function Run(layers: seq<Layer>, t: Tensor): (r: Option<Tensor>)
    requires WellShaped(t) && forall i :: 0 <= i < |layers| ==> ValidLayer(layers[i])
    ensures r.Some? ==> WellShaped(r.value)
  {
    if layers == [] then Some(t)
    else match Run(layers[..|layers| - 1], t)
         case None => None
         case Some(u) => Apply(layers[|layers| - 1], u)
  }
}
