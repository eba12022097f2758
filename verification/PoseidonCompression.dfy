/** The program that computes the compressed tables, in place over flattened row-major arrays. */
module PoseidonCompression {
  import opened ModArith
  import opened LinearAlgebra
  import opened Poseidon

  function Add(a: Elem, b: Elem): Elem { (a + b) % P }

  function Mul(a: Elem, b: Elem): Elem { (a * b) % P }

  /** One reduced multiply-accumulate step keeps a running sum equal to the exact sum, reduced. */
  lemma Accumulate(exact: int, a: Elem, b: Elem)
    ensures Add(exact % P, Mul(a, b)) == (exact + a * b) % P
  {
    CongMod(P, exact);
    CongMod(P, a * b);
    CongAdd(P, exact % P, exact, a * b % P, a * b);
  }

  // ---------------------------------------------------------------- what the result is for

  /**
   * State s' follows from s by partial round r, read off the tables: a is s with the constants of row half + r added
   * and the S-box applied to cell 0, and s' is the MDS table times a.
   */
  ghost predicate IsPartialRound(cells: nat, half: nat, constants: seq<Elem>, mds: seq<Elem>,
                                 r: nat, s: State, s': State, sbox: Elem -> Elem)
  {
    var c := (half + r) * cells;
    && cells > 0 && |s| == |s'| == cells && 0 <= c && c + cells <= |constants|
    && exists a: State :: |a| == cells && IsFed(cells, constants, c, s, a, sbox) && IsProduct(cells, mds, a, s')
  }

  /** a is s with the constants from position c on, and the S-box on cell 0. */
  ghost predicate IsFed(cells: nat, constants: seq<Elem>, c: nat, s: State, a: State, sbox: Elem -> Elem)
    requires |s| == cells && cells > 0 && c + cells <= |constants|
  {
    && |a| == cells && a[0] == sbox((s[0] + constants[c]) % P)
    && forall k :: 0 < k < cells ==> a[k] == (s[k] + constants[c + k]) % P
  }

  /** Entry i of the product is the sum over k of table[i * cells + k] * a[k]. */
  ghost predicate IsProduct(cells: nat, table: seq<Elem>, a: State, s: State)
    requires |a| == |s| == cells
  {
    forall i :: 0 <= i < cells ==>
      && 0 <= i * cells && i * cells + cells <= |table|
      && s[i] == Dot(table[i * cells..i * cells + cells], a, cells) % P
  }

  /** The states after 0, 1, ... rounds. */
  ghost predicate AreRounds(cells: nat, half: nat, constants: seq<Elem>, mds: seq<Elem>,
                            states: seq<State>, sbox: Elem -> Elem)
  {
    && |states| > 0 && (forall r :: 0 <= r < |states| ==> |states[r]| == cells)
    && forall r :: 0 <= r < |states| - 1 ==>
      IsPartialRound(cells, half, constants, mds, r, states[r], states[r + 1], sbox)
  }

  /** Row i of the flattened square matrix times the first n entries of v, plus entry i of the offset. */
  ghost predicate RowGives(matrix: seq<int>, offset: seq<int>, i: nat, v: seq<Elem>, n: nat, value: int)
    requires |matrix| == |v| * |v| && i < |offset| == |v| && n <= |v|
  {
    && 0 <= i * |v| && i * |v| + |v| <= |matrix|
    && value == (Dot(matrix[i * |v|..i * |v| + |v|], v, n) + offset[i]) % P
  }

  /** v is the input followed by the S-box outputs: the S-box of each row, applied to the entries before. */
  ghost predicate IsSboxChain(cells: nat, matrix: seq<int>, offset: seq<int>, v: seq<Elem>, sbox: Elem -> Elem)
    requires |matrix| == |v| * |v| && |offset| == |v|
  {
    forall row :: cells <= row < |v| ==> IsSboxOutput(matrix, offset, v, row, sbox)
  }

  ghost predicate IsSboxOutput(matrix: seq<int>, offset: seq<int>, v: seq<Elem>, row: nat, sbox: Elem -> Elem)
    requires |matrix| == |v| * |v| && row < |offset| == |v|
  {
    exists input: Elem :: RowGives(matrix, offset, row, v, row, input) && v[row] == sbox(input)
  }

  /** For every S-box and every input, the table gives the state after all the partial rounds. */
  ghost predicate ComputesRounds(cells: nat, half: nat, rounds: nat, constants: seq<Elem>, mds: seq<Elem>,
                                 matrix: seq<int>, offset: seq<int>)
    requires |matrix| == (cells + rounds) * (cells + rounds) && |offset| == cells + rounds
  {
    forall sbox: Elem -> Elem, states: seq<State>, v: seq<Elem> |
      && AreRounds(cells, half, constants, mds, states, sbox) && |states| == rounds + 1
      && |v| == cells + rounds && v[..cells] == states[0] && IsSboxChain(cells, matrix, offset, v, sbox) ::
      ComputesLast(cells, rounds, matrix, offset, states, v)
  }

  /** Rows 0 to cells of the table give the last state. */
  ghost predicate ComputesLast(cells: nat, rounds: nat, matrix: seq<int>, offset: seq<int>,
                               states: seq<State>, v: seq<Elem>)
    requires |v| == cells + rounds && |matrix| == |v| * |v| && |offset| == |v|
    requires |states| == rounds + 1 && |states[rounds]| == cells
  {
    forall i :: 0 <= i < cells ==> RowGives(matrix, offset, i, v, |v|, states[rounds][i])
  }

  lemma {:induction false} ConstantsOfRound(t: Tables, r: nat, s: State)
    requires t.Valid() && r < t.roundsPartial && |s| == t.cells
    ensures var c := (t.roundsHalfFull + r) * t.cells;
            && 0 <= c && c + t.cells <= |t.roundConstants|
            && forall k :: 0 <= k < t.cells ==> WithConstants(t, r, s)[k] == (s[k] + t.roundConstants[c + k]) % P
  {
    NextRow(t.roundsHalfFull + r, t.roundsHalfFull + t.roundsPartial, t.cells);
  }

  lemma {:induction false} FedReadsTable(t: Tables, r: nat, s: State, a: State, sbox: Elem -> Elem)
    requires t.Valid() && r < t.roundsPartial && |s| == t.cells
    ensures var c := (t.roundsHalfFull + r) * t.cells;
            && 0 <= c && c + t.cells <= |t.roundConstants|
            && (IsFed(t.cells, t.roundConstants, c, s, a, sbox)
                <==> a == WithConstants(t, r, s)[0 := sbox(WithConstants(t, r, s)[0])])
  {
    hide WithConstants;
    var c, added := (t.roundsHalfFull + r) * t.cells, WithConstants(t, r, s);
    ConstantsOfRound(t, r, s);
    if IsFed(t.cells, t.roundConstants, c, s, a, sbox) {
      assert a == added[0 := sbox(added[0])];
    }
  }

  /** The rounds of the permutation are partial rounds in this sense, and the only ones. */
  lemma {:induction false} RoundReadsTables(t: Tables, r: nat, s: State, s': State, sbox: Elem -> Elem)
    requires t.Valid() && r < t.roundsPartial && |s| == |s'| == t.cells
    ensures IsPartialRound(t.cells, t.roundsHalfFull, t.roundConstants, t.mds, r, s, s', sbox)
       <==> s' == PartialRound(t, r, s, sbox)
  {
    hide WithConstants, MdsProduct, IsFed, IsProduct;
    var c, added := (t.roundsHalfFull + r) * t.cells, WithConstants(t, r, s);
    var b := added[0 := sbox(added[0])];
    FedReadsTable(t, r, s, b, sbox);
    ProductReadsTable(t, b, s');
    if IsPartialRound(t.cells, t.roundsHalfFull, t.roundConstants, t.mds, r, s, s', sbox) {
      var a: State :| |a| == t.cells && IsFed(t.cells, t.roundConstants, c, s, a, sbox) &&
                      IsProduct(t.cells, t.mds, a, s');
      FedReadsTable(t, r, s, a, sbox);
    }
  }

  lemma {:induction false} ProductReadsTable(t: Tables, a: State, s: State)
    requires t.Valid() && |a| == |s| == t.cells
    ensures IsProduct(t.cells, t.mds, a, s) <==> s == MdsProduct(t, a)
  {
    forall i | 0 <= i < t.cells
      ensures 0 <= i * t.cells && i * t.cells + t.cells <= |t.mds|
      ensures t.MdsRow(i) == t.mds[i * t.cells..i * t.cells + t.cells]
    {
      NextRow(i, t.cells, t.cells);
    }
  }

  lemma {:induction false} RoundsReadTables(t: Tables, states: seq<State>, sbox: Elem -> Elem, n: nat)
    requires t.Valid() && AreRounds(t.cells, t.roundsHalfFull, t.roundConstants, t.mds, states, sbox)
    requires n < |states| <= t.roundsPartial + 1
    ensures states[n] == PartialRounds(t, states[0], sbox, n)
  {
    if n > 0 {
      RoundsReadTables(t, states, sbox, n - 1);
      assert IsPartialRound(
          t.cells, t.roundsHalfFull, t.roundConstants, t.mds, n - 1, states[n - 1], states[n - 1 + 1], sbox);
      RoundReadsTables(t, n - 1, states[n - 1], states[n], sbox);
    }
  }

  /** A row of the flattened compressed form. */
  lemma {:induction false} FlatRowGives(t: Tables, i: nat, v: seq<Elem>, n: nat)
    requires t.Valid() && i < t.Width() == |v| && n <= |v|
    ensures RowGives(Flat(Compressed(t).matrix, t.Width()), Compressed(t).offset, i, v, n,
                     Evaluate(CompressedRow(t, i), CompressedOffset(t, i), v, n))
  {
    hide CompressedRow, CompressedOffset, Flat;
    CompressedAt(t, i);
    FlatRow(Compressed(t).matrix, t.Width(), i);
    NextRow(i, t.Width(), t.Width());
  }

  /** The S-box input that a row of the flattened tables gives is the one of the compressed form. */
  lemma {:induction false} SboxOutputRead(t: Tables, sbox: Elem -> Elem, v: seq<Elem>, row: nat)
    requires t.Valid() && |v| == t.Width() && t.cells <= row < t.Width()
    requires |Flat(Compressed(t).matrix, t.Width())| == |v| * |v|
    requires IsSboxOutput(Flat(Compressed(t).matrix, t.Width()), Compressed(t).offset, v, row, sbox)
    ensures v[row] == sbox(Evaluate(CompressedRow(t, row), CompressedOffset(t, row), v, row))
  {
    hide CompressedRow, CompressedOffset, Flat, Compressed, Evaluate;
    FlatRowGives(t, row, v, row);
  }

  /** A chain over the flattened tables is a chain of the compressed form. */
  lemma {:induction false} ChainReadsTables(t: Tables, sbox: Elem -> Elem, v: seq<Elem>)
    requires t.Valid() && |v| == t.Width()
    requires IsSboxChain(t.cells, Flat(Compressed(t).matrix, t.Width()), Compressed(t).offset, v, sbox)
    ensures IsChain(t, v, sbox)
  {
    hide CompressedRow, CompressedOffset, Flat, Compressed, Evaluate, IsSboxOutput;
    forall row | t.cells <= row < t.Width()
      ensures v[row] == sbox(Evaluate(CompressedRow(t, row), CompressedOffset(t, row), v, row))
    {
      SboxOutputRead(t, sbox, v, row);
    }
  }

  /** The compressed form, flattened, computes all the partial rounds as the tables give them. */
  lemma {:induction false} FlatTablesComputeRounds(t: Tables)
    requires t.Valid()
    ensures ComputesRounds(t.cells, t.roundsHalfFull, t.roundsPartial, t.roundConstants, t.mds,
                           Flat(Compressed(t).matrix, t.Width()), Compressed(t).offset)
  {
    hide CompressedRow, CompressedOffset, FormAfter, PartialRounds, Flat, Compressed, RowGives, IsChain, IsSboxChain,
         IsPartialRound, Evaluate;
    var matrix, offset := Flat(Compressed(t).matrix, t.Width()), Compressed(t).offset;
    forall sbox: Elem -> Elem, states: seq<State>, v: seq<Elem> |
      && AreRounds(t.cells, t.roundsHalfFull, t.roundConstants, t.mds, states, sbox) && |states| == t.roundsPartial + 1
      && |v| == t.Width() && v[..t.cells] == states[0] && IsSboxChain(t.cells, matrix, offset, v, sbox)
      ensures ComputesLast(t.cells, t.roundsPartial, matrix, offset, states, v)
    {
      ChainReadsTables(t, sbox, v);
      RoundsReadTables(t, states, sbox, t.roundsPartial);
      FormFollowsRounds(t, v, sbox, t.roundsPartial);
      LastStateRead(t, v, states[t.roundsPartial], states);
    }
  }

  lemma {:induction false} LastStateRead(t: Tables, v: seq<Elem>, s: State, states: seq<State>)
    requires t.Valid() && |v| == t.Width() && |s| == t.cells && |states| == t.roundsPartial + 1
    requires states[t.roundsPartial] == s && Denotes(t, FormAfter(t, t.roundsPartial), v, s)
    ensures ComputesLast(t.cells, t.roundsPartial, Flat(Compressed(t).matrix, t.Width()), Compressed(t).offset,
                         states, v)
  {
    hide CompressedRow, CompressedOffset, FormAfter, Flat, Compressed, RowGives, Evaluate;
    forall i | 0 <= i < t.cells
      ensures RowGives(Flat(Compressed(t).matrix, t.Width()), Compressed(t).offset, i, v, |v|, s[i])
    {
      FlatRowGives(t, i, v, |v|);
      FinalRow(t, i);
    }
  }

  /** For every input and S-box there are such rounds, and such a chain over the flattened tables. */
  lemma {:induction false} RunExists(t: Tables, x: State, sbox: Elem -> Elem) returns (states: seq<State>, v: seq<Elem>)
    requires t.Valid() && |x| == t.cells
    ensures AreRounds(t.cells, t.roundsHalfFull, t.roundConstants, t.mds, states, sbox)
    ensures |states| == t.roundsPartial + 1 && states[0] == x && |v| == t.Width() && v[..t.cells] == x
    ensures IsSboxChain(t.cells, Flat(Compressed(t).matrix, t.Width()), Compressed(t).offset, v, sbox)
  {
    hide PartialRound, CompressedRow, CompressedOffset, Flat, Compressed, Evaluate, SboxOutputs, IsPartialRound;
    states := seq(t.roundsPartial + 1, r requires 0 <= r <= t.roundsPartial => PartialRounds(t, x, sbox, r));
    forall r | 0 <= r < |states| - 1
      ensures IsPartialRound(t.cells, t.roundsHalfFull, t.roundConstants, t.mds, r, states[r], states[r + 1], sbox)
    {
      RoundReadsTables(t, r, states[r], states[r + 1], sbox);
    }
    v := SboxOutputs(t, Compressed(t), x, sbox, t.roundsPartial);
    SboxOutputsFormChain(t, x, sbox);
    forall row | t.cells <= row < |v|
      ensures IsSboxOutput(Flat(Compressed(t).matrix, t.Width()), Compressed(t).offset, v, row, sbox)
    {
      FlatRowGives(t, row, v, row);
    }
  }

  /** The tables of the permutation, with the two computed ones at the end. */
  class ComputedConstants {
    const cells: nat
    var roundsFull: nat
    var roundsPartial: nat
    var roundConstants: seq<Elem>
    var mds: seq<Elem>
    var partialCompMatrix: seq<Elem>
    var partialCompOffset: seq<Elem>

    constructor (cells: nat)
      ensures this.cells == cells
      ensures roundsFull == roundsPartial == 0 && roundConstants == mds == []
      ensures partialCompMatrix == partialCompOffset == []
    {
      this.cells := cells;
      roundsFull, roundsPartial := 0, 0;
      roundConstants, mds := [], [];
      partialCompMatrix, partialCompOffset := [], [];
    }

    function Tables(): Tables
      reads this
    {
      Poseidon.Tables(cells, roundsFull / 2, roundsPartial, roundConstants, mds)
    }

    method ComputePartialCompression()
      requires Tables().Valid()
      modifies this`partialCompMatrix, this`partialCompOffset
      ensures partialCompMatrix == Flat(Compressed(Tables()).matrix, Tables().Width())
      ensures partialCompOffset == Compressed(Tables()).offset
      ensures |partialCompMatrix| == (cells + roundsPartial) * (cells + roundsPartial)
      ensures |partialCompOffset| == cells + roundsPartial
      ensures ComputesRounds(cells, roundsFull / 2, roundsPartial, roundConstants, mds,
                             partialCompMatrix, partialCompOffset)
    {
      hide Flat, Compressed, ComputesRounds;
      var t := Tables();
      FlatTablesComputeRounds(t);
      var finalMatrix, finalOffset := Compress(t);
      partialCompMatrix := finalMatrix[..];
      partialCompOffset := finalOffset[..];
    }
  }

  method Compress(t: Tables) returns (finalMatrix: array<Elem>, finalOffset: array<Elem>)
    requires t.Valid()
    ensures finalMatrix[..] == Flat(Compressed(t).matrix, t.Width())
    ensures finalOffset[..] == Compressed(t).offset
  {
    hide Flat, Compressed, CompressedRow, CompressedOffset;
    hide FormAfter, SboxForm, AddConstants, ReplaceCell0, MultiplyMds;
    var cells, rowSize := t.cells, t.Width();
    ghost var c := Compressed(t);
    finalMatrix := new Elem[rowSize * rowSize](_ => 0);
    finalOffset := new Elem[rowSize](_ => 0);
    FirstForm(t);
    var curMatrix, curOffset := InitialForm(t);

    for round := 0 to t.roundsPartial
      invariant finalMatrix.Length == rowSize * rowSize && finalOffset.Length == rowSize
      invariant curMatrix[..] == Flat(FormAfter(t, round).matrix, rowSize)
      invariant curOffset[..] == FormAfter(t, round).offset
      invariant RowsDone(finalMatrix[..], finalOffset[..], c, rowSize, cells, cells + round)
    {
      CompressRound(t, round, curMatrix, curOffset, finalMatrix, finalOffset);
    }

    WriteState(t, curMatrix, curOffset, finalMatrix, finalOffset);
  }

  /** The rows of the final state, the last ones missing from the result. */
  method WriteState(t: Tables, curMatrix: array<Elem>, curOffset: array<Elem>,
                    finalMatrix: array<Elem>, finalOffset: array<Elem>)
    requires t.Valid()
    requires finalMatrix !in {curMatrix, curOffset, finalOffset} && finalOffset !in {curMatrix, curOffset}
    requires curMatrix[..] == Flat(FormAfter(t, t.roundsPartial).matrix, t.Width())
    requires curOffset[..] == FormAfter(t, t.roundsPartial).offset
    requires RowsDone(finalMatrix[..], finalOffset[..], Compressed(t), t.Width(), t.cells, t.Width())
    modifies finalMatrix, finalOffset
    ensures finalMatrix[..] == Flat(Compressed(t).matrix, t.Width())
    ensures finalOffset[..] == Compressed(t).offset
  {
    hide Flat, Compressed, CompressedRow, CompressedOffset;
    hide FormAfter, SboxForm, AddConstants, ReplaceCell0, MultiplyMds;
    var cells := t.cells;
    ghost var rowSize, c, last := t.Width(), Compressed(t), FormAfter(t, t.roundsPartial);
    for i := 0 to cells
      invariant finalMatrix.Length == rowSize * rowSize && finalOffset.Length == rowSize
      invariant RowsDone(finalMatrix[..], finalOffset[..], c, rowSize, 0, i)
      invariant RowsDone(finalMatrix[..], finalOffset[..], c, rowSize, cells, rowSize)
    {
      ghost var m, o := finalMatrix[..], finalOffset[..];
      FinalStep(t, i);
      WriteRow(t, last, i, c, i, curMatrix, curOffset, finalMatrix, finalOffset);
      RowsKept(m, o, c, rowSize, 0, i, i, finalMatrix[..], finalOffset[..]);
      RowsKept(m, o, c, rowSize, cells, rowSize, i, finalMatrix[..], finalOffset[..]);
    }
    AllRowsDone(finalMatrix[..], finalOffset[..], c, rowSize, cells);
  }

  /** One round: record the S-box row, make the S-box output a column, multiply by the MDS matrix. */
  method CompressRound(t: Tables, round: nat, curMatrix: array<Elem>, curOffset: array<Elem>,
                       finalMatrix: array<Elem>, finalOffset: array<Elem>)
    requires t.Valid() && round < t.roundsPartial
    requires curMatrix != curOffset && finalMatrix != finalOffset
    requires {curMatrix, curOffset} !! {finalMatrix, finalOffset}
    requires curMatrix[..] == Flat(FormAfter(t, round).matrix, t.Width())
    requires curOffset[..] == FormAfter(t, round).offset
    requires RowsDone(finalMatrix[..], finalOffset[..], Compressed(t), t.Width(), t.cells, t.cells + round)
    modifies curMatrix, curOffset, finalMatrix, finalOffset
    ensures curMatrix[..] == Flat(FormAfter(t, round + 1).matrix, t.Width())
    ensures curOffset[..] == FormAfter(t, round + 1).offset
    ensures RowsDone(finalMatrix[..], finalOffset[..], Compressed(t), t.Width(), t.cells, t.cells + round + 1)
  {
    hide Flat, Compressed, CompressedRow, CompressedOffset;
    hide FormAfter, SboxForm, AddConstants, ReplaceCell0, MultiplyMds;
    ghost var c, f := Compressed(t), SboxForm(t, round);
    FormStep(t, round);
    AddRoundConstants(t, round, FormAfter(t, round), curOffset);
    // The form of cell 0 completes the row of this round.
    ghost var m, o := finalMatrix[..], finalOffset[..];
    WriteRow(t, f, 0, c, t.cells + round, curMatrix, curOffset, finalMatrix, finalOffset);
    RowsKept(m, o, c, t.Width(), t.cells, t.cells + round, t.cells + round, finalMatrix[..], finalOffset[..]);
    // From here on cell 0 stands for the new S-box output.
    ReplaceRow0(t, round, f, curMatrix, curOffset);
    // Both products start from the form with cell 0 replaced.
    MultiplyMatrix(t, ReplaceCell0(t, round, f), curMatrix);
    MultiplyOffset(t, ReplaceCell0(t, round, f), curOffset);
  }

  /** How the symbolic forms follow each other, and which rows of the result they supply. */
  lemma FormStep(t: Tables, r: nat)
    requires t.Valid() && r < t.roundsPartial
    ensures SboxForm(t, r).matrix == FormAfter(t, r).matrix
    ensures SboxForm(t, r) == AddConstants(t, r, FormAfter(t, r))
    ensures FormAfter(t, r + 1) == MultiplyMds(t, ReplaceCell0(t, r, SboxForm(t, r)))
    ensures Compressed(t).matrix[t.cells + r] == SboxForm(t, r).matrix[0]
    ensures Compressed(t).offset[t.cells + r] == SboxForm(t, r).offset[0]
  {
    hide MultiplyMds, ReplaceCell0;
    CompressedAt(t, t.cells + r);
  }

  lemma FinalStep(t: Tables, i: nat)
    requires t.Valid() && i < t.cells
    ensures Compressed(t).matrix[i] == FormAfter(t, t.roundsPartial).matrix[i]
    ensures Compressed(t).offset[i] == FormAfter(t, t.roundsPartial).offset[i]
  {
    CompressedAt(t, i);
    FinalRow(t, i);
  }

  lemma FirstForm(t: Tables)
    requires t.Valid()
    ensures FormAfter(t, 0) == IdentityForm(t)
  {
  }

  /** Rows lo to hi of the flattened result are those of c. */
  ghost predicate RowsDone(flat: seq<Elem>, offset: seq<Elem>, c: Affine, w: nat, lo: nat, hi: nat)
    requires Shaped(c.matrix, w, w) && |c.offset| == w
  {
    && |flat| == w * w && |offset| == w && hi <= w
    && forall i :: lo <= i < hi ==> RowIs(flat, w, i, c.matrix[i]) && offset[i] == c.offset[i]
  }

  lemma RowsKept(flat: seq<Elem>, offset: seq<Elem>, c: Affine, w: nat, lo: nat, hi: nat, to: nat,
                 flat': seq<Elem>, offset': seq<Elem>)
    requires Shaped(c.matrix, w, w) && |c.offset| == w && to < w
    requires RowsDone(flat, offset, c, w, lo, hi)
    requires to * w + w <= w * w && flat' == flat[..to * w] + c.matrix[to] + flat[to * w + w..]
    requires offset' == offset[to := c.offset[to]]
    ensures RowsDone(flat', offset', c, w, lo, hi)
    ensures lo <= to == hi ==> RowsDone(flat', offset', c, w, lo, hi + 1)
  {
    hide RowIs;
    RowWritten(flat, w, to, c.matrix[to], flat');
    forall i | lo <= i < hi ensures RowIs(flat', w, i, c.matrix[i]) {
      if i != to {
        RowKept(flat, w, i, c.matrix[i], to, c.matrix[to], flat');
      }
    }
  }

  lemma AllRowsDone(flat: seq<Elem>, offset: seq<Elem>, c: Affine, w: nat, mid: nat)
    requires w > 0 && mid <= w && Shaped(c.matrix, w, w) && |c.offset| == w
    requires RowsDone(flat, offset, c, w, 0, mid) && RowsDone(flat, offset, c, w, mid, w)
    ensures flat == Flat(c.matrix, w) && offset == c.offset
  {
    FlatFromRows(flat, c.matrix, w);
  }

  /** Copies row `from` of the current form into row `to` of the result. */
  method WriteRow(t: Tables, ghost f: Affine, from: nat, ghost c: Affine, to: nat,
                  curMatrix: array<Elem>, curOffset: array<Elem>,
                  finalMatrix: array<Elem>, finalOffset: array<Elem>)
    requires t.Valid() && f.Fits(t) && from < t.cells && to < t.Width()
    requires curMatrix[..] == Flat(f.matrix, t.Width()) && curOffset[..] == f.offset
    requires Shaped(c.matrix, t.Width(), t.Width()) && |c.offset| == t.Width()
    requires c.matrix[to] == f.matrix[from] && c.offset[to] == f.offset[from]
    requires finalMatrix.Length == t.Width() * t.Width() && finalOffset.Length == t.Width()
    requires finalMatrix !in {curMatrix, curOffset, finalOffset} && finalOffset !in {curMatrix, curOffset}
    modifies finalMatrix, finalOffset
    ensures to * t.Width() + t.Width() <= finalMatrix.Length
    ensures finalMatrix[..] == old(finalMatrix[..to * t.Width()]) + c.matrix[to]
                               + old(finalMatrix[to * t.Width() + t.Width()..])
    ensures finalOffset[..] == old(finalOffset[..])[to := c.offset[to]]
  {
    var w := t.Width();
    FlatRow(f.matrix, w, from);
    FlatRow(c.matrix, w, to);
    finalOffset[to] := curOffset[from];
    CopyRow(curMatrix, from * w, finalMatrix, to * w, w);
  }

  method InitialForm(t: Tables) returns (curMatrix: array<Elem>, curOffset: array<Elem>)
    requires t.Valid()
    ensures fresh(curMatrix) && fresh(curOffset)
    ensures curMatrix[..] == Flat(IdentityForm(t).matrix, t.Width())
    ensures curOffset[..] == IdentityForm(t).offset
  {
    hide Flat, Unit;
    var rowSize := t.Width();
    ghost var m := IdentityForm(t).matrix;
    ghost var target := Flat(m, rowSize);
    curMatrix := new Elem[t.cells * rowSize](_ => 0);
    curOffset := new Elem[t.cells](_ => 0);
    var base := 0;
    for i := 0 to t.cells
      invariant base == i * rowSize <= curMatrix.Length
      invariant curMatrix[..base] == target[..base]
      invariant forall q :: base <= q < curMatrix.Length ==> curMatrix[q] == 0
      invariant forall q :: 0 <= q < t.cells ==> curOffset[q] == 0
    {
      ghost var next := NextBase(i, t.cells, rowSize, base);
      FlatRow(m, rowSize, i);
      curMatrix[base + i] := 1;
      UnitSlice(curMatrix[base..next], rowSize, i);
      assert target[base..next] == Unit(rowSize, i);
      assert curMatrix[..next] == curMatrix[..base] + curMatrix[base..next];
      assert target[..next] == target[..base] + target[base..next];
      base := base + rowSize;
    }
    assert curMatrix[..] == target;
  }

  lemma UnitSlice(s: seq<Elem>, width: nat, k: nat)
    requires |s| == width && k < width && forall j :: 0 <= j < width ==> s[j] == if j == k then 1 else 0
    ensures s == Unit(width, k)
  {
  }

  /** The start of the row after row i. */
  function NextBase(i: nat, rows: nat, width: nat, base: nat): (next: nat)
    requires base == i * width && i < rows
    ensures next == (i + 1) * width <= rows * width
  {
    NextRow(i, rows, width);
    base + width
  }

  method AddRoundConstants(t: Tables, round: nat, ghost f: Affine, curOffset: array<Elem>)
    requires t.Valid() && round < t.roundsPartial && f.Fits(t) && curOffset[..] == f.offset
    modifies curOffset
    ensures curOffset[..] == AddConstants(t, round, f).offset
  {
    for i := 0 to t.cells
      invariant forall q :: 0 <= q < i ==> curOffset[q] == AddConstants(t, round, f).offset[q]
      invariant forall q :: i <= q < t.cells ==> curOffset[q] == f.offset[q]
    {
      CellIndex(t.roundsHalfFull + round, i, t.roundsHalfFull + t.roundsPartial, t.cells);
      curOffset[i] := Add(curOffset[i], t.roundConstants[(t.roundsHalfFull + round) * t.cells + i]);
    }
  }

  /** Copies w elements of source, from position a, into target, at position b. */
  method CopyRow(source: array<Elem>, a: nat, target: array<Elem>, b: nat, w: nat)
    requires source != target && a + w <= source.Length && b + w <= target.Length
    modifies target
    ensures target[..] == old(target[..b]) + source[a..a + w] + old(target[b + w..])
  {
    for i := 0 to w
      invariant forall q :: b <= q < b + i ==> target[q] == source[a + q - b]
      invariant forall q :: 0 <= q < b || b + i <= q < target.Length ==> target[q] == old(target[q])
    {
      target[b + i] := source[a + i];
    }
    assert target[b..b + w] == source[a..a + w];
    assert target[..] == target[..b] + target[b..b + w] + target[b + w..];
  }

  method ReplaceRow0(t: Tables, round: nat, ghost f: Affine, curMatrix: array<Elem>, curOffset: array<Elem>)
    requires t.Valid() && round < t.roundsPartial && f.Fits(t) && curMatrix != curOffset
    requires curMatrix[..] == Flat(f.matrix, t.Width()) && curOffset[..] == f.offset
    modifies curMatrix, curOffset
    ensures curMatrix[..] == Flat(ReplaceCell0(t, round, f).matrix, t.Width())
    ensures curOffset[..] == ReplaceCell0(t, round, f).offset
  {
    var w := t.Width();
    ghost var m := ReplaceCell0(t, round, f).matrix;
    FlatUpdate0(f.matrix, w, Unit(w, t.cells + round));
    for i := 0 to w
      invariant w <= curMatrix.Length
      invariant forall q :: 0 <= q < i ==> curMatrix[q] == m[0][q]
      invariant forall q :: i <= q < curMatrix.Length ==> curMatrix[q] == old(curMatrix[q])
      invariant curOffset[..] == f.offset
    {
      curMatrix[i] := if i == t.cells + round then 1 else 0;
    }
    curOffset[0] := 0;
  }

  method MultiplyMatrix(t: Tables, ghost f: Affine, curMatrix: array<Elem>)
    requires t.Valid() && f.Fits(t) && curMatrix[..] == Flat(f.matrix, t.Width())
    modifies curMatrix
    ensures curMatrix[..] == Flat(MultiplyMds(t, f).matrix, t.Width())
  {
    hide Flat, MultiplyMds;
    var w := t.Width();
    var oldMatrix := curMatrix[..];
    ghost var m := MultiplyMds(t, f).matrix;
    ghost var target := Flat(m, w);
    var base := 0;
    for i := 0 to t.cells
      invariant base == i * w <= curMatrix.Length
      invariant forall q :: 0 <= q < base ==> curMatrix[q] == target[q]
    {
      ghost var next := NextBase(i, t.cells, w, base);
      for j := 0 to w
        invariant forall q :: 0 <= q < base + j ==> curMatrix[q] == target[q]
      {
        var tot := MultiplyCell(t, f, oldMatrix, i, j);
        FlatAt(m, w, i, j);
        curMatrix[base + j] := tot;
      }
      base := base + w;
    }
    assert curMatrix[..] == target;
  }

  /** Entry (i, j) of the product of the MDS matrix and the flattened matrix of f. */
  method MultiplyCell(t: Tables, ghost f: Affine, oldMatrix: seq<Elem>, i: nat, j: nat) returns (tot: Elem)
    requires t.Valid() && f.Fits(t) && oldMatrix == Flat(f.matrix, t.Width()) && i < t.cells && j < t.Width()
    ensures tot == MultiplyMds(t, f).matrix[i][j]
  {
    tot := 0;
    for k := 0 to t.cells
      invariant tot == Combine(t.MdsRow(i), f.matrix, k, j) % P
    {
      CellIndex(i, k, t.cells, t.cells);
      FlatAt(f.matrix, t.Width(), k, j);
      Accumulate(Combine(t.MdsRow(i), f.matrix, k, j), t.mds[i * t.cells + k], oldMatrix[k * t.Width() + j]);
      tot := Add(tot, Mul(t.mds[i * t.cells + k], oldMatrix[k * t.Width() + j]));
    }
  }

  method MultiplyOffset(t: Tables, ghost f: Affine, curOffset: array<Elem>)
    requires t.Valid() && f.Fits(t) && curOffset[..] == f.offset
    modifies curOffset
    ensures curOffset[..] == MultiplyMds(t, f).offset
  {
    hide MultiplyMds;
    var oldOffset := curOffset[..];
    ghost var target := MultiplyMds(t, f).offset;
    for i := 0 to t.cells
      invariant forall q :: 0 <= q < i ==> curOffset[q] == target[q]
    {
      var tot := MultiplyOffsetCell(t, f, oldOffset, i);
      curOffset[i] := tot;
    }
  }

  method MultiplyOffsetCell(t: Tables, ghost f: Affine, oldOffset: seq<Elem>, i: nat) returns (tot: Elem)
    requires t.Valid() && f.Fits(t) && oldOffset == f.offset && i < t.cells
    ensures tot == MultiplyMds(t, f).offset[i]
  {
    tot := 0;
    for j := 0 to t.cells
      invariant tot == Dot(t.MdsRow(i), oldOffset, j) % P
    {
      CellIndex(i, j, t.cells, t.cells);
      Accumulate(Dot(t.MdsRow(i), oldOffset, j), t.mds[i * t.cells + j], oldOffset[j]);
      tot := Add(tot, Mul(t.mds[i * t.cells + j], oldOffset[j]));
    }
  }
}
