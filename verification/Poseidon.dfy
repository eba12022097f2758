/** The partial rounds of the Poseidon permutation, and their compressed form: one matrix and one offset vector. */
module Poseidon {
  import opened ModArith
  import opened LinearAlgebra

  // The Baby Bear prime, 15 * 2^27 + 1.
  const P: Modulus := 2013265921

  type Elem = x: int | 0 <= x < P
  type State = seq<Elem>
  type ElemMatrix = seq<seq<Elem>>

  /** The tables one permutation is given: CELLS is 24 in the program and any positive number here. */
  datatype Tables = Tables(
    cells: nat, roundsHalfFull: nat, roundsPartial: nat, roundConstants: seq<Elem>, mds: seq<Elem>)
  {
    ghost predicate Valid() {
      && cells > 0
      && |mds| == cells * cells
      && |roundConstants| >= (roundsHalfFull + roundsPartial) * cells
    }

    function Width(): nat {
      cells + roundsPartial
    }

    /** The constant added to cell i in a partial round. */
    function RoundConstant(round: nat, i: nat): Elem
      requires Valid() && round < roundsPartial && i < cells
    {
      CellIndex(roundsHalfFull + round, i, roundsHalfFull + roundsPartial, cells);
      roundConstants[(roundsHalfFull + round) * cells + i]
    }

    /** Row i of the MDS matrix, which is stored flattened. */
    function MdsRow(i: nat): (row: seq<Elem>)
      requires Valid() && i < cells
      ensures |row| == cells
    {
      seq(cells, k requires 0 <= k < cells => CellIndex(i, k, cells, cells); mds[i * cells + k])
    }
  }

  // ---------------------------------------------------------------- the rounds themselves

  function WithConstants(t: Tables, round: nat, s: State): (s': State)
    requires t.Valid() && round < t.roundsPartial && |s| == t.cells
    ensures |s'| == t.cells
  {
    seq(t.cells, i requires 0 <= i < t.cells => (s[i] + t.RoundConstant(round, i)) % P)
  }

  function MdsProduct(t: Tables, s: State): (s': State)
    requires t.Valid() && |s| == t.cells
    ensures |s'| == t.cells
  {
    seq(t.cells, i requires 0 <= i < t.cells => Dot(t.MdsRow(i), s, t.cells) % P)
  }

  /** One partial round: add constants, S-box on cell 0, multiply by the MDS matrix. */
  function PartialRound(t: Tables, round: nat, s: State, sbox: Elem -> Elem): (s': State)
    requires t.Valid() && round < t.roundsPartial && |s| == t.cells
    ensures |s'| == t.cells
  {
    var added := WithConstants(t, round, s);
    MdsProduct(t, added[0 := sbox(added[0])])
  }

  function PartialRounds(t: Tables, x: State, sbox: Elem -> Elem, rounds: nat): (s: State)
    requires t.Valid() && rounds <= t.roundsPartial && |x| == t.cells
    ensures |s| == t.cells
  {
    if rounds == 0 then x
    else PartialRound(t, rounds - 1, PartialRounds(t, x, sbox, rounds - 1), sbox)
  }

  // ---------------------------------------------------------------- the compressed form

  /** Each of the cells as an affine function of the inputs and the S-box outputs so far. */
  datatype Affine = Affine(matrix: ElemMatrix, offset: seq<Elem>) {
    ghost predicate Fits(t: Tables) {
      Shaped(matrix, t.cells, t.Width()) && |offset| == t.cells
    }
  }

  function IdentityForm(t: Tables): (f: Affine)
    ensures f.Fits(t)
  {
    Affine(seq(t.cells, i requires 0 <= i < t.cells => Unit(t.Width(), i)),
           seq(t.cells, i requires 0 <= i < t.cells => 0))
  }

  function AddConstants(t: Tables, round: nat, f: Affine): (f': Affine)
    requires t.Valid() && round < t.roundsPartial && f.Fits(t)
    ensures f'.Fits(t)
  {
    f.(offset := seq(t.cells, i requires 0 <= i < t.cells => (f.offset[i] + t.RoundConstant(round, i)) % P))
  }

  /** Cell 0 becomes the fresh S-box output, column cells + round. */
  function ReplaceCell0(t: Tables, round: nat, f: Affine): (f': Affine)
    requires t.Valid() && round < t.roundsPartial && f.Fits(t)
    ensures f'.Fits(t)
  {
    Affine(f.matrix[0 := Unit(t.Width(), t.cells + round)], f.offset[0 := 0])
  }

  function MdsEntry(t: Tables, f: Affine, i: nat, j: nat): Elem
    requires t.Valid() && f.Fits(t) && i < t.cells && j < t.Width()
  {
    Combine(t.MdsRow(i), f.matrix, t.cells, j) % P
  }

  function MultiplyMds(t: Tables, f: Affine): (f': Affine)
    requires t.Valid() && f.Fits(t)
    ensures f'.Fits(t)
  {
    Affine(seq(t.cells, i requires 0 <= i < t.cells =>
             seq(t.Width(), j requires 0 <= j < t.Width() => MdsEntry(t, f, i, j))),
           seq(t.cells, i requires 0 <= i < t.cells => Dot(t.MdsRow(i), f.offset, t.cells) % P))
  }

  function FormAfter(t: Tables, rounds: nat): (f: Affine)
    requires t.Valid() && rounds <= t.roundsPartial
    ensures f.Fits(t)
  {
    if rounds == 0 then IdentityForm(t)
    else MultiplyMds(t, ReplaceCell0(t, rounds - 1, AddConstants(t, rounds - 1, FormAfter(t, rounds - 1))))
  }

  /** The S-box row of a round: the form of cell 0 once the constants are in. */
  function SboxForm(t: Tables, round: nat): (f: Affine)
    requires t.Valid() && round < t.roundsPartial
    ensures f.Fits(t)
  {
    AddConstants(t, round, FormAfter(t, round))
  }

  function CompressedRow(t: Tables, i: nat): (row: seq<Elem>)
    requires t.Valid() && i < t.Width()
    ensures |row| == t.Width()
  {
    if i < t.cells then FormAfter(t, t.roundsPartial).matrix[i] else SboxForm(t, i - t.cells).matrix[0]
  }

  function CompressedOffset(t: Tables, i: nat): Elem
    requires t.Valid() && i < t.Width()
  {
    if i < t.cells then FormAfter(t, t.roundsPartial).offset[i] else SboxForm(t, i - t.cells).offset[0]
  }

  /** Rows 0..cells give the final state, row cells + r the input of the S-box of round r. */
  function Compressed(t: Tables): (f: Affine)
    requires t.Valid()
    ensures Shaped(f.matrix, t.Width(), t.Width()) && |f.offset| == t.Width()
  {
    Affine(seq(t.Width(), i requires 0 <= i < t.Width() => CompressedRow(t, i)),
           seq(t.Width(), i requires 0 <= i < t.Width() => CompressedOffset(t, i)))
  }

  lemma {:induction false} CompressedAt(t: Tables, i: nat)
    requires t.Valid() && i < t.Width()
    ensures Compressed(t).matrix[i] == CompressedRow(t, i) && Compressed(t).offset[i] == CompressedOffset(t, i)
  {
  }

  // ---------------------------------------------------------------- running the compressed form

  /** An affine form with n coefficients, evaluated in the field. */
  function Evaluate(row: seq<Elem>, offset: Elem, v: seq<Elem>, n: nat): Elem
    requires n <= |row| && n <= |v|
  {
    (Dot(row, v, n) + offset) % P
  }

  /** The input cells followed by the outputs of the first `rounds` S-boxes, as f computes them. */
  function SboxOutputs(t: Tables, f: Affine, x: State, sbox: Elem -> Elem, rounds: nat): (v: seq<Elem>)
    requires Shaped(f.matrix, t.Width(), t.Width()) && |f.offset| == t.Width()
    requires rounds <= t.roundsPartial && |x| == t.cells
    ensures |v| == t.cells + rounds && v[..t.cells] == x
  {
    if rounds == 0 then x
    else
      var v := SboxOutputs(t, f, x, sbox, rounds - 1);
      var row := t.cells + rounds - 1;
      v + [sbox(Evaluate(f.matrix[row], f.offset[row], v, row))]
  }

  /** All partial rounds at once: one S-box chain, then one matrix-vector product. */
  function CompressedRounds(t: Tables, f: Affine, x: State, sbox: Elem -> Elem): (s: State)
    requires Shaped(f.matrix, t.Width(), t.Width()) && |f.offset| == t.Width()
    requires |x| == t.cells
    ensures |s| == t.cells
  {
    var v := SboxOutputs(t, f, x, sbox, t.roundsPartial);
    seq(t.cells, i requires 0 <= i < t.cells => Evaluate(f.matrix[i], f.offset[i], v, t.Width()))
  }

  // ---------------------------------------------------------------- refinement

  /** f, evaluated at v, is the state s. */
  ghost predicate Denotes(t: Tables, f: Affine, v: seq<Elem>, s: State)
    requires f.Fits(t) && |v| == t.Width() && |s| == t.cells
  {
    forall i :: 0 <= i < t.cells ==> Evaluate(f.matrix[i], f.offset[i], v, t.Width()) == s[i]
  }

  lemma {:induction false} IdentityDenotes(t: Tables, v: seq<Elem>)
    requires t.Valid() && |v| == t.Width()
    ensures Denotes(t, IdentityForm(t), v, v[..t.cells])
  {
    forall i | 0 <= i < t.cells
      ensures Evaluate(IdentityForm(t).matrix[i], 0, v, t.Width()) == v[i]
    {
      DotUnit(IdentityForm(t).matrix[i], v, t.Width(), i);
    }
  }

  lemma {:induction false} EvaluateShifted(row: seq<Elem>, o: Elem, v: seq<Elem>, n: nat, c: Elem)
    requires n <= |row| && n <= |v|
    ensures Evaluate(row, (o + c) % P, v, n) == (Evaluate(row, o, v, n) + c) % P
  {
    var d := Dot(row, v, n);
    CongMod(P, o + c);
    CongMod(P, d + o);
    CongAdd(P, d, d, (o + c) % P, o + c);
    CongAdd(P, (d + o) % P, d + o, c, c);
  }

  lemma {:induction false} AddConstantsDenotes(t: Tables, round: nat, f: Affine, v: seq<Elem>, s: State)
    requires t.Valid() && round < t.roundsPartial && f.Fits(t) && |v| == t.Width() && |s| == t.cells
    requires Denotes(t, f, v, s)
    ensures Denotes(t, AddConstants(t, round, f), v, WithConstants(t, round, s))
  {
    hide Evaluate;
    forall i | 0 <= i < t.cells
      ensures Evaluate(f.matrix[i], AddConstants(t, round, f).offset[i], v, t.Width())
           == WithConstants(t, round, s)[i]
    {
      EvaluateShifted(f.matrix[i], f.offset[i], v, t.Width(), t.RoundConstant(round, i));
    }
  }

  lemma {:induction false} EvaluateCong(row: seq<Elem>, o: Elem, v: seq<Elem>, n: nat)
    requires n <= |row| && n <= |v|
    ensures Cong(P, Dot(row, v, n) + o, Evaluate(row, o, v, n))
  {
    CongMod(P, Dot(row, v, n) + o);
  }

  lemma {:induction false} MultiplyDenotesCell(t: Tables, f: Affine, v: seq<Elem>, s: State, i: nat)
    requires t.Valid() && f.Fits(t) && |v| == t.Width() && |s| == t.cells && i < t.cells
    requires Denotes(t, f, v, s)
    ensures Evaluate(MultiplyMds(t, f).matrix[i], MultiplyMds(t, f).offset[i], v, t.Width()) == MdsProduct(t, s)[i]
  {
    var row, f' := t.MdsRow(i), MultiplyMds(t, f);
    forall j | 0 <= j < t.Width()
      ensures Cong(P, f'.matrix[i][j], Combine(row, f.matrix, t.cells, j))
    {
      CongMod(P, Combine(row, f.matrix, t.cells, j));
    }
    forall k | 0 <= k < t.cells
      ensures Cong(P, MatVec(f.matrix, v, t.Width())[k] + f.offset[k], s[k])
    {
      EvaluateCong(f.matrix[k], f.offset[k], v, t.Width());
    }
    CongMod(P, Dot(row, f.offset, t.cells));
    WeightedAffine(P, row, f.matrix, f.offset, v, s, t.cells, t.Width(), f'.matrix[i], f'.offset[i]);
  }

  lemma {:induction false} MultiplyDenotes(t: Tables, f: Affine, v: seq<Elem>, s: State)
    requires t.Valid() && f.Fits(t) && |v| == t.Width() && |s| == t.cells
    requires Denotes(t, f, v, s)
    ensures Denotes(t, MultiplyMds(t, f), v, MdsProduct(t, s))
  {
    hide Evaluate, MdsProduct;
    forall i | 0 <= i < t.cells
      ensures Evaluate(MultiplyMds(t, f).matrix[i], MultiplyMds(t, f).offset[i], v, t.Width()) == MdsProduct(t, s)[i]
    {
      MultiplyDenotesCell(t, f, v, s, i);
    }
  }

  lemma {:induction false} ReplaceCell0Denotes(t: Tables, round: nat, f: Affine, v: seq<Elem>, s: State)
    requires t.Valid() && round < t.roundsPartial && f.Fits(t) && |v| == t.Width() && |s| == t.cells
    requires Denotes(t, f, v, s)
    ensures Denotes(t, ReplaceCell0(t, round, f), v, s[0 := v[t.cells + round]])
  {
    var h := ReplaceCell0(t, round, f);
    DotUnit(h.matrix[0], v, t.Width(), t.cells + round);
    assert Evaluate(h.matrix[0], h.offset[0], v, t.Width()) == v[t.cells + round];
    assert forall i :: 0 < i < t.cells ==> h.matrix[i] == f.matrix[i] && h.offset[i] == f.offset[i];
  }

  /** One symbolic round follows one partial round, given that v holds the S-box output. */
  lemma {:induction false} RoundDenotes(t: Tables, round: nat, f: Affine, v: seq<Elem>, s: State, sbox: Elem -> Elem)
    requires t.Valid() && round < t.roundsPartial && f.Fits(t) && |v| == t.Width() && |s| == t.cells
    requires Denotes(t, f, v, s)
    requires v[t.cells + round] == sbox(WithConstants(t, round, s)[0])
    ensures Denotes(t, MultiplyMds(t, ReplaceCell0(t, round, AddConstants(t, round, f))), v,
                    PartialRound(t, round, s, sbox))
  {
    var added := WithConstants(t, round, s);
    AddConstantsDenotes(t, round, f, v, s);
    ReplaceCell0Denotes(t, round, AddConstants(t, round, f), v, added);
    MultiplyDenotes(t, ReplaceCell0(t, round, AddConstants(t, round, f)), v, added[0 := sbox(added[0])]);
  }

  /** No row depends on an S-box output that is not known yet. */
  lemma {:induction false} FormIsCausal(t: Tables, rounds: nat, i: nat, j: nat)
    requires t.Valid() && rounds <= t.roundsPartial && i < t.cells && t.cells + rounds <= j < t.Width()
    ensures FormAfter(t, rounds).matrix[i][j] == 0
  {
    if rounds > 0 {
      var f := FormAfter(t, rounds - 1);
      var g := ReplaceCell0(t, rounds - 1, AddConstants(t, rounds - 1, f));
      forall k | 0 <= k < t.cells ensures g.matrix[k][j] == 0 {
        if k > 0 {
          FormIsCausal(t, rounds - 1, k, j);
        }
      }
      CombineZero(t.MdsRow(i), g.matrix, t.cells, j);
    }
  }

  lemma {:induction false} CombineZero(w: seq<int>, m: Matrix, n: nat, j: nat)
    requires n <= |w| && n <= |m| && forall k :: 0 <= k < n ==> j < |m[k]|
    requires forall k :: 0 <= k < n ==> m[k][j] == 0
    ensures Combine(w, m, n, j) == 0
  {
    if n > 0 {
      CombineZero(w, m, n - 1, j);
    }
  }

  /** S-box row r of the compressed matrix is zero from column cells + r on. */
  lemma {:induction false} SboxRowsAreCausal(t: Tables, round: nat, j: nat)
    requires t.Valid() && round < t.roundsPartial && t.cells + round <= j < t.Width()
    ensures Compressed(t).matrix[t.cells + round][j] == 0
  {
    FormIsCausal(t, round, 0, j);
    assert Compressed(t).matrix[t.cells + round] == CompressedRow(t, t.cells + round);
  }

  /** A later S-box chain extends an earlier one. */
  lemma {:induction false} SboxOutputsExtend(
      t: Tables, f: Affine, x: State, sbox: Elem -> Elem, rounds: nat, more: nat)
    requires Shaped(f.matrix, t.Width(), t.Width()) && |f.offset| == t.Width()
    requires rounds <= more <= t.roundsPartial && |x| == t.cells
    ensures SboxOutputs(t, f, x, sbox, more)[..t.cells + rounds] == SboxOutputs(t, f, x, sbox, rounds)
  {
    if rounds < more {
      SboxOutputsExtend(t, f, x, sbox, rounds, more - 1);
    }
  }

  /**
   * v starts with the inputs and every later entry is the S-box of its own row of the compressed
   * matrix, applied to the entries before it.
   */
  ghost predicate IsChain(t: Tables, v: seq<Elem>, sbox: Elem -> Elem)
    requires t.Valid()
  {
    && |v| == t.Width()
    && forall row :: t.cells <= row < t.Width() ==>
         v[row] == sbox(Evaluate(CompressedRow(t, row), CompressedOffset(t, row), v, row))
  }

  lemma {:induction false} SboxOutputsFormChain(t: Tables, x: State, sbox: Elem -> Elem)
    requires t.Valid() && |x| == t.cells
    ensures IsChain(t, SboxOutputs(t, Compressed(t), x, sbox, t.roundsPartial), sbox)
  {
    hide Evaluate, CompressedRow, CompressedOffset;
    var f := Compressed(t);
    var all := SboxOutputs(t, f, x, sbox, t.roundsPartial);
    forall row | t.cells <= row < t.Width()
      ensures all[row] == sbox(Evaluate(CompressedRow(t, row), CompressedOffset(t, row), all, row))
    {
      SboxOutputAt(t, f, x, sbox, row - t.cells);
    }
  }

  /** Every S-box output in the full chain is the S-box of its row, evaluated at that chain. */
  lemma {:induction false} SboxOutputAt(t: Tables, f: Affine, x: State, sbox: Elem -> Elem, round: nat)
    requires Shaped(f.matrix, t.Width(), t.Width()) && |f.offset| == t.Width()
    requires round < t.roundsPartial && |x| == t.cells
    ensures var row := t.cells + round;
            var all := SboxOutputs(t, f, x, sbox, t.roundsPartial);
            all[row] == sbox(Evaluate(f.matrix[row], f.offset[row], all, row))
  {
    var row := t.cells + round;
    var all, v := SboxOutputs(t, f, x, sbox, t.roundsPartial), SboxOutputs(t, f, x, sbox, round);
    SboxOutputsExtend(t, f, x, sbox, round, t.roundsPartial);
    SboxOutputsExtend(t, f, x, sbox, round + 1, t.roundsPartial);
    assert all[row] == SboxOutputs(t, f, x, sbox, round + 1)[row];
    DotPrefix(f.matrix[row], all, f.matrix[row], v, row);
  }

  /** The S-box input computed from a row of the compressed matrix is the one of the round. */
  lemma {:induction false} SboxRowDenotes(t: Tables, v: seq<Elem>, s: State, round: nat)
    requires t.Valid() && round < t.roundsPartial && |v| == t.Width() && |s| == t.cells
    requires Denotes(t, FormAfter(t, round), v, s)
    ensures var row := t.cells + round;
            Evaluate(CompressedRow(t, row), CompressedOffset(t, row), v, row) == WithConstants(t, round, s)[0]
  {
    var row := t.cells + round;
    AddConstantsDenotes(t, round, FormAfter(t, round), v, s);
    assert CompressedRow(t, row) == SboxForm(t, round).matrix[0];
    forall j | row <= j < t.Width() ensures CompressedRow(t, row)[j] == 0 {
      FormIsCausal(t, round, 0, j);
    }
    DotTail(CompressedRow(t, row), v, row, t.Width());
  }

  /** After r rounds the symbolic form, evaluated at the S-box chain, is the real state. */
  lemma {:induction false} FormFollowsRounds(t: Tables, v: seq<Elem>, sbox: Elem -> Elem, rounds: nat)
    requires t.Valid() && rounds <= t.roundsPartial && IsChain(t, v, sbox)
    ensures Denotes(t, FormAfter(t, rounds), v, PartialRounds(t, v[..t.cells], sbox, rounds))
  {
    hide PartialRound, MultiplyMds, ReplaceCell0, AddConstants, Denotes, Evaluate, CompressedRow, CompressedOffset,
         WithConstants;
    if rounds == 0 {
      IdentityDenotes(t, v);
    } else {
      var round := rounds - 1;
      var s := PartialRounds(t, v[..t.cells], sbox, round);
      FormFollowsRounds(t, v, sbox, round);
      SboxRowDenotes(t, v, s, round);
      var row := t.cells + round;
      assert v[row] == sbox(Evaluate(CompressedRow(t, row), CompressedOffset(t, row), v, row));
      RoundDenotes(t, round, FormAfter(t, round), v, s, sbox);
    }
  }

  /** The compressed matrix and offset compute exactly the partial rounds. */
  lemma {:induction false} CompressionRefinesRounds(t: Tables, x: State, sbox: Elem -> Elem)
    requires t.Valid() && |x| == t.cells
    ensures CompressedRounds(t, Compressed(t), x, sbox) == PartialRounds(t, x, sbox, t.roundsPartial)
  {
    hide Evaluate, SboxOutputs, CompressedRow, CompressedOffset, PartialRounds, IsChain;
    var c := Compressed(t);
    var v := SboxOutputs(t, c, x, sbox, t.roundsPartial);
    SboxOutputsFormChain(t, x, sbox);
    FormFollowsRounds(t, v, sbox, t.roundsPartial);
    forall i | 0 <= i < t.cells
      ensures CompressedRounds(t, c, x, sbox)[i] == PartialRounds(t, x, sbox, t.roundsPartial)[i]
    {
      FinalRow(t, i);
    }
  }

  lemma {:induction false} FinalRow(t: Tables, i: nat)
    requires t.Valid() && i < t.cells
    ensures var f := FormAfter(t, t.roundsPartial);
            CompressedRow(t, i) == f.matrix[i] && CompressedOffset(t, i) == f.offset[i]
  {
  }
}
