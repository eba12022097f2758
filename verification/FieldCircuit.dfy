/**
 * Compiling a matrix-vector product of 32-bit integers into multiply-constant-add gates over the
 * Goldilocks field, and reading the integers back.
 */
module FieldCircuit {
  import opened ModArith
  import opened LinearAlgebra
  import opened Prelude

  // The Goldilocks prime, 2^64 - 2^32 + 1.
  const P: Modulus := 0xFFFF_FFFF_0000_0001

  const TWO31 := 0x8000_0000
  const TWO32 := 0x1_0000_0000

  type Elem = x: int | 0 <= x < P
  type I32 = x: int | -0x8000_0000 <= x < 0x8000_0000
  type Target = nat

  // ---------------------------------------------------------------- integers into the field

  /** Two's complement negation: the smallest integer is its own negative. */
  function WrappingNeg(v: I32): I32 {
    if v == -TWO31 then v else -v
  }

  function AsU32(v: I32): (u: int)
    ensures 0 <= u < TWO32
  {
    if v >= 0 then v else v + TWO32
  }

  function FieldNeg(x: Elem): Elem {
    if x == 0 then 0 else P - x
  }

  function ToField(v: I32): Elem {
    if v >= 0 then AsU32(v) else FieldNeg(AsU32(WrappingNeg(v)))
  }

  /** The image of every integer, the smallest included, is its residue. */
  lemma {:induction false} ToFieldIsResidue(v: I32)
    ensures ToField(v) == v % P && Cong(P, ToField(v), v)
  {
    if v < 0 {
      CongByQuotient(P, P + v, v, 1);
      ModUnique(P, v, P + v);
    }
  }

  // ---------------------------------------------------------------- the circuit

  /** A target is the index of the gate that produces it. */
  datatype Gate = Input(index: nat) | Constant(value: Elem) | MulConstAdd(constant: Elem, x: Target, addend: Target)

  /** Gates only refer to earlier gates. */
  ghost predicate WellFormed(gates: seq<Gate>) {
    forall t :: 0 <= t < |gates| && gates[t].MulConstAdd? ==> gates[t].x < t && gates[t].addend < t
  }

  /** The value of a target once the inputs are set; unset inputs are zero. */
  ghost function Value(gates: seq<Gate>, inputs: seq<Elem>, t: Target): Elem
    requires WellFormed(gates) && t < |gates|
  {
    match gates[t]
    case Input(i) => if i < |inputs| then inputs[i] else 0
    case Constant(v) => v
    case MulConstAdd(c, x, y) => (c * Value(gates, inputs, x) + Value(gates, inputs, y)) % P
  }

  /** Adding gates does not change earlier targets. */
  lemma {:induction false} ValueOfPrefix(gates: seq<Gate>, more: seq<Gate>, inputs: seq<Elem>, t: Target)
    requires WellFormed(gates) && WellFormed(more) && gates <= more && t < |gates|
    ensures Value(more, inputs, t) == Value(gates, inputs, t)
  {
    assert more[t] == gates[t];
    if gates[t].MulConstAdd? {
      ValueOfPrefix(gates, more, inputs, gates[t].x);
      ValueOfPrefix(gates, more, inputs, gates[t].addend);
    }
  }

  ghost predicate Targets(gates: seq<Gate>, ts: seq<Target>) {
    forall i :: 0 <= i < |ts| ==> ts[i] < |gates|
  }

  ghost function Values(gates: seq<Gate>, inputs: seq<Elem>, ts: seq<Target>): (vs: seq<Elem>)
    requires WellFormed(gates) && Targets(gates, ts)
    ensures |vs| == |ts|
  {
    seq(|ts|, i requires 0 <= i < |ts| => Value(gates, inputs, ts[i]))
  }

  lemma {:induction false} ValuesOfPrefix(gates: seq<Gate>, more: seq<Gate>, inputs: seq<Elem>, ts: seq<Target>)
    requires WellFormed(gates) && WellFormed(more) && gates <= more && Targets(gates, ts)
    ensures Targets(more, ts) && Values(more, inputs, ts) == Values(gates, inputs, ts)
  {
    forall i | 0 <= i < |ts| ensures Value(more, inputs, ts[i]) == Value(gates, inputs, ts[i]) {
      ValueOfPrefix(gates, more, inputs, ts[i]);
    }
  }

  /** t computes the product of the first n coefficients and inputs, modulo P, whatever the inputs are. */
  ghost predicate Computes(gates: seq<Gate>, t: Target, coefficients: seq<int>, input: seq<Target>, n: nat)
    requires WellFormed(gates) && Targets(gates, input) && n <= |coefficients| && n <= |input|
  {
    && t < |gates|
    && forall inputs: seq<Elem> :: Value(gates, inputs, t) == Dot(coefficients, Values(gates, inputs, input), n) % P
  }

  lemma {:induction false} ComputesOfPrefix(gates: seq<Gate>, more: seq<Gate>, t: Target,
                         coefficients: seq<int>, input: seq<Target>, n: nat)
    requires WellFormed(gates) && WellFormed(more) && gates <= more && Targets(gates, input)
    requires n <= |coefficients| && n <= |input| && Computes(gates, t, coefficients, input, n)
    ensures Targets(more, input) && Computes(more, t, coefficients, input, n)
  {
    forall inputs: seq<Elem>
      ensures Value(more, inputs, t) == Dot(coefficients, Values(more, inputs, input), n) % P
    {
      ValueOfPrefix(gates, more, inputs, t);
      ValuesOfPrefix(gates, more, inputs, input);
    }
  }

  class CircuitBuilder {
    var gates: seq<Gate>

    ghost predicate Valid()
      reads this
    {
      WellFormed(gates)
    }

    constructor ()
      ensures Valid() && gates == []
    {
      gates := [];
    }

    method Add(g: Gate) returns (t: Target)
      requires Valid() && (g.MulConstAdd? ==> g.x < |gates| && g.addend < |gates|)
      modifies this
      ensures Valid() && t == |old(gates)| && gates == old(gates) + [g]
    {
      t := |gates|;
      gates := gates + [g];
    }

    method AddVirtualTargets(n: nat) returns (ts: seq<Target>)
      requires Valid()
      modifies this
      ensures Valid() && old(gates) <= gates && |ts| == n && Targets(gates, ts)
      ensures forall i :: 0 <= i < n ==> gates[ts[i]] == Input(i)
    {
      ts := [];
      for i := 0 to n
        invariant Valid() && old(gates) <= gates && |ts| == i && Targets(gates, ts)
        invariant forall q :: 0 <= q < i ==> gates[ts[q]] == Input(q)
      {
        var t := Add(Input(i));
        ts := ts + [t];
      }
    }
  }

  /** One gate extends a computed prefix of the product by one term. */
  lemma {:induction false} NextTerm(gates: seq<Gate>, sum: Target, coefficients: seq<I32>, input: seq<Target>, i: nat)
    requires WellFormed(gates) && Targets(gates, input) && i < |coefficients| && i < |input|
    requires Computes(gates, sum, coefficients, input, i)
    requires WellFormed(gates + [MulConstAdd(ToField(coefficients[i]), input[i], sum)])
    ensures var more := gates + [MulConstAdd(ToField(coefficients[i]), input[i], sum)];
            Targets(more, input) && Computes(more, |gates|, coefficients, input, i + 1)
  {
    var more := gates + [MulConstAdd(ToField(coefficients[i]), input[i], sum)];
    forall inputs: seq<Elem>
      ensures Value(more, inputs, |gates|) == Dot(coefficients, Values(more, inputs, input), i + 1) % P
    {
      ValueOfPrefix(gates, more, inputs, input[i]);
      ValueOfPrefix(gates, more, inputs, sum);
      ValuesOfPrefix(gates, more, inputs, input);
      ToFieldIsResidue(coefficients[i]);
      TermStep(Dot(coefficients, Values(gates, inputs, input), i), ToField(coefficients[i]), coefficients[i],
               Value(gates, inputs, input[i]));
    }
  }

  lemma {:induction false} TermStep(exact: int, image: Elem, c: int, x: int)
    requires Cong(P, image, c)
    ensures (image * x + exact % P) % P == (exact + c * x) % P
  {
    CongScale(P, image, c, x);
    CongMod(P, exact);
    CongAdd(P, image * x, c * x, exact % P, exact);
  }

  /** Compiles the inner product of constants and targets. */
  method CompileDot(builder: CircuitBuilder, coefficients: seq<I32>, input: seq<Target>) returns (sum: Target)
    requires builder.Valid() && |coefficients| == |input| && Targets(builder.gates, input)
    modifies builder
    ensures builder.Valid() && old(builder.gates) <= builder.gates
    ensures Targets(builder.gates, input)
    ensures Computes(builder.gates, sum, coefficients, input, |input|)
  {
    sum := builder.Add(Constant(0));
    for i := 0 to |input|
      invariant builder.Valid() && old(builder.gates) <= builder.gates && Targets(builder.gates, input)
      invariant Computes(builder.gates, sum, coefficients, input, i)
    {
      ghost var before, partial := builder.gates, sum;
      sum := builder.Add(MulConstAdd(ToField(coefficients[i]), input[i], sum));
      NextTerm(before, partial, coefficients, input, i);
    }
  }

  /** Row k of a matrix stored row after row. */
  function Chunk(coefficients: seq<I32>, width: nat, k: nat): (row: seq<I32>)
    requires 0 <= k * width && k * width + width <= |coefficients|
    ensures |row| == width
  {
    coefficients[k * width..k * width + width]
  }

  /** t computes row k of the matrix times the input. */
  ghost predicate ComputesRow(gates: seq<Gate>, t: Target, coefficients: seq<I32>, input: seq<Target>, k: nat)
    requires WellFormed(gates) && Targets(gates, input)
  {
    && 0 <= k * |input| && k * |input| + |input| <= |coefficients|
    && Computes(gates, t, Chunk(coefficients, |input|, k), input, |input|)
  }

  ghost predicate OutputsCompute(gates: seq<Gate>, outputs: seq<Target>, coefficients: seq<I32>, input: seq<Target>)
    requires WellFormed(gates) && Targets(gates, input)
  {
    forall k :: 0 <= k < |outputs| ==> ComputesRow(gates, outputs[k], coefficients, input, k)
  }

  /** Compiles a matrix-vector product, one inner product for each chunk of coefficients. */
  method CompileFull(builder: CircuitBuilder, coefficients: seq<I32>, input: seq<Target>)
    returns (outputs: seq<Target>)
    requires builder.Valid() && Targets(builder.gates, input)
    requires |input| > 0 && |coefficients| % |input| == 0
    modifies builder
    ensures builder.Valid() && old(builder.gates) <= builder.gates && Targets(builder.gates, input)
    ensures |outputs| * |input| == |coefficients|
    ensures OutputsCompute(builder.gates, outputs, coefficients, input)
  {
    var inputSize := |input|;
    var outputSize := |coefficients| / inputSize;
    outputs := [];
    for k := 0 to outputSize
      invariant builder.Valid() && old(builder.gates) <= builder.gates && Targets(builder.gates, input)
      invariant |outputs| == k && k * inputSize <= |coefficients|
      invariant OutputsCompute(builder.gates, outputs, coefficients, input)
    {
      NextRow(k, outputSize, inputSize);
      ghost var before := builder.gates;
      var output := CompileDot(builder, Chunk(coefficients, inputSize, k), input);
      ghost var earlier := outputs;
      outputs := outputs + [output];
      OutputsExtend(before, builder.gates, earlier, output, coefficients, input);
    }
  }

  lemma {:induction false} OutputsExtend(gates: seq<Gate>, more: seq<Gate>, outputs: seq<Target>, output: Target,
                      coefficients: seq<I32>, input: seq<Target>)
    requires WellFormed(gates) && WellFormed(more) && gates <= more && Targets(gates, input) && Targets(more, input)
    requires OutputsCompute(gates, outputs, coefficients, input)
    requires ComputesRow(more, output, coefficients, input, |outputs|)
    ensures OutputsCompute(more, outputs + [output], coefficients, input)
  {
    forall k | 0 <= k < |outputs| ensures ComputesRow(more, outputs[k], coefficients, input, k) {
      assert ComputesRow(gates, outputs[k], coefficients, input, k);
      ComputesOfPrefix(gates, more, outputs[k], Chunk(coefficients, |input|, k), input, |input|);
    }
  }

  // ---------------------------------------------------------------- the integers behind the outputs

  function FieldInputs(xs: seq<I32>): (fs: seq<Elem>)
    ensures |fs| == |xs|
  {
    seq(|xs|, i requires 0 <= i < |xs| => ToField(xs[i]))
  }

  /** With the inputs set to 32-bit integers, a computed target is the residue of the integer product. */
  lemma {:induction false} OutputIsResidue(
      gates: seq<Gate>, t: Target, coefficients: seq<int>, input: seq<Target>, xs: seq<I32>)
    requires WellFormed(gates) && Targets(gates, input) && |coefficients| == |input| == |xs|
    requires forall i :: 0 <= i < |input| ==> gates[input[i]] == Input(i)
    requires Computes(gates, t, coefficients, input, |input|)
    ensures Value(gates, FieldInputs(xs), t) == Dot(coefficients, xs, |xs|) % P
  {
    var vs := Values(gates, FieldInputs(xs), input);
    forall i | 0 <= i < |xs| ensures Cong(P, vs[i], xs[i]) {
      ToFieldIsResidue(xs[i]);
    }
    DotCong(P, vs, xs, coefficients, |xs|);
  }

  /** The representative of a residue nearest to zero. */
  function CentredLift(v: Elem): (y: int)
    ensures -((P - 1) / 2) <= y <= (P - 1) / 2
  {
    if v > (P - 1) / 2 then v - P else v
  }

  lemma {:induction false} LiftRecovers(y: int)
    ensures CentredLift(y % P) == y <==> -((P - 1) / 2) <= y <= (P - 1) / 2
  {
    if 0 <= y <= (P - 1) / 2 {
      ModUnique(P, y, y);
    } else if -((P - 1) / 2) <= y < 0 {
      CongByQuotient(P, y + P, y, 1);
      ModUnique(P, y, y + P);
    }
  }

  // ---------------------------------------------------------------- the quantiser and the bound

  /** The remainder of truncating division, which has the sign of the dividend. */
  function TruncatedRem(a: int, b: int): int
    requires b != 0
  {
    var m := if b < 0 then -b else b;
    if a >= 0 then a % m else -((-a) % m)
  }

  /** One shifted left in a 32-bit integer; a shift by 31 reaches the sign bit. */
  function ShiftedOne(bits: nat): (m: I32)
    requires bits <= 31
    ensures m == Power2(bits) || m == -Power2(bits)
    ensures Power2(bits) <= TWO31
  {
    ShiftFits(bits);
    if bits == 31 then -TWO31 else Power2(bits)
  }

  lemma {:induction false} ShiftFits(bits: nat)
    requires bits <= 31
    ensures Power2(bits) <= TWO31 && (bits < 31 ==> Power2(bits) < TWO31) && (bits == 31 ==> Power2(bits) == TWO31)
  {
    PowerOf31();
    PowerIncreases(bits, 31);
  }

  lemma {:induction false} PowerOf31()
    ensures Power2(31) == TWO31
  {
    assert Power2(4) == 2 * Power2(3) == 4 * Power2(2) == 16;
    PowerSum(4, 4);
    PowerSum(8, 8);
    PowerSum(16, 8);
    PowerSum(24, 4);
    PowerSum(28, 3);
    assert Power2(3) == 2 * Power2(2) == 8;
  }

  lemma {:induction false} PowerIncreases(a: nat, b: nat)
    requires a <= b
    ensures Power2(a) <= Power2(b) && (a < b ==> Power2(a) < Power2(b))
  {
    if a < b {
      PowerIncreases(a, b - 1);
    }
  }

  function Quantise(c: I32, bits: nat): int
    requires bits <= 31
  {
    TruncatedRem(c, ShiftedOne(bits))
  }

  lemma {:induction false} TruncatedRemRange(a: int, m: int)
    requires m > 0
    ensures -m < TruncatedRem(a, m) < m && TruncatedRem(a, -m) == TruncatedRem(a, m)
    ensures -m < a < m ==> TruncatedRem(a, m) == a
  {
    if 0 <= a < m {
      DivModUnique(a, m, 0, a);
    } else if -m < a < 0 {
      DivModUnique(-a, m, 0, -a);
    }
  }

  /** Quantised coefficients are exactly the integers below 2^bits in absolute value. */
  lemma {:induction false} QuantiserRange(c: I32, bits: nat)
    requires bits <= 31
    ensures -Power2(bits) < Quantise(c, bits) < Power2(bits)
    ensures -Power2(bits) < c < Power2(bits) ==> Quantise(c, bits) == c
  {
    hide TruncatedRem, ShiftedOne, Power2;
    TruncatedRemRange(c, Power2(bits));
  }

  lemma {:induction false} TruncatedRemResidue(a: int, m: int) returns (k: int)
    requires m > 0
    ensures a == k * m + TruncatedRem(a, m) && (TruncatedRem(a, m) > 0 ==> a > 0) && (TruncatedRem(a, m) < 0 ==> a < 0)
  {
    if a >= 0 {
      k := a / m;
    } else {
      var q := (-a) / m;
      k := -q;
      assert -a == q * m + (-a) % m && -q * m == -(q * m);
    }
  }

  /** Quantising keeps the residue modulo 2^bits, and the sign. */
  lemma {:induction false} QuantiserKeepsResidue(c: I32, bits: nat) returns (k: int)
    requires bits <= 31
    ensures c == k * Power2(bits) + Quantise(c, bits)
    ensures (Quantise(c, bits) > 0 ==> c > 0) && (Quantise(c, bits) < 0 ==> c < 0)
  {
    hide TruncatedRem, ShiftedOne, Power2;
    TruncatedRemRange(c, Power2(bits));
    k := TruncatedRemResidue(c, Power2(bits));
  }

  ghost predicate Quantised(cs: seq<int>, bits: nat) {
    forall i :: 0 <= i < |cs| ==> -Power2(bits) < cs[i] < Power2(bits)
  }

  lemma {:induction false} DotBound(cs: seq<int>, xs: seq<I32>, bits: nat, n: nat)
    requires n <= |cs| && n <= |xs| && Quantised(cs, bits)
    ensures -(n * ((Power2(bits) - 1) * TWO31)) <= Dot(cs, xs, n) <= n * ((Power2(bits) - 1) * TWO31)
  {
    if n > 0 {
      DotBound(cs, xs, bits, n - 1);
      TermBound(cs[n - 1], xs[n - 1], Power2(bits) - 1);
      var b := (Power2(bits) - 1) * TWO31;
      assert n * b == (n - 1) * b + b;
    }
  }

  lemma {:induction false} TermBound(c: int, x: I32, m: int)
    requires 0 <= m && -m <= c <= m
    ensures -(m * TWO31) <= c * x <= m * TWO31
  {
    var y: int := x;
    var a, b := if c >= 0 then c else -c, if y >= 0 then y else -y;
    ProductsIncrease(a, m, b, TWO31);
    SignedProduct(c, y, a, b);
  }

  lemma {:induction false} ProductsIncrease(a: nat, m: nat, b: nat, n: nat)
    requires a <= m && b <= n
    ensures 0 <= a * b <= m * n
  {
    MulNonnegative(m - a, b);
    MulNonnegative(m, n - b);
    MulNonnegative(a, b);
    assert m * n == a * b + (m - a) * b + m * (n - b);
  }

  lemma {:induction false} SignedProduct(c: int, y: int, a: int, b: int)
    requires (c == a || c == -a) && (y == b || y == -b)
    ensures c * y == a * b || c * y == -(a * b)
  {
  }

  lemma {:induction false} DotConstant(cs: seq<int>, xs: seq<int>, c: int, x: int, n: nat)
    requires n <= |cs| && n <= |xs| && forall i :: 0 <= i < n ==> cs[i] == c && xs[i] == x
    ensures Dot(cs, xs, n) == n * (c * x)
  {
    if n > 0 {
      DotConstant(cs, xs, c, x, n - 1);
      assert n * (c * x) == (n - 1) * (c * x) + c * x;
    }
  }

  /** Every product of n quantised coefficients and n inputs can be read back from its residue. */
  ghost predicate AlwaysRecovered(n: nat, bits: nat) {
    forall cs: seq<int>, xs: seq<I32> | |cs| == n && |xs| == n && Quantised(cs, bits) ::
      CentredLift(Dot(cs, xs, n) % P) == Dot(cs, xs, n)
  }

  /** The integers are always recovered exactly when the largest possible product fits half the field. */
  lemma {:induction false} RecoveredIff(n: nat, bits: nat)
    ensures AlwaysRecovered(n, bits) <==> n * ((Power2(bits) - 1) * TWO31) <= (P - 1) / 2
  {
    var b := (Power2(bits) - 1) * TWO31;
    if n * b <= (P - 1) / 2 {
      forall cs: seq<int>, xs: seq<I32> | |cs| == n && |xs| == n && Quantised(cs, bits)
        ensures CentredLift(Dot(cs, xs, n) % P) == Dot(cs, xs, n)
      {
        DotBound(cs, xs, bits, n);
        LiftRecovers(Dot(cs, xs, n));
      }
    } else {
      LargestProduct(n, bits);
    }
  }

  lemma {:induction false} LargestProduct(n: nat, bits: nat)
    requires n * ((Power2(bits) - 1) * TWO31) > (P - 1) / 2
    ensures !AlwaysRecovered(n, bits)
  {
    var cs: seq<int> := seq(n, _ => Power2(bits) - 1);
    var xs: seq<I32> := seq(n, _ => -TWO31);
    DotConstant(cs, xs, Power2(bits) - 1, -TWO31, n);
    assert n * ((Power2(bits) - 1) * -TWO31) == -(n * ((Power2(bits) - 1) * TWO31));
    LiftRecovers(Dot(cs, xs, n));
    assert Quantised(cs, bits);
  }

  /** End to end: lifting a computed output gives the signed integer product of row and input. */
  lemma {:induction false} OutputRecovered(
      gates: seq<Gate>, t: Target, coefficients: seq<int>, input: seq<Target>, xs: seq<I32>, bits: nat)
    requires WellFormed(gates) && Targets(gates, input) && |coefficients| == |input| == |xs|
    requires forall i :: 0 <= i < |input| ==> gates[input[i]] == Input(i)
    requires Computes(gates, t, coefficients, input, |input|)
    requires Quantised(coefficients, bits) && |xs| * ((Power2(bits) - 1) * TWO31) <= (P - 1) / 2
    ensures CentredLift(Value(gates, FieldInputs(xs), t)) == Dot(coefficients, xs, |xs|)
  {
    OutputIsResidue(gates, t, coefficients, input, xs);
    DotBound(coefficients, xs, bits, |xs|);
    LiftRecovers(Dot(coefficients, xs, |xs|));
  }

  // ---------------------------------------------------------------- the whole circuit

  /** A finished circuit: its gates, and its input and output targets. */
  datatype Circuit = Circuit(gates: seq<Gate>, inputs: seq<Target>, outputs: seq<Target>) {
    /** It computes the matrix whose rows follow one another in the coefficients. */
    ghost predicate IsFor(coefficients: seq<I32>, inputSize: nat, outputSize: nat) {
      && WellFormed(gates) && Targets(gates, inputs) && |inputs| == inputSize && |outputs| == outputSize
      && (forall i :: 0 <= i < inputSize ==> gates[inputs[i]] == Input(i))
      && OutputsCompute(gates, outputs, coefficients, inputs)
    }

    /** The outputs for an input of integers, lifted back to integers. */
    ghost function Lifted(xs: seq<I32>): (ys: seq<int>)
      requires WellFormed(gates) && Targets(gates, outputs)
      ensures |ys| == |outputs|
    {
      seq(|outputs|, k requires 0 <= k < |outputs| => CentredLift(Value(gates, FieldInputs(xs), outputs[k])))
    }
  }

  /** Inputs, then one inner product for each row. */
  method Build(inputSize: nat, outputSize: nat, coefficients: seq<I32>) returns (circuit: Circuit)
    requires |coefficients| == inputSize * outputSize && inputSize > 0
    ensures circuit.IsFor(coefficients, inputSize, outputSize)
  {
    DivModUnique(|coefficients|, inputSize, outputSize, 0);
    var builder := new CircuitBuilder();
    var inputs := builder.AddVirtualTargets(inputSize);
    var outputs := CompileFull(builder, coefficients, inputs);
    SameRows(|outputs|, outputSize, inputSize);
    circuit := Circuit(builder.gates, inputs, outputs);
  }

  lemma {:induction false} SameRows(a: nat, b: nat, n: nat)
    requires a * n == n * b && n > 0
    ensures a == b
  {
    DivModUnique(a * n, n, a, 0);
    DivModUnique(a * n, n, b, 0);
  }

  /** For quantised coefficients within the bound, the lifted outputs are the signed matrix-vector product. */
  lemma {:induction false} CircuitIsProduct(
      circuit: Circuit, coefficients: seq<I32>, inputSize: nat, outputSize: nat, bits: nat, xs: seq<I32>)
    requires circuit.IsFor(coefficients, inputSize, outputSize) && |xs| == inputSize
    requires Quantised(coefficients, bits) && inputSize * ((Power2(bits) - 1) * TWO31) <= (P - 1) / 2
    ensures Targets(circuit.gates, circuit.outputs)
    ensures forall k :: 0 <= k < outputSize ==>
              && 0 <= k * inputSize && k * inputSize + inputSize <= |coefficients|
              && circuit.Lifted(xs)[k] == Dot(coefficients[k * inputSize..k * inputSize + inputSize], xs, inputSize)
  {
    hide Computes, CentredLift, Power2;
    forall k | 0 <= k < outputSize
      ensures circuit.outputs[k] < |circuit.gates|
      ensures 0 <= k * inputSize && k * inputSize + inputSize <= |coefficients|
      ensures CentredLift(Value(circuit.gates, FieldInputs(xs), circuit.outputs[k]))
           == Dot(Chunk(coefficients, inputSize, k), xs, inputSize)
    {
      assert ComputesRow(circuit.gates, circuit.outputs[k], coefficients, circuit.inputs, k);
      ComputedTarget(circuit.gates, circuit.outputs[k], Chunk(coefficients, inputSize, k), circuit.inputs);
      OutputRecovered(circuit.gates, circuit.outputs[k], Chunk(coefficients, inputSize, k), circuit.inputs, xs, bits);
    }
  }

  lemma {:induction false} ComputedTarget(gates: seq<Gate>, t: Target, coefficients: seq<int>, input: seq<Target>)
    requires WellFormed(gates) && Targets(gates, input) && |coefficients| == |input|
    requires Computes(gates, t, coefficients, input, |input|)
    ensures t < |gates|
  {
  }
}
