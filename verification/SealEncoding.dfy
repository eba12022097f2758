/** How digests become circuit inputs: bits, most significant first, and 128-bit limbs in decimal. */
module SealEncoding {
  import opened LinearAlgebra
  import opened Numerals
  import opened Prelude

  type Byte = x: int | 0 <= x < 256
  type Bit = x: int | 0 <= x < 2

  // ---------------------------------------------------------------- bytes as numbers

  function Power256(n: nat): (r: int)
    ensures r > 0
  {
    if n == 0 then 1 else 256 * Power256(n - 1)
  }

  function LittleEndian(bs: seq<Byte>): nat {
    if bs == [] then 0 else bs[0] + 256 * LittleEndian(bs[1..])
  }

  function BigEndian(bs: seq<Byte>): nat {
    if bs == [] then 0 else 256 * BigEndian(bs[..|bs| - 1]) + bs[|bs| - 1]
  }

  lemma {:induction false} BigEndianOfReversed(bs: seq<Byte>)
    ensures BigEndian(Reversed(bs)) == LittleEndian(bs)
  {
    if bs != [] {
      BigEndianOfReversed(bs[1..]);
      assert Reversed(bs)[..|bs| - 1] == Reversed(bs[1..]);
    }
  }

  lemma {:induction false} BigEndianConcat(a: seq<Byte>, b: seq<Byte>)
    ensures BigEndian(a + b) == BigEndian(a) * Power256(|b|) + BigEndian(b)
  {
    if b == [] {
      assert a + b == a;
    } else {
      var n := |b| - 1;
      assert (a + b)[..|a + b| - 1] == a + b[..n];
      BigEndianConcat(a, b[..n]);
      BigStep(BigEndian(a), Power256(n), BigEndian(b[..n]));
    }
  }

  lemma BigStep(x: int, w: int, low: int)
    ensures 256 * (x * w + low) == x * (256 * w) + 256 * low
  {
  }

  lemma {:induction false} LittleEndianConcat(a: seq<Byte>, b: seq<Byte>)
    ensures LittleEndian(a + b) == LittleEndian(a) + Power256(|a|) * LittleEndian(b)
  {
    if a == [] {
      assert a + b == b;
    } else {
      LittleEndianConcat(a[1..], b);
      assert (a + b)[1..] == a[1..] + b;
      LittleStep(LittleEndian(a[1..]), Power256(|a| - 1), LittleEndian(b));
    }
  }

  lemma LittleStep(low: int, w: int, y: int)
    ensures 256 * (low + w * y) == 256 * low + (256 * w) * y
  {
  }

  lemma {:induction false} LittleEndianBound(bs: seq<Byte>)
    ensures LittleEndian(bs) < Power256(|bs|)
  {
    if bs != [] {
      LittleEndianBound(bs[1..]);
    }
  }

  // ---------------------------------------------------------------- bits, most significant first

  /** (number >> k) & 1 */
  function BitAt(b: nat, k: nat): Bit {
    b / Power2(k) % 2
  }

  /** The low n bits of a number. */
  function Bits(b: nat, n: nat): (bits: seq<Bit>)
    ensures |bits| == n
  {
    seq(n, i requires 0 <= i < n => BitAt(b, n - 1 - i))
  }

  function BitsValue(bits: seq<Bit>): nat {
    if bits == [] then 0 else 2 * BitsValue(bits[..|bits| - 1]) + bits[|bits| - 1]
  }

  lemma DivideTwice(b: nat, d: nat)
    requires d > 0
    ensures b / 2 / d == b / (2 * d)
  {
    var q, r := b / (2 * d), b % (2 * d);
    assert b == 2 * (q * d) + r by {
      assert q * (2 * d) == 2 * (q * d);
    }
    DivModUnique(b / 2, d, q, b / 2 - q * d);
  }

  lemma BitOfHalf(b: nat, k: nat)
    ensures BitAt(b, k + 1) == BitAt(b / 2, k)
  {
    DivideTwice(b, Power2(k));
  }

  lemma BitsSnoc(b: nat, n: nat)
    requires n > 0
    ensures Bits(b, n) == Bits(b / 2, n - 1) + [b % 2]
  {
    var half := Bits(b / 2, n - 1);
    forall i | 0 <= i < n - 1 ensures Bits(b, n)[i] == half[i] {
      BitOfHalf(b, n - 2 - i);
    }
    assert Bits(b, n)[n - 1] == BitAt(b, 0) == b % 2;
  }

  lemma {:induction false} ValueOfBits(b: nat, n: nat)
    requires b < Power2(n)
    ensures BitsValue(Bits(b, n)) == b
  {
    if n > 0 {
      BitsSnoc(b, n);
      ValueOfBits(b / 2, n - 1);
    }
  }

  lemma {:induction false} BitsOfValue(bits: seq<Bit>)
    ensures BitsValue(bits) < Power2(|bits|) && Bits(BitsValue(bits), |bits|) == bits
  {
    if bits != [] {
      BitsOfValue(bits[..|bits| - 1]);
      BitsSnoc(BitsValue(bits), |bits|);
    }
  }

  lemma PowerOf8()
    ensures Power2(6) == 64 && Power2(7) == 128 && Power2(8) == 256
  {
    assert Power2(3) == 2 * Power2(2) == 8;
    assert Power2(6) == 2 * Power2(5) == 4 * Power2(4) == 8 * Power2(3);
  }

  /** The bits of a byte, most significant first. */
  function ByteBits(b: Byte): (bits: seq<Bit>)
    ensures |bits| == 8
  {
    seq(8, i requires 0 <= i < 8 => BitAt(b, 7 - i))
  }

  function DigestBits(bytes: seq<Byte>): (bits: seq<Bit>)
    ensures |bits| == 8 * |bytes|
  {
    if bytes == [] then [] else ByteBits(bytes[0]) + DigestBits(bytes[1..])
  }

  /** Bit 8n + i of a digest is bit 7 - i of byte n. */
  lemma {:induction false} DigestBitAt(bytes: seq<Byte>, n: nat, i: nat)
    requires n < |bytes| && i < 8
    ensures DigestBits(bytes)[8 * n + i] == bytes[n] / Power2(7 - i) % 2
  {
    if n > 0 {
      DigestBitAt(bytes[1..], n - 1, i);
    }
  }

  /** The nested loops that push the bits of the journal. */
  method JournalBits(bytes: seq<Byte>) returns (bits: seq<Bit>)
    ensures bits == DigestBits(bytes)
  {
    bits := [];
    for n := 0 to |bytes|
      invariant bits == DigestBits(bytes[..n])
    {
      ghost var before := bits;
      for i := 0 to 8
        invariant bits == before + ByteBits(bytes[n])[..i]
      {
        bits := bits + [BitAt(bytes[n], 7 - i)];
      }
      assert bytes[..n + 1] == bytes[..n] + [bytes[n]];
      DigestBitsConcat(bytes[..n], [bytes[n]]);
      assert [bytes[n]][1..] == [];
    }
    assert bytes[..|bytes|] == bytes;
  }

  lemma {:induction false} DigestBitsConcat(a: seq<Byte>, b: seq<Byte>)
    ensures DigestBits(a + b) == DigestBits(a) + DigestBits(b)
  {
    if a == [] {
      assert a + b == b;
    } else {
      DigestBitsConcat(a[1..], b);
      assert (a + b)[1..] == a[1..] + b;
    }
  }

  function ByteOfBits(bits: seq<Bit>): Byte
    requires |bits| == 8
  {
    PowerOf8();
    BitsOfValue(bits);
    BitsValue(bits)
  }

  function BytesOfBits(bits: seq<Bit>): (bytes: seq<Byte>)
    requires |bits| % 8 == 0
    ensures |bytes| == |bits| / 8
  {
    if bits == [] then [] else [ByteOfBits(bits[..8])] + BytesOfBits(bits[8..])
  }

  lemma ByteRoundTrip(b: Byte)
    ensures ByteOfBits(ByteBits(b)) == b
  {
    PowerOf8();
    ValueOfBits(b, 8);
    assert ByteBits(b) == Bits(b, 8);
  }

  lemma TopTwoBits(b: Byte)
    ensures ByteBits(b)[0] == 0 && ByteBits(b)[1] == 0 <==> b < 64
  {
    PowerOf8();
    assert ByteBits(b)[0] == BitAt(b, 7) == b / 128 % 2;
    assert ByteBits(b)[1] == BitAt(b, 6) == b / 64 % 2;
  }

  /** The bits of a digest determine it. */
  lemma {:induction false} DigestRoundTrip(bytes: seq<Byte>)
    ensures BytesOfBits(DigestBits(bytes)) == bytes
  {
    if bytes != [] {
      var bits := DigestBits(bytes);
      ByteRoundTrip(bytes[0]);
      DigestRoundTrip(bytes[1..]);
      assert bits[..8] == ByteBits(bytes[0]) && bits[8..] == DigestBits(bytes[1..]);
    }
  }

  // ---------------------------------------------------------------- the control id, in 254 bits

  function Remove<T>(s: seq<T>, i: nat): seq<T>
    requires i < |s|
  {
    s[..i] + s[i + 1..]
  }

  /** The bits of the control id with two removals at index 248. */
  method ControlIdBits(id: seq<Byte>) returns (bits: seq<Bit>)
    requires |id| == 32
    ensures bits == DigestBits(id)[..248] + DigestBits(id)[250..]
  {
    bits := DigestBits(id);
    bits := Remove(bits, 248);
    bits := Remove(bits, 248);
  }

  function KeptBits(id: seq<Byte>): (bits: seq<Bit>)
    requires |id| == 32
    ensures |bits| == 254
  {
    DigestBits(id)[..248] + DigestBits(id)[250..]
  }

  /** The control id read back from the 254 bits, with zeros in the places of the removed ones. */
  function IdOfBits(bits: seq<Bit>): (id: seq<Byte>)
    requires |bits| == 254
    ensures |id| == 32
  {
    BytesOfBits(bits[..248] + [0, 0] + bits[248..])
  }

  lemma TopByte(id: seq<Byte>)
    requires |id| == 32
    ensures LittleEndian(id) < 64 * Power256(31) <==> id[31] < 64
  {
    var low := id[..31];
    assert id == low + [id[31]];
    LittleEndianConcat(low, [id[31]]);
    assert [id[31]][1..] == [];
    assert LittleEndian([id[31]]) == id[31];
    LittleEndianBound(low);
    var w, b: nat := Power256(31), id[31];
    TopDigit(LittleEndian(low), w, b, 64);
  }

  lemma TopDigit(low: nat, w: nat, b: nat, m: nat)
    requires low < w
    ensures low + w * b < m * w <==> b < m
  {
    if b < m {
      RowOrder(b, m, w);
    } else if m < b {
      RowOrder(m, b, w);
    }
  }

  /** Putting zeros in the places of two removed bits changes nothing exactly when both were zero. */
  lemma Refilled(all: seq<Bit>, i: nat)
    requires i + 2 <= |all|
    ensures var kept := all[..i] + all[i + 2..];
            kept[..i] + [0, 0] + kept[i..] == all <==> all[i] == 0 && all[i + 1] == 0
  {
    var kept := all[..i] + all[i + 2..];
    var filled := kept[..i] + [0, 0] + kept[i..];
    assert kept[..i] == all[..i] && kept[i..] == all[i + 2..];
    assert filled[i] == 0 && filled[i + 1] == 0;
    if all[i] == 0 && all[i + 1] == 0 {
      assert all == all[..i] + [all[i], all[i + 1]] + all[i + 2..];
    }
  }

  /** The 254 bits give the id back exactly when its little-endian value is below 2^254. */
  lemma ControlIdRecoveredIff(id: seq<Byte>)
    requires |id| == 32
    ensures IdOfBits(KeptBits(id)) == id <==> LittleEndian(id) < 64 * Power256(31)
  {
    hide LittleEndian, Power256, DigestBits, BytesOfBits, ByteBits;
    var all, kept := DigestBits(id), KeptBits(id);
    var filled: seq<Bit> := kept[..248] + [0, 0] + kept[248..];
    TopByte(id);
    TopTwoBits(id[31]);
    LastByteBits(id);
    assert all[248] == all[248..][0] && all[249] == all[248..][1];
    DigestRoundTrip(id);
    BitsOfBytes(filled);
    Refilled(all, 248);
  }

  /** The smallest id that is not given back: only bit 254 is set. */
  lemma LostControlId() returns (id: seq<Byte>)
    ensures |id| == 32 && LittleEndian(id) == 64 * Power256(31) && IdOfBits(KeptBits(id)) != id
  {
    id := seq(31, _ => 0) + [64];
    OnlyTopByte(id[..31], id);
    hide LittleEndian, IdOfBits, KeptBits;
    ControlIdRecoveredIff(id);
  }

  lemma OnlyTopByte(low: seq<Byte>, id: seq<Byte>)
    requires id == low + [64] && |low| == 31 && forall i :: 0 <= i < 31 ==> low[i] == 0
    ensures LittleEndian(id) == 64 * Power256(31)
  {
    ZeroBytes(low);
    LittleEndianConcat(low, [64]);
    assert [64][1..] == [];
    assert LittleEndian([64]) == 64;
    hide Power256, LittleEndian;
  }

  lemma {:induction false} ZeroBytes(bs: seq<Byte>)
    requires forall i :: 0 <= i < |bs| ==> bs[i] == 0
    ensures LittleEndian(bs) == 0
  {
    if bs != [] {
      ZeroBytes(bs[1..]);
    }
  }

  lemma LastByteBits(id: seq<Byte>)
    requires |id| == 32
    ensures DigestBits(id)[248..] == ByteBits(id[31])
  {
    assert id == id[..31] + [id[31]];
    DigestBitsConcat(id[..31], [id[31]]);
    assert [id[31]][1..] == [];
    assert DigestBits([id[31]]) == ByteBits(id[31]);
  }

  lemma BitsOfByte(bits: seq<Bit>)
    requires |bits| == 8
    ensures ByteBits(ByteOfBits(bits)) == bits
  {
    BitsOfValue(bits);
    assert ByteBits(ByteOfBits(bits)) == Bits(ByteOfBits(bits), 8);
  }

  lemma {:induction false} BitsOfBytes(bits: seq<Bit>)
    requires |bits| % 8 == 0
    ensures DigestBits(BytesOfBits(bits)) == bits
  {
    if bits != [] {
      BitsOfByte(bits[..8]);
      BitsOfBytes(bits[8..]);
      assert BytesOfBits(bits)[1..] == BytesOfBits(bits[8..]);
    }
  }

  // ---------------------------------------------------------------- the control root, in two limbs

  predicate IsHex(c: char) {
    '0' <= c <= '9' || 'a' <= c <= 'f'
  }

  function HexChar(d: int): (c: char)
    requires 0 <= d < 16
    ensures IsHex(c) && HexDigit(c) == d
  {
    if d < 10 then DecimalChar(d) else ('a' as int + (d - 10)) as char
  }

  function HexDigit(c: char): int
    requires IsHex(c)
  {
    if c <= '9' then c as int - '0' as int else c as int - 'a' as int + 10
  }

  function HexByte(b: Byte): (s: string)
    ensures |s| == 2
  {
    [HexChar(b / 16), HexChar(b % 16)]
  }

  function HexEncode(bytes: seq<Byte>): (s: string)
    ensures |s| == 2 * |bytes|
  {
    if bytes == [] then [] else HexByte(bytes[0]) + HexEncode(bytes[1..])
  }

  /** Parsing a hexadecimal number fails on an empty string or a foreign character. */
  function FromHex(s: string): Option<nat> {
    if s == [] || exists i :: 0 <= i < |s| && !IsHex(s[i]) then None else Some(HexValue(s))
  }

  function HexValue(s: string): nat
    requires forall i :: 0 <= i < |s| ==> IsHex(s[i])
  {
    if s == [] then 0 else 16 * HexValue(s[..|s| - 1]) + HexDigit(s[|s| - 1])
  }

  function HexToDecimal(s: string): Option<string> {
    match FromHex(s)
    case None => None
    case Some(n) => Some(ToDecimal(n))
  }

  lemma {:induction false} HexEncodeSnoc(bytes: seq<Byte>, b: Byte)
    ensures HexEncode(bytes + [b]) == HexEncode(bytes) + HexByte(b)
  {
    if bytes == [] {
      assert [b][1..] == [];
    } else {
      HexEncodeSnoc(bytes[1..], b);
      assert (bytes + [b])[1..] == bytes[1..] + [b];
    }
  }

  lemma {:induction false} HexRoundTrip(bytes: seq<Byte>)
    ensures forall i :: 0 <= i < 2 * |bytes| ==> IsHex(HexEncode(bytes)[i])
    ensures HexValue(HexEncode(bytes)) == BigEndian(bytes)
  {
    if bytes != [] {
      var init, b := bytes[..|bytes| - 1], bytes[|bytes| - 1];
      HexRoundTrip(init);
      HexEncodeSnoc(init, b);
      assert bytes == init + [b];
      var s := HexEncode(bytes);
      assert s[..|s| - 1][..|s| - 2] == HexEncode(init);
    }
  }

  /** A limb survives hexadecimal and decimal. */
  lemma LimbRoundTrip(bytes: seq<Byte>)
    requires bytes != []
    ensures var d := HexToDecimal(HexEncode(bytes));
            d.Some? && IsNumeral(d.value) && DecimalValue(d.value) == BigEndian(bytes)
  {
    HexRoundTrip(bytes);
    DecimalRoundTrip(BigEndian(bytes));
  }

  method ReverseBytes(bytes: seq<Byte>) returns (reversed: seq<Byte>)
    ensures reversed == Reversed(bytes)
  {
    var n := |bytes|;
    reversed := bytes;
    for i := 0 to n / 2
      invariant |reversed| == n
      invariant forall q :: 0 <= q < i ==> reversed[q] == bytes[n - 1 - q] && reversed[n - 1 - q] == bytes[q]
      invariant forall q :: i <= q < n - i ==> reversed[q] == bytes[q]
    {
      reversed := reversed[i := reversed[n - 1 - i]][n - 1 - i := reversed[i]];
    }
    ReversedAt(bytes);
  }

  /** The limbs of the control root: reverse, encode, cut in half, convert to decimal. */
  method ControlRootLimbs(root: seq<Byte>) returns (a0: Option<string>, a1: Option<string>)
    requires |root| == 32
    ensures a0.Some? && a1.Some? && IsNumeral(a0.value) && IsNumeral(a1.value)
    ensures DecimalValue(a1.value) * Power256(16) + DecimalValue(a0.value) == LittleEndian(root)
    ensures 0 <= DecimalValue(a0.value) < Power256(16) && 0 <= DecimalValue(a1.value) < Power256(16)
  {
    hide HexEncode, HexToDecimal, BigEndian, LittleEndian, IsNumeral, DecimalValue, Reversed, Power256;
    var reversed := ReverseBytes(root);
    var hex := HexEncode(reversed);
    ghost var high, low := reversed[..16], reversed[16..];
    assert reversed == high + low;
    HexEncodeConcat(high, low);
    assert hex[32..64] == HexEncode(low) && hex[0..32] == HexEncode(high);
    a0, a1 := HexToDecimal(hex[32..64]), HexToDecimal(hex[0..32]);
    LimbRoundTrip(high);
    LimbRoundTrip(low);
    BigEndianConcat(high, low);
    BigEndianOfReversed(root);
    BigEndianBound(high);
    BigEndianBound(low);
  }

  lemma {:induction false} HexEncodeConcat(a: seq<Byte>, b: seq<Byte>)
    ensures HexEncode(a + b) == HexEncode(a) + HexEncode(b)
  {
    if a == [] {
      assert a + b == b;
    } else {
      HexEncodeConcat(a[1..], b);
      assert (a + b)[0] == a[0] && (a + b)[1..] == a[1..] + b;
      Associative(HexByte(a[0]), HexEncode(a[1..]), HexEncode(b));
    }
  }

  lemma {:induction false} BigEndianBound(bs: seq<Byte>)
    ensures BigEndian(bs) < Power256(|bs|)
  {
    if bs != [] {
      BigEndianBound(bs[..|bs| - 1]);
    }
  }

  /** The powers of 256 used above are 2^128 and, times 64, 2^254. */
  lemma PowersOfTwo()
    ensures Power256(16) == Power2(128) && 64 * Power256(31) == Power2(254)
  {
    BytePower(16);
    BytePower(31);
    PowerSum(248, 6);
    assert Power2(3) == 2 * Power2(2) == 8;
    assert Power2(6) == 2 * Power2(5) == 4 * Power2(4) == 8 * Power2(3) == 64;
  }

  lemma {:induction false} BytePower(n: nat)
    ensures Power256(n) == Power2(8 * n)
  {
    if n > 0 {
      BytePower(n - 1);
      PowerSum(8 * (n - 1), 8);
      assert Power2(3) == 2 * Power2(2) == 8;
      assert Power2(8) == 2 * Power2(7) == 4 * Power2(6) == 8 * Power2(5) == 16 * Power2(4) == 32 * Power2(3) == 256;
    }
  }
}
