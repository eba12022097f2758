/** Small shared notions: optional values, outcomes, maxima, powers of two, reversal. */
module Prelude {

  datatype Option<+T> = None | Some(value: T)

  datatype Result<+T> = Ok(value: T) | Err

  function Max(a: int, b: int): int {
    if a >= b then a else b
  }

  function Power2(n: nat): (r: int)
    ensures r > 0
  {
    if n == 0 then 1 else 2 * Power2(n - 1)
  }

  lemma {:induction false} PowerSum(a: nat, b: nat)
    ensures Power2(a + b) == Power2(a) * Power2(b)
  {
    if a > 0 {
      PowerSum(a - 1, b);
      assert 2 * (Power2(a - 1) * Power2(b)) == (2 * Power2(a - 1)) * Power2(b);
    }
  }

  /** The order in which pieces are joined does not matter. */
  lemma Associative<T>(x: seq<T>, y: seq<T>, z: seq<T>)
    ensures (x + y) + z == x + (y + z)
  {
  }

  function Reversed<T>(s: seq<T>): (r: seq<T>)
    ensures |r| == |s|
  {
    if s == [] then [] else Reversed(s[1..]) + [s[0]]
  }

  lemma {:induction false} ReversedAt<T>(s: seq<T>)
    ensures forall q :: 0 <= q < |s| ==> Reversed(s)[q] == s[|s| - 1 - q]
  {
    if s != [] {
      ReversedAt(s[1..]);
    }
  }
}
