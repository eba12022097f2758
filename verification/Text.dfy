/** Searching, splitting and joining strings. */
module Text {
  import opened Prelude

  /** The position of the first c, or the length of s. */
  function IndexOf(s: string, c: char): (i: nat)
    ensures i <= |s| && (forall k :: 0 <= k < i ==> s[k] != c) && (i < |s| ==> s[i] == c)
  {
    if s == [] || s[0] == c then 0 else 1 + IndexOf(s[1..], c)
  }

  /** The pieces of s between the occurrences of c. */
  function Split(s: string, c: char): (parts: seq<string>)
    ensures parts != [] && forall k :: 0 <= k < |parts| ==> c !in parts[k]
  {
    var i := IndexOf(s, c);
    if i == |s| then [s] else [s[..i]] + Split(s[i + 1..], c)
  }

  function Join(parts: seq<string>, c: char): string
    requires parts != []
  {
    if |parts| == 1 then parts[0] else parts[0] + [c] + Join(parts[1..], c)
  }

  lemma {:induction false} JoinSplit(s: string, c: char)
    ensures Join(Split(s, c), c) == s
  {
    var i := IndexOf(s, c);
    if i < |s| {
      JoinSplit(s[i + 1..], c);
      assert Split(s, c)[1..] == Split(s[i + 1..], c);
      assert s == s[..i] + [c] + s[i + 1..];
    }
  }

  /** A string without c is one piece; one c separates two pieces. */
  lemma SplitFirst(a: string, b: string, c: char)
    requires c !in a
    ensures Split(a, c) == [a] && Split(a + [c] + b, c) == [a] + Split(b, c)
  {
    var s := a + [c] + b;
    assert s[|a|] == c && s[..|a|] == a && s[|a| + 1..] == b;
    assert IndexOf(a, c) == |a| && IndexOf(s, c) == |a|;
  }

  /** The piece after the last c. */
  lemma {:induction false} LastPiece(a: string, b: string, c: char)
    requires c !in b
    ensures Split(a + [c] + b, c)[|Split(a + [c] + b, c)| - 1] == b
    decreases |a|
  {
    var i := IndexOf(a, c);
    hide Split, IndexOf;
    if i == |a| {
      SplitFirst(a, b, c);
      SplitFirst(b, "", c);
    } else {
      var head, tail := a[..i], a[i + 1..];
      LastPiece(tail, b, c);
      SplitFirst(head, tail + [c] + b, c);
      assert a == head + [c] + tail;
      Regroup(head, tail, b, c);
    }
  }

  lemma Regroup(x: string, y: string, z: string, c: char)
    ensures (x + [c] + y) + [c] + z == x + [c] + (y + [c] + z)
  {
    Associative(x + [c], y, [c]);
    Associative(x + [c], y + [c], z);
  }

  /** Three pieces, both ways. */
  lemma SplitThree(x: string, y: string, z: string, c: char)
    requires c !in x && c !in y && c !in z
    ensures Split(x + [c] + y + [c] + z, c) == [x, y, z]
  {
    hide Split;
    SplitFirst(z, "", c);
    SplitFirst(y, z, c);
    SplitFirst(x, y + [c] + z, c);
    Associative(x + [c], y + [c], z);
    Associative(x + [c], y, [c]);
  }

  lemma JoinThree(s: string, c: char)
    requires |Split(s, c)| == 3
    ensures s == Split(s, c)[0] + [c] + Split(s, c)[1] + [c] + Split(s, c)[2]
  {
    var parts := Split(s, c);
    JoinSplit(s, c);
    assert parts[1..][1..] == [parts[2]];
    assert Join(parts[1..], c) == parts[1] + [c] + parts[2];
    assert parts[0] + [c] + (parts[1] + [c] + parts[2]) == parts[0] + [c] + parts[1] + [c] + parts[2];
  }

  // ---------------------------------------------------------------- substrings

  /** The text t stands in s at position i. */
  predicate OccursAt(s: string, t: string, i: nat) {
    i + |t| <= |s| && s[i..i + |t|] == t
  }

  ghost predicate Contains(s: string, t: string) {
    exists i: nat :: OccursAt(s, t, i)
  }

  /** The first position of t in s, or -1. */
  function Find(s: string, t: string): (i: int)
    ensures i >= -1
    ensures i >= 0 ==> OccursAt(s, t, i)
    ensures forall k: nat :: OccursAt(s, t, k) ==> 0 <= i <= k
  {
    FindFrom(s, t, 0)
  }

  function FindFrom(s: string, t: string, from: nat): (i: int)
    requires from <= |s|
    ensures i >= -1
    ensures i >= 0 ==> i >= from && OccursAt(s, t, i)
    ensures forall k: nat :: from <= k && OccursAt(s, t, k) ==> 0 <= i <= k
    decreases |s| - from
  {
    if OccursAt(s, t, from) then from
    else if from == |s| then -1
    else FindFrom(s, t, from + 1)
  }

  /** What occurs in a prefix occurs in the whole, at the same place. */
  lemma OccursInPrefix(a: string, b: string, t: string, i: nat)
    requires i + |t| <= |a|
    ensures OccursAt(a + b, t, i) <==> OccursAt(a, t, i)
  {
    assert (a + b)[i..i + |t|] == a[i..i + |t|];
  }

  lemma OccursInSuffix(a: string, b: string, t: string, i: nat)
    requires i >= |a|
    ensures OccursAt(a + b, t, i) <==> OccursAt(b, t, i - |a|)
  {
    if i + |t| <= |a + b| {
      assert (a + b)[i..i + |t|] == b[i - |a|..i - |a| + |t|];
    }
  }

  /** The characters of an occurrence. */
  lemma OccursChar(s: string, t: string, i: nat, k: nat)
    requires OccursAt(s, t, i) && k < |t|
    ensures s[i + k] == t[k]
  {
    assert s[i..i + |t|][k] == s[i + k];
  }

  /** A longer ending does not move the first occurrence. */
  lemma FindInLonger(s: string, end: string, t: string)
    requires Find(s, t) >= 0
    ensures Find(s + end, t) == Find(s, t)
  {
    var i, j := Find(s, t), Find(s + end, t);
    OccursInPrefix(s, end, t, i);
    if 0 <= j < i {
      OccursInPrefix(s, end, t, j);
    }
  }

  lemma EndsBefore(s: string, end: char, t: string, i: nat)
    requires t != "" && end !in t && OccursAt(s + [end], t, i)
    ensures i + |t| <= |s|
  {
    OccursChar(s + [end], t, i, |t| - 1);
    assert t[|t| - 1] in t;
  }

  /** Nor does an ending with a character the text lacks make one. */
  lemma FindWithForeignEnd(s: string, end: char, t: string)
    requires t != "" && end !in t
    ensures Find(s + [end], t) == Find(s, t)
  {
    var i := Find(s + [end], t);
    if Find(s, t) >= 0 {
      FindInLonger(s, [end], t);
    } else if i >= 0 {
      EndsBefore(s, end, t, i);
      OccursInPrefix(s, [end], t, i);
      assert false;
    }
  }

  /** A prefix of an occurrence occurs too. */
  lemma PrefixOccurs(s: string, t: string, i: nat, u: string)
    requires OccursAt(s, t, i) && u <= t
    ensures OccursAt(s, u, i)
  {
    forall k | 0 <= k < |u| ensures s[i + k] == u[k] {
      OccursChar(s, t, i, k);
    }
  }

  /** Cancelling a common end. */
  lemma SameEnd(a: string, b: string, tail: string)
    requires a + tail == b + tail
    ensures a == b
  {
    assert |a| == |b|;
    assert a == (a + tail)[..|a|];
    assert b == (b + tail)[..|b|];
  }
}
