/** Versions of Semantic Versioning 2.0.0: their text (items 2, 9, 10) and their order (item 11). */
module Versions {
  import opened Numerals
  import opened Prelude
  import opened Text

  const U64_LIMIT: nat := 0x1_0000_0000_0000_0000

  predicate IsIdentifierChar(c: char) {
    '0' <= c <= '9' || 'A' <= c <= 'Z' || 'a' <= c <= 'z' || c == '-'
  }

  predicate IsDigits(s: string) {
    forall i :: 0 <= i < |s| ==> '0' <= s[i] <= '9'
  }

  /** Identifiers separated by dots, none of them empty. */
  predicate AreIdentifiers(s: string) {
    && (forall i :: 0 <= i < |s| ==> IsIdentifierChar(s[i]) || s[i] == '.')
    && (forall part :: part in Split(s, '.') ==> part != [])
  }

  /** In a pre-release, the identifiers made of digits have no leading zeros. */
  predicate IsPreRelease(s: string) {
    AreIdentifiers(s) && forall part :: part in Split(s, '.') && IsDigits(part) ==> IsNumeral(part)
  }

  /** The parts of a version; an absent pre-release or build is empty. */
  datatype Parts = Parts(major: nat, minor: nat, patch: nat, pre: string, build: string)

  predicate IsVersion(v: Parts) {
    && v.major < U64_LIMIT && v.minor < U64_LIMIT && v.patch < U64_LIMIT
    && (v.pre == "" || IsPreRelease(v.pre))
    && (v.build == "" || AreIdentifiers(v.build))
  }

  type Version = v: Parts | IsVersion(v) witness Parts(0, 0, 0, "", "")

  // ---------------------------------------------------------------- text

  function PrintCore(v: Version): string {
    ToDecimal(v.major) + "." + ToDecimal(v.minor) + "." + ToDecimal(v.patch)
  }

  function Suffix(mark: char, text: string): string {
    if text == "" then "" else [mark] + text
  }

  function Print(v: Version): string {
    PrintCore(v) + Suffix('-', v.pre) + Suffix('+', v.build)
  }

  predicate IsU64(s: string) {
    IsNumeral(s) && 0 <= DecimalValue(s) < U64_LIMIT
  }

  function Parse(s: string): (r: Option<Version>) {
    var p := IndexOf(s, '+');
    var d := IndexOf(s[..p], '-');
    var numbers := Split(s[..d], '.');
    var pre := if d < p then s[d + 1..p] else "";
    var build := if p < |s| then s[p + 1..] else "";
    if |numbers| == 3 && IsU64(numbers[0]) && IsU64(numbers[1]) && IsU64(numbers[2])
       && (d < p ==> IsPreRelease(pre)) && (p < |s| ==> AreIdentifiers(build))
    then Some(Parts(DecimalValue(numbers[0]), DecimalValue(numbers[1]), DecimalValue(numbers[2]), pre, build))
    else None
  }

  /** A numeral holds none of the marks. */
  lemma NumeralHasNoMarks(n: nat)
    ensures '-' !in ToDecimal(n) && '+' !in ToDecimal(n) && '.' !in ToDecimal(n)
  {
    DecimalRoundTrip(n);
    assert IsNumeral(ToDecimal(n));
  }

  /** The printed numbers hold neither other mark, and split back into the three numerals. */
  lemma CoreSplits(v: Version)
    ensures '-' !in PrintCore(v) && '+' !in PrintCore(v)
    ensures Split(PrintCore(v), '.') == [ToDecimal(v.major), ToDecimal(v.minor), ToDecimal(v.patch)]
  {
    hide ToDecimal, Split, IsVersion;
    NumeralHasNoMarks(v.major);
    NumeralHasNoMarks(v.minor);
    NumeralHasNoMarks(v.patch);
    SplitThree(ToDecimal(v.major), ToDecimal(v.minor), ToDecimal(v.patch), '.');
  }

  lemma EmptyHasNoIdentifiers()
    ensures !AreIdentifiers("")
  {
    assert Split("", '.') == [""];
    assert "" in Split("", '.');
  }

  /** Where the two marks of a printed version stand. */
  lemma MarksOfPrint(v: Version)
    ensures IndexOf(Print(v), '+') == |PrintCore(v) + Suffix('-', v.pre)|
    ensures IndexOf(PrintCore(v) + Suffix('-', v.pre), '-') == |PrintCore(v)|
  {
    CoreSplits(v);
    assert '+' !in Suffix('-', v.pre);
    var front := PrintCore(v) + Suffix('-', v.pre);
    assert '+' !in front;
    assert Print(v) == front + Suffix('+', v.build);
    if v.build != "" {
      assert Print(v)[|front|] == '+';
    }
    if v.pre != "" {
      assert front[|PrintCore(v)|] == '-';
    }
  }

  /** The numerals of a version read as its numbers. */
  lemma NumbersRead(n: nat)
    requires n < U64_LIMIT
    ensures IsU64(ToDecimal(n)) && DecimalValue(ToDecimal(n)) == n
  {
    DecimalRoundTrip(n);
  }

  /** Cutting a printed version at its marks gives its parts. */
  lemma PiecesOfPrint(v: Version)
    ensures
      var front := PrintCore(v) + Suffix('-', v.pre);
      && Print(v)[..|front|] == front && front[..|PrintCore(v)|] == PrintCore(v)
      && (|front| < |Print(v)| <==> v.build != "") && (|PrintCore(v)| < |front| <==> v.pre != "")
      && (v.pre != "" ==> Print(v)[|PrintCore(v)| + 1..|front|] == v.pre)
      && (v.build != "" ==> Print(v)[|front| + 1..] == v.build)
      && Print(v)[..|PrintCore(v)|] == PrintCore(v)
  {
    hide PrintCore, IsVersion;
  }

  /** Reading what was printed gives the version back. */
  lemma ParsePrinted(v: Version)
    ensures Parse(Print(v)) == Some(v)
  {
    hide ToDecimal, DecimalValue, Split, IndexOf, PrintCore, Print, AreIdentifiers, IsPreRelease, IsU64;
    MarksOfPrint(v);
    PiecesOfPrint(v);
    CoreSplits(v);
    NumbersRead(v.major);
    NumbersRead(v.minor);
    NumbersRead(v.patch);
  }

  /** Cutting text at a mark and printing the mark again. */
  lemma Recut(s: string, i: nat, mark: char, text: string)
    requires i <= |s| && (i < |s| ==> s[i] == mark && text == s[i + 1..] && text != "") && (i == |s| ==> text == "")
    ensures s[..i] + Suffix(mark, text) == s
  {
  }

  /** Only the printed form of a version reads as that version. */
  lemma PrintParsed(s: string)
    requires Parse(s).Some?
    ensures Print(Parse(s).value) == s
  {
    hide ToDecimal, DecimalValue, Split, AreIdentifiers;
    var v := Parse(s).value;
    var p := IndexOf(s, '+');
    var front := s[..p];
    var d := IndexOf(front, '-');
    hide IndexOf;
    assert s[..d] == front[..d];
    var numbers := Split(front[..d], '.');
    JoinThree(front[..d], '.');
    NumeralRoundTrip(numbers[0]);
    NumeralRoundTrip(numbers[1]);
    NumeralRoundTrip(numbers[2]);
    assert PrintCore(v) == front[..d];
    EmptyHasNoIdentifiers();
    if d < p {
      assert front[d + 1..] == s[d + 1..p];
    }
    Recut(front, d, '-', v.pre);
    Recut(s, p, '+', v.build);
  }

  lemma PrintIsInjective(v: Version, w: Version)
    requires Print(v) == Print(w)
    ensures v == w
  {
    ParsePrinted(v);
    ParsePrinted(w);
  }

  /** Letters, digits, dashes, and the dots between identifiers, none of which is empty. */
  predicate IdentifierText(s: string) {
    && (forall i :: 0 <= i < |s| ==>
          '0' <= s[i] <= '9' || 'A' <= s[i] <= 'Z' || 'a' <= s[i] <= 'z' || s[i] == '-' || s[i] == '.')
    && forall part :: part in Split(s, '.') ==> part != ""
  }

  /** A number that begins with a zero and goes on. */
  predicate Padded(part: string) {
    |part| > 1 && part[0] == '0' && forall i :: 0 <= i < |part| ==> '0' <= part[i] <= '9'
  }

  /** What a version may be: numbers of 64 bits, and in a pre-release no padded numbers. */
  lemma {:induction false} VersionIff(v: Parts)
    ensures IsVersion(v) <==>
            && v.major < 18446744073709551616 && v.minor < 18446744073709551616 && v.patch < 18446744073709551616
            && (v.pre != "" ==> IdentifierText(v.pre) && forall part :: part in Split(v.pre, '.') ==> !Padded(part))
            && (v.build != "" ==> IdentifierText(v.build))
  {
    hide Split;
    IdentifiersIff(v.pre);
    IdentifiersIff(v.build);
    hide AreIdentifiers, IdentifierText, IsDigits;
    forall part | part != "" ensures (IsDigits(part) ==> IsNumeral(part)) <==> !Padded(part) {
      NumeralIff(part);
    }
    forall part | AreIdentifiers(v.pre) && part in Split(v.pre, '.') ensures part != "" {
      PartsOf(v.pre, part);
    }
  }

  lemma {:induction false} IdentifiersIff(s: string)
    ensures AreIdentifiers(s) <==> IdentifierText(s)
  {
    hide Split;
  }

  lemma {:induction false} NumeralIff(part: string)
    requires part != ""
    ensures (IsDigits(part) ==> IsNumeral(part)) <==> !Padded(part)
  {
  }

  lemma {:induction false} PartsOf(s: string, part: string)
    requires AreIdentifiers(s) && part in Split(s, '.')
    ensures part != ""
  {
    hide Split;
  }

  /** Three numbers between dots; a pre-release after a dash, a build after a plus sign. */
  lemma {:induction false} WrittenSo(v: Version)
    ensures v.major == 1 && v.minor == 20 && v.patch == 3 && v.pre == "" && v.build == "" ==> Print(v) == "1.20.3"
    ensures v.pre != "" && v.build == "" ==> Print(v) == Print(Released(v)) + "-" + v.pre
    ensures v.pre == "" && v.build != "" ==> Print(v) == Print(Released(v)) + "+" + v.build
    ensures v.pre != "" && v.build != "" ==> Print(v) == Print(Released(v)) + "-" + v.pre + "+" + v.build
  {
    assert ToDecimal(1) == "1" && ToDecimal(2) == "2" && ToDecimal(3) == "3" && ToDecimal(20) == "20";
  }

  /** The release a pre-release or a build belongs to. */
  function Released(v: Version): Version {
    Parts(v.major, v.minor, v.patch, "", "")
  }

  // ---------------------------------------------------------------- order

  datatype Ordering = Less | Equal | Greater

  function Flip(o: Ordering): Ordering {
    match o
    case Less => Greater
    case Equal => Equal
    case Greater => Less
  }

  /** The first difference decides. */
  function Then(first: Ordering, second: Ordering): Ordering {
    if first == Equal then second else first
  }

  function CompareNumbers(a: int, b: int): Ordering {
    if a < b then Less else if a == b then Equal else Greater
  }

  /** Character by character; a proper prefix comes first. */
  function CompareText(a: string, b: string): Ordering {
    if a == [] && b == [] then Equal
    else if a == [] then Less
    else if b == [] then Greater
    else Then(CompareNumbers(a[0] as int, b[0] as int), CompareText(a[1..], b[1..]))
  }

  /** Digits compare as numbers, then by leading zeros, and come before the rest, which compares as text. */
  function CompareIdentifiers(a: string, b: string): Ordering {
    if IsDigits(a) && IsDigits(b) then
      Then(CompareNumbers(DecimalValue(a), DecimalValue(b)), CompareNumbers(|a|, |b|))
    else if IsDigits(a) then Less
    else if IsDigits(b) then Greater
    else CompareText(a, b)
  }

  /** Identifier by identifier; fewer identifiers come first. */
  function CompareLists(a: seq<string>, b: seq<string>): Ordering {
    if a == [] && b == [] then Equal
    else if a == [] then Less
    else if b == [] then Greater
    else Then(CompareIdentifiers(a[0], b[0]), CompareLists(a[1..], b[1..]))
  }

  /** A version without pre-release comes after its pre-releases. */
  function ComparePre(a: string, b: string): Ordering {
    if a == "" || b == "" then CompareNumbers(if a == "" then 1 else 0, if b == "" then 1 else 0)
    else CompareLists(Split(a, '.'), Split(b, '.'))
  }

  /** The precedence of item 11: build metadata does not count. */
  function Precedence(a: Version, b: Version): Ordering {
    Then(CompareNumbers(a.major, b.major),
         Then(CompareNumbers(a.minor, b.minor),
              Then(CompareNumbers(a.patch, b.patch), ComparePre(a.pre, b.pre))))
  }

  /** A total order that refines the precedence: build metadata breaks ties, identifier by identifier. */
  function Compare(a: Version, b: Version): Ordering {
    Then(Precedence(a, b), CompareLists(Split(a.build, '.'), Split(b.build, '.')))
  }

  // ---------------------------------------------------------------- it is a total order

  /** Two comparisons that do not go down compose. */
  predicate Composes(ab: Ordering, bc: Ordering, ac: Ordering) {
    ab != Greater && bc != Greater ==> ac == Then(ab, bc)
  }

  lemma {:induction false} TextOrder(a: string, b: string, c: string)
    ensures CompareText(b, a) == Flip(CompareText(a, b))
    ensures CompareText(a, b) == Equal <==> a == b
    ensures Composes(CompareText(a, b), CompareText(b, c), CompareText(a, c))
    decreases |a| + |b| + |c|
  {
    if a != [] && b != [] {
      var rest := if c == [] then [] else c[1..];
      TextOrder(a[1..], b[1..], rest);
      assert a == [a[0]] + a[1..] && b == [b[0]] + b[1..];
    }
  }

  /** Digits with the same value and length are the same. */
  lemma {:induction false} SameDigits(a: string, b: string)
    requires IsDigits(a) && IsDigits(b) && |a| == |b| && DecimalValue(a) == DecimalValue(b)
    ensures a == b
  {
    if a != [] {
      var n := |a| - 1;
      SameDigits(a[..n], b[..n]);
      assert a == a[..n] + [a[n]] && b == b[..n] + [b[n]];
    }
  }

  lemma IdentifierOrder(a: string, b: string, c: string)
    ensures CompareIdentifiers(b, a) == Flip(CompareIdentifiers(a, b))
    ensures CompareIdentifiers(a, b) == Equal <==> a == b
    ensures Composes(CompareIdentifiers(a, b), CompareIdentifiers(b, c), CompareIdentifiers(a, c))
  {
    TextOrder(a, b, c);
    if IsDigits(a) && IsDigits(b) && |a| == |b| && DecimalValue(a) == DecimalValue(b) {
      SameDigits(a, b);
    }
  }

  lemma {:induction false} ListOrder(a: seq<string>, b: seq<string>, c: seq<string>)
    ensures CompareLists(b, a) == Flip(CompareLists(a, b))
    ensures CompareLists(a, b) == Equal <==> a == b
    ensures Composes(CompareLists(a, b), CompareLists(b, c), CompareLists(a, c))
    decreases |a| + |b| + |c|
  {
    if a != [] && b != [] {
      var first, rest := if c == [] then "" else c[0], if c == [] then [] else c[1..];
      IdentifierOrder(a[0], b[0], first);
      ListOrder(a[1..], b[1..], rest);
      assert a == [a[0]] + a[1..] && b == [b[0]] + b[1..];
    }
  }

  lemma PreOrder(a: Version, b: Version, c: Version)
    ensures ComparePre(b.pre, a.pre) == Flip(ComparePre(a.pre, b.pre))
    ensures ComparePre(a.pre, b.pre) == Equal <==> a.pre == b.pre
    ensures Composes(ComparePre(a.pre, b.pre), ComparePre(b.pre, c.pre), ComparePre(a.pre, c.pre))
  {
    if a.pre != "" && b.pre != "" {
      ListOrder(Split(a.pre, '.'), Split(b.pre, '.'), Split(c.pre, '.'));
      JoinSplit(a.pre, '.');
      JoinSplit(b.pre, '.');
    }
  }

  /** Versions are totally ordered: the two directions agree, ties are equal versions, and order composes. */
  lemma VersionOrder(a: Version, b: Version, c: Version)
    ensures Compare(b, a) == Flip(Compare(a, b))
    ensures Compare(a, b) == Equal <==> a == b
    ensures Composes(Compare(a, b), Compare(b, c), Compare(a, c))
  {
    hide ComparePre, CompareLists, IsVersion, Split;
    PreOrder(a, b, c);
    ListOrder(Split(a.build, '.'), Split(b.build, '.'), Split(c.build, '.'));
    JoinSplit(a.build, '.');
    JoinSplit(b.build, '.');
  }

  /** The precedence decides whenever it can. */
  lemma PrecedenceDecides(a: Version, b: Version)
    ensures Precedence(a, b) != Equal ==> Compare(a, b) == Precedence(a, b)
    ensures Compare(a, b) != Greater ==> Precedence(a, b) != Greater
  {
  }

  predicate SameCore(a: Version, b: Version) {
    a.major == b.major && a.minor == b.minor && a.patch == b.patch
  }

  /** The major number decides, then the minor, then the patch number; a pre-release comes before its release. */
  lemma {:induction false} CoreDecides(a: Version, b: Version)
    ensures a.major < b.major ==> Precedence(a, b) == Compare(a, b) == Less
    ensures a.major == b.major && a.minor < b.minor ==> Precedence(a, b) == Compare(a, b) == Less
    ensures a.major == b.major && a.minor == b.minor && a.patch < b.patch ==> Precedence(a, b) == Compare(a, b) == Less
    ensures SameCore(a, b) && a.pre != "" && b.pre == "" ==> Precedence(a, b) == Compare(a, b) == Less
    ensures Precedence(b, a) == Flip(Precedence(a, b))
  {
    hide IsVersion, CompareLists;
    PreOrder(a, b, a);
  }

  /** Two pre-releases of a release go by their identifiers, and two builds of a version by theirs. */
  lemma {:induction false} IdentifiersDecide(a: Version, b: Version)
    ensures SameCore(a, b) && a.pre != "" && b.pre != "" ==>
              Precedence(a, b) == CompareLists(Split(a.pre, '.'), Split(b.pre, '.'))
    ensures SameCore(a, b) && a.pre == b.pre ==>
              Precedence(a, b) == Equal && Compare(a, b) == CompareLists(Split(a.build, '.'), Split(b.build, '.'))
    ensures Precedence(a, b) == Equal <==> SameCore(a, b) && a.pre == b.pre
  {
    hide IsVersion, CompareLists, Split;
    PreOrder(a, b, a);
  }

  /** The first pair of different identifiers decides, whatever follows. */
  lemma {:induction false} FirstDifferenceDecides(
      same: seq<string>, a: string, b: string, restA: seq<string>, restB: seq<string>)
    requires CompareIdentifiers(a, b) != Equal
    ensures CompareLists(same + [a] + restA, same + [b] + restB) == CompareIdentifiers(a, b)
  {
    var x, y := same + [a] + restA, same + [b] + restB;
    if same == [] {
      assert x[0] == a && y[0] == b;
    } else {
      FirstDifferenceDecides(same[1..], a, b, restA, restB);
      IdentifierOrder(same[0], same[0], same[0]);
      assert x[1..] == same[1..] + [a] + restA && y[1..] == same[1..] + [b] + restB;
    }
  }

  /** When one list of identifiers starts the other, the shorter one comes first. */
  lemma {:induction false} FewerIdentifiersFirst(a: seq<string>, more: seq<string>)
    requires more != []
    ensures CompareLists(a, a + more) == Less
  {
    if a != [] {
      FewerIdentifiersFirst(a[1..], more);
      IdentifierOrder(a[0], a[0], a[0]);
      assert (a + more)[1..] == a[1..] + more;
    }
  }

  /**
   * Numbers come before text; among numbers the smaller value, then the fewer zeros, and among text the smaller
   * first difference.
   */
  lemma {:induction false} IdentifiersCompared(a: string, b: string, k: nat)
    ensures IsDigits(a) && !IsDigits(b) ==> CompareIdentifiers(a, b) == Less
    ensures IsDigits(a) ==> CompareIdentifiers(a, "0" + a) == Less
    ensures IsDigits(a) && IsDigits(b) && DecimalValue(a) < DecimalValue(b) ==> CompareIdentifiers(a, b) == Less
    ensures !IsDigits(a) && !IsDigits(b) && k < |a| && k < |b| && a[..k] == b[..k] && a[k] < b[k] ==>
              CompareIdentifiers(a, b) == Less
  {
    LeadingZero(a);
    if k < |a| && k < |b| && a[..k] == b[..k] && a[k] < b[k] {
      TextFirstDifference(a, b, k);
    }
  }

  lemma {:induction false} LeadingZero(a: string)
    ensures DecimalValue("0" + a) == DecimalValue(a)
  {
    var s, n := "0" + a, |a|;
    if a != "" {
      LeadingZero(a[..n - 1]);
      assert s[..n] == "0" + a[..n - 1] && s[n] == a[n - 1];
    } else {
      assert s[..0] == [];
    }
  }

  lemma {:induction false} TextFirstDifference(a: string, b: string, k: nat)
    requires k < |a| && k < |b| && a[..k] == b[..k] && a[k] < b[k]
    ensures CompareText(a, b) == Less
  {
    if k > 0 {
      assert a[0] == a[..k][0] && b[0] == b[..k][0];
      assert a[1..][..k - 1] == a[..k][1..] && b[1..][..k - 1] == b[..k][1..];
      TextFirstDifference(a[1..], b[1..], k - 1);
    }
  }
}
