/** How the toolchain manager names a version directory, and how it reads such names back. */
module ToolchainPaths {
  import opened Numerals
  import opened Prelude
  import opened Text
  import opened Versions

  datatype Component = CargoRiscZero | CppToolchain | Gdb | R0Vm | RustToolchain | Risc0Groth16

  function AsStr(c: Component): string {
    match c
    case CargoRiscZero => "cargo-risczero"
    case CppToolchain => "cpp"
    case Gdb => "gdb"
    case R0Vm => "r0vm"
    case RustToolchain => "rust"
    case Risc0Groth16 => "risc0-groth16"
  }

  /** The component whose directory holds c: r0vm ships inside cargo-risczero. */
  function Home(c: Component): Component {
    if c == R0Vm then CargoRiscZero else c
  }

  datatype Folder = Toolchains | Extensions

  function FolderOf(c: Component): Folder {
    if c == RustToolchain || c == CppToolchain then Toolchains else Extensions
  }

  datatype Os = MacOs | Linux

  datatype Platform = Platform(arch: string, os: Os)

  function TargetTriple(p: Platform): string {
    p.arch + (if p.os == MacOs then "-apple-darwin" else "-unknown-linux-gnu")
  }

  /** The name of the archive of c without its extension, if there is one for the platform. */
  function AssetName(c: Component, p: Platform): Option<string> {
    match c
    case RustToolchain => Some("rust-toolchain-" + TargetTriple(p))
    case CargoRiscZero => Some("cargo-risczero-" + TargetTriple(p))
    case Gdb =>
      if p == Platform("x86_64", Linux) then Some("riscv32im-gdb-linux-x86_64")
      else if p == Platform("aarch64", MacOs) then Some("riscv32im-gdb-osx-arm64")
      else None
    case CppToolchain =>
      if p == Platform("x86_64", Linux) then Some("riscv32im-linux-x86_64")
      else if p == Platform("aarch64", MacOs) then Some("riscv32im-osx-arm64")
      else None
    case R0Vm => Some("r0vm-" + TargetTriple(p))
    case Risc0Groth16 => Some("risc0-groth16")
  }

  predicate HasAsset(c: Component, p: Platform) {
    AssetName(c, p).Some?
  }

  /** Only the debugger and the C++ toolchain lack an archive, on all but two platforms. */
  lemma {:induction false} AssetsExist(c: Component, p: Platform)
    ensures HasAsset(c, p) <==>
            (c == Gdb || c == CppToolchain ==> p == Platform("x86_64", Linux) || p == Platform("aarch64", MacOs))
    ensures c == CppToolchain && p == Platform("x86_64", Linux) ==> AssetName(c, p) == Some("riscv32im-linux-x86_64")
    ensures c == CppToolchain && p == Platform("aarch64", MacOs) ==> AssetName(c, p) == Some("riscv32im-osx-arm64")
  {
  }

  function DirName(c: Component, v: Version, p: Platform): string {
    if c == Risc0Groth16 then "v" + Print(v) + "-" + AsStr(c)
    else "v" + Print(v) + "-" + AsStr(c) + "-" + TargetTriple(p)
  }

  // ---------------------------------------------------------------- reading a name

  /** A 64-bit number as the Rust parser takes it: a plus sign and leading zeros are allowed. */
  function ParseU64(s: string): (r: Option<nat>)
    ensures r.Some? ==> r.value < U64_LIMIT
  {
    var digits := if s != "" && s[0] == '+' then s[1..] else s;
    if digits != "" && IsDigits(digits) && 0 <= DecimalValue(digits) < U64_LIMIT then Some(DecimalValue(digits))
    else None
  }

  /** A plus sign in front is allowed, and leading zeros are; 64 bits are the limit. */
  lemma {:induction false} U64Reads(s: string)
    requires s != "" && IsDigits(s) && DecimalValue(s) >= 0
    ensures ParseU64(s) == ParseU64("+" + s) == ParseU64("0" + s)
    ensures ParseU64(s) == if DecimalValue(s) < 18446744073709551616 then Some(DecimalValue(s)) else None
  {
    LeadingZero(s);
    var plus, zero := "+" + s, "0" + s;
    assert plus[0] == '+' && plus[1..] == s && s[0] != '+' && zero[0] == '0';
    hide DecimalValue;
  }

  /** Nothing else than digits is read. */
  lemma {:induction false} U64ReadsDigits(s: string, i: nat)
    requires i < |s| && !('0' <= s[i] <= '9') && (i > 0 || s[i] != '+')
    ensures ParseU64(s) == ParseU64("") == ParseU64("+") == None
  {
    hide DecimalValue;
    if s[0] == '+' {
      assert s[1..][i - 1] == s[i];
    }
    assert "+"[1..] == "";
  }

  /** Dates as version numbers. */
  function ParseCppVersion(s: string): Option<Version> {
    var parts := Split(s, '.');
    if |parts| == 3 && ParseU64(parts[0]).Some? && ParseU64(parts[1]).Some? && ParseU64(parts[2]).Some?
    then Some(Parts(ParseU64(parts[0]).value, ParseU64(parts[1]).value, ParseU64(parts[2]).value, "", ""))
    else None
  }

  /** The version before the component's name: at most one dash of its own, a third piece is dropped. */
  function ExtractVersion(s: string): Option<Version> {
    var segments := Split(s, '-');
    if |segments| == 1 then Parse(s)
    else if |segments| <= 3 then Parse(segments[0] + "-" + segments[1])
    else None
  }

  function Last(parts: seq<string>): string
    requires parts != []
  {
    parts[|parts| - 1]
  }

  /** The version a directory name stands for, current and legacy formats. */
  function ParseDirName(name: string, c: Component): Option<Version> {
    if "r0." <= name && c == RustToolchain then Parse(Split(name[3..], '-')[0])
    else if "rust_" <= name && c == RustToolchain then
      var tail := Last(Split(name, '_'));
      if "r0." <= tail then Parse(tail[3..]) else None
    else if "c_" <= name && c == CppToolchain then ParseCppVersion(Last(Split(name, '_')))
    else if c == CppToolchain && !("v" <= name) then ParseCppVersion(Split(name, '-')[0])
    else if "v" <= name then
      var p := Find(name[1..], "-" + AsStr(c));
      if p >= 0 then ExtractVersion(name[1..][..p]) else None
    else None
  }

  // ---------------------------------------------------------------- the round trip

  function Tag(c: Component): string {
    "-" + AsStr(c)
  }

  /** What follows the tag in the name. */
  function Rest(c: Component, p: Platform): string {
    if c == Risc0Groth16 then "" else "-" + TargetTriple(p)
  }

  function Dashes(s: string): nat {
    |Split(s, '-')| - 1
  }

  lemma {:induction false} NameParts(c: Component, v: Version, p: Platform)
    ensures DirName(c, v, p) != "" && DirName(c, v, p)[0] == 'v'
    ensures DirName(c, v, p)[1..] == Print(v) + (Tag(c) + Rest(c, p))
  {
    hide Print, TargetTriple, AsStr;
    assert DirName(c, v, p) == "v" + (Print(v) + (Tag(c) + Rest(c, p)));
  }

  /** A name that begins with v is read by the first tag in it. */
  lemma {:induction false} CurrentFormat(name: string, d: Component)
    requires name != "" && name[0] == 'v'
    ensures ParseDirName(name, d) ==
            if Find(name[1..], Tag(d)) >= 0 then ExtractVersion(name[1..][..Find(name[1..], Tag(d))]) else None
  {
    hide Parse, ParseCppVersion, ExtractVersion, AsStr;
  }

  /** A tag moved against itself differs in some place: no tag starts the way it ends. */
  function Difference(c: Component, k: nat): (j: nat)
    requires 0 < k < |Tag(c)|
    ensures k + j < |Tag(c)| && Tag(c)[k + j] != Tag(c)[j]
  {
    if Tag(c)[k] == '-' then 1 else 0
  }

  /** The first tag in the name is the one that was printed, unless the version holds a tag itself. */
  lemma {:induction false} FirstTag(a: string, c: Component, rest: string)
    ensures 0 <= Find(a + (Tag(c) + rest), Tag(c)) <= |a|
    ensures Find(a + (Tag(c) + rest), Tag(c)) == |a| <==> !Contains(a, Tag(c))
  {
    var t := Tag(c);
    assert t != "";
    hide Tag;
    var s := a + (t + rest);
    assert OccursAt(s, t, |a|);
    var i := Find(s, t);
    if i < |a| {
      if i + |t| <= |a| {
        OccursInPrefix(a, t + rest, t, i);
      } else {
        var k := |a| - i;
        OccursChar(s, t, i, k + Difference(c, k));
        assert false;
      }
    }
    forall k: nat | OccursAt(a, t, k) ensures i < |a| {
      OccursInPrefix(a, t + rest, t, k);
    }
  }

  /** What is extracted prints no longer than the text it came from, and shorter if a piece was dropped. */
  lemma {:induction false} ExtractedLength(s: string)
    requires ExtractVersion(s).Some?
    ensures Dashes(s) <= 1 ==> Print(ExtractVersion(s).value) == s
    ensures Dashes(s) > 1 ==> |Print(ExtractVersion(s).value)| < |s|
  {
    hide Print, Parse;
    var segments := Split(s, '-');
    JoinSplit(s, '-');
    if |segments| == 1 {
      PrintParsed(s);
    } else {
      PrintParsed(segments[0] + "-" + segments[1]);
      if |segments| == 3 {
        JoinThree(s, '-');
      } else {
        assert Join(segments[1..], '-') == segments[1];
      }
    }
  }

  lemma {:induction false} ExtractPrinted(v: Version)
    ensures ExtractVersion(Print(v)) == Some(v) <==> Dashes(Print(v)) <= 1
  {
    hide Print, Parse;
    var s := Print(v);
    if ExtractVersion(s) == Some(v) {
      ExtractedLength(s);
    }
    if Dashes(s) <= 1 {
      ParsePrinted(v);
      JoinSplit(s, '-');
      assert |Split(s, '-')| == 2 ==> Join(Split(s, '-')[1..], '-') == Split(s, '-')[1];
    }
  }

  /**
   * The name printed for a version reads as that version exactly when the version's text has at most one
   * dash and does not hold the component's own tag.
   */
  lemma {:induction false} NameReadsBackIff(c: Component, v: Version, p: Platform)
    ensures ParseDirName(DirName(c, v, p), c) == Some(v) <==> Dashes(Print(v)) <= 1 && !Contains(Print(v), Tag(c))
  {
    hide Print, ParseDirName, DirName, ExtractVersion, Tag, Rest, Dashes;
    var a := Print(v);
    var s := a + (Tag(c) + Rest(c, p));
    NameParts(c, v, p);
    CurrentFormat(DirName(c, v, p), c);
    FirstTag(a, c, Rest(c, p));
    var i := Find(s, Tag(c));
    assert s[..|a|] == a && |s[..i]| == i;
    ExtractPrinted(v);
    if i < |a| && ExtractVersion(s[..i]) == Some(v) {
      ExtractedLength(s[..i]);
      assert false;
    }
  }

  /** With two dashes the third piece is dropped, and with more the name is read as nothing. */
  lemma {:induction false} ManyDashes(c: Component, v: Version, p: Platform)
    requires !Contains(Print(v), Tag(c))
    ensures
      var read, pieces := ParseDirName(DirName(c, v, p), c), Split(Print(v), '-');
      && (|pieces| == 3 ==> read == Parse(pieces[0] + "-" + pieces[1]))
      && (|pieces| > 3 ==> read == None)
  {
    hide Print, Parse, ParseDirName, DirName, Tag, Rest;
    var a := Print(v);
    NameParts(c, v, p);
    CurrentFormat(DirName(c, v, p), c);
    FirstTag(a, c, Rest(c, p));
    assert (a + (Tag(c) + Rest(c, p)))[..|a|] == a;
  }

  lemma {:induction false} FirstReleaseWritten(v: Version)
    requires v == Parts(1, 0, 0, "", "")
    ensures Print(v) == "1.0.0"
  {
    assert ToDecimal(1) == "1" && ToDecimal(0) == "0";
  }

  /** The directories of version 1.0.0 on a Linux machine, and of the Rust toolchain on a Mac. */
  lemma {:induction false} NamesWritten(v: Version)
    requires v == Parts(1, 0, 0, "", "")
    ensures
      var linux, triple := Platform("x86_64", Linux), "x86_64" + "-unknown-linux-gnu";
      && DirName(CargoRiscZero, v, linux) == "v" + "1.0.0" + "-" + "cargo-risczero" + "-" + triple
      && DirName(RustToolchain, v, linux) == "v" + "1.0.0" + "-" + "rust" + "-" + triple
      && DirName(CppToolchain, v, linux) == "v" + "1.0.0" + "-" + "cpp" + "-" + triple
      && DirName(Gdb, v, linux) == "v" + "1.0.0" + "-" + "gdb" + "-" + triple
      && DirName(Risc0Groth16, v, linux) == "v" + "1.0.0" + "-" + "risc0-groth16"
    ensures
      var mac := Platform("aarch64", MacOs);
      DirName(RustToolchain, v, mac) == "v" + "1.0.0" + "-" + "rust" + "-" + ("aarch64" + "-apple-darwin")
    ensures forall c :: FolderOf(c) == Toolchains <==> c == RustToolchain || c == CppToolchain
    ensures forall c :: Home(c) != c <==> c == R0Vm
    ensures Home(R0Vm) == CargoRiscZero && AsStr(R0Vm) == "r0vm"
  {
    FirstReleaseWritten(v);
    hide Print;
  }

  /** 1.0.0-a-b is installed into a directory that reads as 1.0.0-a. */
  lemma {:induction false} TwoDashesMisread()
    ensures
      var v := Parts(1, 0, 0, "a-b", "");
      && IsVersion(v)
      && IsVersion(Parts(1, 0, 0, "a", ""))
      && ParseDirName(DirName(RustToolchain, v, Platform("x86_64", Linux)), RustToolchain)
         == Some(Parts(1, 0, 0, "a", ""))
  {
    var v, w := AbVersion(), AVersion();
    var head, p, c := PrintCore(v), Platform("x86_64", Linux), RustToolchain;
    var a := head + ['-'] + "a" + ['-'] + "b";
    CoreSplits(v);
    SplitThree(head, "a", "b", '-');
    assert Print(v) == a && Print(w) == head + "-" + "a";
    ParsePrinted(w);
    NameParts(c, v, p);
    FirstTag(a, c, Rest(c, p));
    forall i: nat | OccursAt(a, Tag(c), i) ensures false {
      OccursChar(a, Tag(c), i, 0);
      assert false;
    }
    hide Parse, Print, PrintCore, Split;
    assert ExtractVersion(a) == Some(w);
    CurrentFormat(DirName(c, v, p), c);
    assert (a + (Tag(c) + Rest(c, p)))[..|a|] == a;
  }

  function AbVersion(): (v: Version)
    ensures v == Parts(1, 0, 0, "a-b", "")
  {
    SplitFirst("a-b", "", '.');
    assert Split("a-b", '.') == ["a-b"] && "a-b"[0] == 'a';
    Parts(1, 0, 0, "a-b", "")
  }

  function AVersion(): (v: Version)
    ensures v == Parts(1, 0, 0, "a", "")
  {
    SplitFirst("a", "", '.');
    assert Split("a", '.') == ["a"] && "a"[0] == 'a';
    Parts(1, 0, 0, "a", "")
  }

  /** Different versions of a component never share a directory, whatever their texts. */
  lemma {:induction false} NamesAreDistinct(c: Component, v: Version, w: Version, p: Platform)
    requires DirName(c, v, p) == DirName(c, w, p)
    ensures v == w
  {
    NameParts(c, v, p);
    NameParts(c, w, p);
    SameEnd(Print(v), Print(w), Tag(c) + Rest(c, p));
    PrintIsInjective(v, w);
  }

  // ---------------------------------------------------------------- legacy names

  lemma {:induction false} VersionHasNoUnderscore(v: Version)
    ensures '_' !in Print(v)
  {
    DecimalRoundTrip(v.major);
    DecimalRoundTrip(v.minor);
    DecimalRoundTrip(v.patch);
    assert IsNumeral(ToDecimal(v.major)) && IsNumeral(ToDecimal(v.minor)) && IsNumeral(ToDecimal(v.patch));
    hide ToDecimal, Split;
    assert '_' !in PrintCore(v);
    assert '_' !in v.pre && '_' !in v.build;
    assert '_' !in Suffix('-', v.pre) && '_' !in Suffix('+', v.build);
  }

  /** The first piece of a text that has the dash is shorter than the text before any addition. */
  lemma {:induction false} FirstPieceShorter(a: string, rest: string)
    requires '-' in a
    ensures |Split(a + ['-'] + rest, '-')[0]| < |a|
  {
    var s := a + ['-'] + rest;
    var i :| 0 <= i < |a| && a[i] == '-';
    assert s[i] == '-' && IndexOf(s, '-') <= i;
  }

  lemma {:induction false} LegacyRustFormat(tail: string)
    ensures ParseDirName("r0." + tail, RustToolchain) == Parse(Split(tail, '-')[0])
  {
    hide Parse, Split, ExtractVersion, Find, ParseCppVersion;
    assert ("r0." + tail)[3..] == tail;
  }

  /** r0.<version>-..., as older versions of the manager named Rust toolchains: read back exactly without dashes. */
  lemma {:induction false} LegacyRustNameIff(v: Version, rest: string)
    ensures ParseDirName("r0." + Print(v) + "-" + rest, RustToolchain) == Some(v) <==> '-' !in Print(v)
  {
    hide Print, Parse, ExtractVersion, Split, ParseDirName;
    var tail := Print(v) + ['-'] + rest;
    LegacyRustFormat(tail);
    assert "r0." + Print(v) + "-" + rest == "r0." + tail;
    if '-' in Print(v) {
      FirstPieceShorter(Print(v), rest);
      if Parse(Split(tail, '-')[0]) == Some(v) {
        PrintParsed(Split(tail, '-')[0]);
        assert false;
      }
    } else {
      SplitFirst(Print(v), rest, '-');
      ParsePrinted(v);
    }
  }

  /** rust_<platform>_r0.<version>: every version is read back, whatever the platform. */
  lemma {:induction false} LegacyCargoRustName(v: Version, platform: string)
    ensures ParseDirName("rust_" + platform + "_r0." + Print(v), RustToolchain) == Some(v)
  {
    var tail := "r0." + Print(v);
    var name := "rust_" + platform + "_r0." + Print(v);
    VersionHasNoUnderscore(v);
    hide Print, Parse, ExtractVersion, Split;
    LastPiece("rust_" + platform, tail, '_');
    assert name == "rust_" + platform + ['_'] + tail;
    assert name[1] == 'u' && "r0."[1] == '0';
    assert "rust_" <= name && !("r0." <= name);
    assert tail[3..] == Print(v);
    ParsePrinted(v);
  }

  /** No name that begins with r is a date, so the C++ toolchain does not read the legacy names of Rust. */
  lemma {:induction false} LegacyRustHasOneReader(v: Version, platform: string)
    ensures ParseDirName("rust_" + platform + "_r0." + Print(v), CppToolchain) == None
  {
    hide Print, Split, Find, ParseCppVersion, ExtractVersion;
    var name := "rust_" + platform + "_r0." + Print(v);
    assert name[0] == "rust_"[0] == 'r';
    assert "c_"[0] == 'c' && "v"[0] == 'v';
    FirstPieceStarts(name, '-');
    NoDate(Split(name, '-')[0]);
  }

  lemma {:induction false} NoDate(s: string)
    requires s != "" && s[0] == 'r'
    ensures ParseCppVersion(s) == None
  {
    hide Split;
    FirstPieceStarts(s, '.');
  }

  lemma {:induction false} FirstPieceStarts(s: string, c: char)
    requires s != "" && s[0] != c
    ensures Split(s, c)[0] != "" && Split(s, c)[0][0] == s[0]
  {
  }

  /** A date in digits, padded or not, whose numbers fit 64 bits. */
  predicate IsDate(y: string, m: string, d: string) {
    && y != "" && m != "" && d != "" && IsDigits(y) && IsDigits(m) && IsDigits(d)
    && 0 <= DecimalValue(y) < U64_LIMIT && 0 <= DecimalValue(m) < U64_LIMIT && 0 <= DecimalValue(d) < U64_LIMIT
  }

  function Date(y: string, m: string, d: string): string {
    y + "." + m + "." + d
  }

  lemma {:induction false} DateIsVersion(y: string, m: string, d: string)
    requires IsDate(y, m, d)
    ensures ParseCppVersion(Date(y, m, d)) == Some(Parts(DecimalValue(y), DecimalValue(m), DecimalValue(d), "", ""))
    ensures '-' !in Date(y, m, d) && '_' !in Date(y, m, d)
    ensures Date(y, m, d) != "" && '0' <= Date(y, m, d)[0] <= '9'
  {
    hide Split, DecimalValue;
    SplitThree(y, m, d, '.');
    assert Date(y, m, d)[0] == y[0];
  }

  /** <date>-risc0-cpp-...: the date is the version, its zeros dropped. */
  lemma {:induction false} LegacyCppName(y: string, m: string, d: string, rest: string)
    requires IsDate(y, m, d)
    ensures ParseDirName(Date(y, m, d) + "-" + rest, CppToolchain)
         == Some(Parts(DecimalValue(y), DecimalValue(m), DecimalValue(d), "", ""))
  {
    DateIsVersion(y, m, d);
    hide ParseCppVersion, Parse, ExtractVersion, Split, DecimalValue, Date, IsDate;
    var name := Date(y, m, d) + "-" + rest;
    SplitFirst(Date(y, m, d), rest, '-');
    assert name[0] == Date(y, m, d)[0];
    assert !("c_" <= name) && !("v" <= name);
    assert name == Date(y, m, d) + ['-'] + rest;
  }

  /** c_<platform>_<date>. */
  lemma {:induction false} LegacyCargoCppName(y: string, m: string, d: string, platform: string)
    requires IsDate(y, m, d)
    ensures ParseDirName("c_" + platform + "_" + Date(y, m, d), CppToolchain)
         == Some(Parts(DecimalValue(y), DecimalValue(m), DecimalValue(d), "", ""))
  {
    DateIsVersion(y, m, d);
    hide ParseCppVersion, Parse, ExtractVersion, Split, DecimalValue, Date, IsDate;
    LastPiece("c_" + platform, Date(y, m, d), '_');
    assert "c_" <= "c_" + platform + "_" + Date(y, m, d);
  }

  // ---------------------------------------------------------------- names other components cannot read

  /** The first word of a tag. */
  function Stem(c: Component): string {
    if c == CargoRiscZero then "-cargo" else if c == Risc0Groth16 then "-risc0" else Tag(c)
  }

  predicate IsStem(t: string) {
    t != "" && t[0] == '-' && forall k :: 0 < k < |t| ==> t[k] != '-'
  }

  /** A text that begins with a dash adds no occurrence at the seam. */
  lemma {:induction false} FreeJoin(a: string, b: string, t: string)
    requires IsStem(t) && !Contains(a, t) && !Contains(b, t) && b != "" && b[0] == '-'
    ensures !Contains(a + b, t)
  {
    forall i: nat | OccursAt(a + b, t, i) ensures false {
      if i + |t| <= |a| {
        OccursInPrefix(a, b, t, i);
        assert false;
      } else if i >= |a| {
        OccursInSuffix(a, b, t, i);
        assert false;
      } else {
        OccursChar(a + b, t, i, |a| - i);
        assert false;
      }
    }
  }

  /** One word, a leading dash and no other, that differs from t at place k. */
  lemma {:induction false} FreeWord(w: string, t: string, k: nat)
    requires IsStem(t) && IsStem(w) && k < |t| && (k < |w| ==> t[k] != w[k])
    ensures !Contains(w, t)
  {
    forall i: nat | OccursAt(w, t, i) ensures false {
      OccursChar(w, t, i, 0);
      OccursChar(w, t, i, k);
      assert false;
    }
  }

  predicate IsSupportedArch(arch: string) {
    arch in {"x86", "x86_64", "arm", "aarch64"}
  }

  /** The words of the supported platforms and of the tags differ in their first two letters. */
  predicate IsTagStem(t: string) {
    IsStem(t) && |t| >= 3 && (t[1] in {'c', 'r'} || (t[1] == 'g' && t[2] == 'd'))
  }

  lemma {:induction false} ArchIsFree(arch: string, t: string)
    requires IsSupportedArch(arch) && IsTagStem(t)
    ensures !Contains("-" + arch, t)
  {
    FreeWord("-" + arch, t, 1);
  }

  lemma {:induction false} OsIsFree(a: string, os: Os, t: string)
    requires IsTagStem(t) && !Contains(a, t)
    ensures !Contains(a + if os == MacOs then "-apple-darwin" else "-unknown-linux-gnu", t)
  {
    if os == MacOs {
      FreeWord("-apple", t, 1);
      FreeWord("-darwin", t, 1);
      FreeJoin("-apple", "-darwin", t);
      assert "-apple-darwin" == "-apple" + "-darwin";
      FreeJoin(a, "-apple-darwin", t);
    } else {
      FreeWord("-unknown", t, 1);
      FreeWord("-linux", t, 1);
      FreeWord("-gnu", t, if t[1] == 'g' then 2 else 1);
      FreeJoin("-unknown", "-linux", t);
      assert "-unknown-linux" == "-unknown" + "-linux";
      FreeJoin("-unknown-linux", "-gnu", t);
      assert "-unknown-linux-gnu" == "-unknown-linux" + "-gnu";
      FreeJoin(a, "-unknown-linux-gnu", t);
    }
  }

  /** The platform never looks like a tag. */
  lemma {:induction false} PlatformIsFree(p: Platform, t: string)
    requires IsSupportedArch(p.arch) && IsTagStem(t)
    ensures !Contains("-" + TargetTriple(p), t)
  {
    ArchIsFree(p.arch, t);
    OsIsFree("-" + p.arch, p.os, t);
    Associative("-", p.arch, if p.os == MacOs then "-apple-darwin" else "-unknown-linux-gnu");
  }

  /** Where the stems of two components in one folder differ. */
  lemma {:induction false} StemsDiffer(c: Component, d: Component)
    requires c != d && c != R0Vm && d != R0Vm && FolderOf(c) == FolderOf(d)
    ensures IsTagStem(Stem(c)) && IsTagStem(Stem(d)) && Stem(c)[1] != Stem(d)[1]
  {
  }

  /** Nor does the tag of another component in the folder. */
  lemma {:induction false} TagIsFree(c: Component, d: Component)
    requires c != d && c != R0Vm && d != R0Vm && FolderOf(c) == FolderOf(d)
    ensures !Contains(Tag(c), Stem(d))
  {
    var t := Stem(d);
    StemsDiffer(c, d);
    FreeWord(Stem(c), t, 1);
    if c == CargoRiscZero {
      SecondWordIsFree("-cargo", "-risczero", t);
      assert Tag(c) == "-cargo" + "-risczero";
    } else if c == Risc0Groth16 {
      SecondWordIsFree("-risc0", "-groth16", t);
      assert Tag(c) == "-risc0" + "-groth16";
    }
  }

  lemma {:induction false} SecondWordIsFree(a: string, b: string, t: string)
    requires IsTagStem(t) && !Contains(a, t) && IsStem(b) && |b| > 5
    requires t[1] != b[1] || t[2] != b[2] || (|t| > 5 && t[5] != b[5])
    ensures !Contains(a + b, t)
  {
    FreeWord(b, t, if t[1] != b[1] then 1 else if t[2] != b[2] then 2 else 5);
    FreeJoin(a, b, t);
  }

  lemma {:induction false} StemStartsTag(c: Component, s: string)
    requires !Contains(s, Stem(c))
    ensures !Contains(s, Tag(c))
  {
    assert Stem(c) <= Tag(c);
    forall i: nat | OccursAt(s, Tag(c), i) ensures false {
      PrefixOccurs(s, Tag(c), i, Stem(c));
      assert false;
    }
  }

  /** Where the second word of a tag of two words differs from another tag. */
  function SeamDifference(c: Component, d: Component): (k: nat)
    requires c != d && c != R0Vm && d != R0Vm && FolderOf(c) == FolderOf(d) && Tag(d) != Stem(d)
    ensures k < |Tag(c)| && |Stem(d)| + k < |Tag(d)| && Tag(d)[|Stem(d)| + k] != Tag(c)[k]
  {
    if c == Gdb && d == Risc0Groth16 then 2 else if c == Risc0Groth16 then 5 else 1
  }

  lemma {:induction false} TagDashes(d: Component, k: nat)
    requires 0 < k < |Tag(d)| && Tag(d)[k] == '-'
    ensures Tag(d) != Stem(d) && k == |Stem(d)|
  {
  }

  /** What follows the version holds no tag of another component, and no such tag runs over the seam. */
  lemma {:induction false} ForeignTagInVersion(a: string, c: Component, d: Component, rest: string, i: nat)
    requires c != d && c != R0Vm && d != R0Vm && FolderOf(c) == FolderOf(d)
    requires !Contains(Tag(c) + rest, Stem(d)) && OccursAt(a + (Tag(c) + rest), Tag(d), i)
    ensures i + |Tag(d)| <= |a|
  {
    var s, tail := a + (Tag(c) + rest), Tag(c) + rest;
    assert Stem(d) <= Tag(d) && Tag(c) != "" && Tag(c)[0] == '-';
    PrefixOccurs(s, Tag(d), i, Stem(d));
    if i >= |a| {
      OccursInSuffix(a, tail, Stem(d), i);
      assert false;
    }
    if i + |Tag(d)| > |a| {
      OccursChar(s, Tag(d), i, |a| - i);
      TagDashes(d, |a| - i);
      OccursChar(s, Tag(d), i, |a| - i + SeamDifference(c, d));
      assert false;
    }
  }

  /** What a component makes of a name, from the text of the version alone; c is the component that was installed. */
  function ReadText(a: string, c: Component, d: Component): Option<Version> {
    var i := Find(a, Tag(d));
    if i >= 0 then ExtractVersion(a[..i]) else if d == c then ExtractVersion(a) else None
  }

  lemma {:induction false} RestIsFree(c: Component, p: Platform, d: Component)
    requires IsSupportedArch(p.arch) && c != R0Vm && d != R0Vm && d != c && FolderOf(c) == FolderOf(d)
    ensures !Contains(Tag(c) + Rest(c, p), Stem(d))
  {
    TagIsFree(c, d);
    StemsDiffer(c, d);
    PlatformIsFree(p, Stem(d));
    hide TargetTriple, Tag, Stem, FolderOf;
    if Rest(c, p) == "" {
      assert Tag(c) + Rest(c, p) == Tag(c);
    } else {
      FreeJoin(Tag(c), Rest(c, p), Stem(d));
    }
  }

  /** The tag a reader finds in the name is the one it finds in the version, or the printed one if it is its own. */
  lemma {:induction false} TagInName(c: Component, a: string, p: Platform, d: Component)
    requires IsSupportedArch(p.arch) && c != R0Vm && d != R0Vm && FolderOf(c) == FolderOf(d)
    ensures Find(a + (Tag(c) + Rest(c, p)), Tag(d)) ==
            if Find(a, Tag(d)) >= 0 then Find(a, Tag(d)) else if d == c then |a| else -1
  {
    var tail := Tag(c) + Rest(c, p);
    var i := Find(a + tail, Tag(d));
    if Find(a, Tag(d)) >= 0 {
      FindInLonger(a, tail, Tag(d));
    } else if d == c {
      FirstTag(a, c, Rest(c, p));
    } else if i >= 0 {
      RestIsFree(c, p, d);
      ForeignTagInVersion(a, c, d, Rest(c, p), i);
      OccursInPrefix(a, tail, Tag(d), i);
      assert false;
    }
  }

  /** Every reader of the folder, the component itself or another, reads exactly what the text of the version says. */
  lemma {:induction false} NameReadsAs(c: Component, v: Version, p: Platform, d: Component)
    requires IsSupportedArch(p.arch) && c != R0Vm && d != R0Vm && FolderOf(c) == FolderOf(d)
    ensures ParseDirName(DirName(c, v, p), d) == ReadText(Print(v), c, d)
  {
    hide Print, Tag, ExtractVersion, Rest, DirName, ParseDirName, FolderOf, IsSupportedArch;
    var a, tail := Print(v), Tag(c) + Rest(c, p);
    NameParts(c, v, p);
    TagInName(c, a, p, d);
    CurrentFormat(DirName(c, v, p), d);
    var i := Find(a, Tag(d));
    if i >= 0 {
      assert (a + tail)[..i] == a[..i];
    } else if d == c {
      assert (a + tail)[..|a|] == a;
    }
  }

  /** Another component reads the name exactly when the version holds its tag and a version stands before it. */
  lemma {:induction false} ForeignReaderIff(c: Component, v: Version, p: Platform, d: Component)
    requires IsSupportedArch(p.arch) && c != R0Vm && d != R0Vm && d != c && FolderOf(c) == FolderOf(d)
    ensures ParseDirName(DirName(c, v, p), d).Some? <==>
            Contains(Print(v), Tag(d)) && ExtractVersion(Print(v)[..Find(Print(v), Tag(d))]).Some?
  {
    NameReadsAs(c, v, p, d);
  }

  /** The name is read as (c, v) and as nothing else in its folder. */
  ghost predicate WellNamed(c: Component, v: Version, p: Platform) {
    && ParseDirName(DirName(c, v, p), c) == Some(v)
    && (forall d: Component :: d != R0Vm && d != c && FolderOf(d) == FolderOf(c) ==>
          ParseDirName(DirName(c, v, p), d) == None)
  }

  /** No component of the folder can read the name. */
  ghost predicate Unread(c: Component, v: Version, p: Platform) {
    forall d: Component :: d != R0Vm && FolderOf(d) == FolderOf(c) ==> ParseDirName(DirName(c, v, p), d) == None
  }

  /** A foreign tag with a version before it. */
  ghost predicate HoldsForeignName(a: string, c: Component) {
    exists d: Component :: d != R0Vm && d != c && FolderOf(d) == FolderOf(c) &&
      Contains(a, Tag(d)) && ExtractVersion(a[..Find(a, Tag(d))]).Some?
  }

  /**
   * On every supported platform a version is well named exactly when its text has at most one dash, does not
   * hold the component's own tag, and does not hold another tag of the folder with a version before it.
   */
  lemma {:induction false} WellNamedIff(c: Component, v: Version, p: Platform)
    requires IsSupportedArch(p.arch) && c != R0Vm
    ensures WellNamed(c, v, p) <==>
            Dashes(Print(v)) <= 1 && !Contains(Print(v), Tag(c)) && !HoldsForeignName(Print(v), c)
  {
    NameReadsBackIff(c, v, p);
    hide Print, ParseDirName, DirName, Dashes, Tag, ExtractVersion;
    forall d: Component | d != R0Vm && d != c && FolderOf(d) == FolderOf(c)
      ensures ParseDirName(DirName(c, v, p), d).Some? <==>
              Contains(Print(v), Tag(d)) && ExtractVersion(Print(v)[..Find(Print(v), Tag(d))]).Some?
    {
      ForeignReaderIff(c, v, p, d);
    }
  }

  lemma {:induction false} CppPrinted(v: Version, w: Version)
    requires v.pre == "cpp" && v.build == "" && w == Parts(v.major, v.minor, v.patch, "", "")
    ensures Print(v) == PrintCore(w) + "-cpp" && Print(w) == PrintCore(w)
  {
    hide IsVersion, ToDecimal;
    assert PrintCore(v) == PrintCore(w);
    hide PrintCore;
  }

  lemma {:induction false} CppText(v: Version, w: Version)
    requires v.pre == "cpp" && v.build == "" && w == Parts(v.major, v.minor, v.patch, "", "")
    ensures Dashes(Print(v)) == 1 && !Contains(Print(v), Tag(RustToolchain))
    ensures ReadText(Print(v), RustToolchain, CppToolchain) == Some(w)
  {
    hide PrintCore, Parse, Print, Split, Tag, IsVersion;
    var core := PrintCore(w);
    CoreSplits(w);
    CppPrinted(v, w);
    ParsePrinted(w);
    SplitFirst(core, "cpp", '-');
    SplitFirst("cpp", "", '-');
    assert core + "-cpp" == core + ['-'] + "cpp";
    SplitFirst(core, "", '-');
    OnlyDash(core, CppToolchain);
    OnlyDash(core, RustToolchain);
    assert (core + "-cpp")[..|core|] == core;
  }

  /** A pre-release called cpp of the Rust toolchain is read by the C++ toolchain too, as the release. */
  lemma {:induction false} CppPreReleaseHasTwoReaders(v: Version, p: Platform)
    requires v.pre == "cpp" && v.build == "" && IsSupportedArch(p.arch)
    ensures ParseDirName(DirName(RustToolchain, v, p), RustToolchain) == Some(v)
    ensures ParseDirName(DirName(RustToolchain, v, p), CppToolchain) == Some(Parts(v.major, v.minor, v.patch, "", ""))
  {
    CppText(v, Parts(v.major, v.minor, v.patch, "", ""));
    NameReadsAs(RustToolchain, v, p, CppToolchain);
    NameReadsBackIff(RustToolchain, v, p);
  }

  /** 1.0.0-cpp is such a version. */
  function CppVersion(): (v: Version)
    ensures v == Parts(1, 0, 0, "cpp", "")
  {
    SplitFirst("cpp", "", '.');
    assert Split("cpp", '.') == ["cpp"] && "cpp"[0] == 'c';
    Parts(1, 0, 0, "cpp", "")
  }

  /** After a text without dashes, -cpp is where the only dash stands. */
  lemma {:induction false} OnlyDash(core: string, d: Component)
    requires '-' !in core && d in {CppToolchain, RustToolchain}
    ensures d == CppToolchain ==> Find(core + "-cpp", Tag(d)) == |core|
    ensures d == RustToolchain ==> !Contains(core + "-cpp", Tag(d))
  {
    var s := core + "-cpp";
    assert d == CppToolchain ==> OccursAt(s, Tag(d), |core|);
    forall i: nat | OccursAt(s, Tag(d), i) ensures i == |core| && d == CppToolchain {
      OccursChar(s, Tag(d), i, 0);
      OccursChar(s, Tag(d), i, 1);
    }
  }

  /** The text of a version has at most one dash and no word that starts a tag. */
  ghost predicate PlainText(v: Version) {
    Dashes(Print(v)) <= 1 && forall d: Component :: d != R0Vm ==> !Contains(Print(v), Stem(d))
  }

  /** Versions with plain text are well named for every component on every supported platform. */
  lemma {:induction false} PlainIsWellNamed(c: Component, v: Version, p: Platform)
    requires PlainText(v) && IsSupportedArch(p.arch) && c != R0Vm
    ensures WellNamed(c, v, p)
  {
    WellNamedIff(c, v, p);
    hide Print, WellNamed, Dashes, Stem, Tag;
    forall d: Component | d != R0Vm ensures !Contains(Print(v), Tag(d)) {
      StemStartsTag(d, Print(v));
    }
  }

  /**
   * Texts without dashes of their own are plain when the pre-release does not start like a component's name;
   * so are all releases.
   */
  lemma {:induction false} DashlessIsPlain(v: Version)
    requires '-' !in v.pre && '-' !in v.build
    requires v.pre != "" ==> forall d: Component :: d != R0Vm ==> !(Stem(d)[1..] <= v.pre)
    ensures PlainText(v)
  {
    var core, end := PrintCore(v), Suffix('+', v.build);
    CoreSplits(v);
    DashesOfPrint(v);
    NeitherHolds("+", v.build, '-');
    hide PrintCore, Split, Suffix, Stem, IsStem, Dashes, AsStr;
    Associative(core, Suffix('-', v.pre), end);
    forall d: Component, i: nat | d != R0Vm && OccursAt(Print(v), Stem(d), i) ensures false {
      StemShape(d);
      StemIsNotThere(core, v.pre, end, Stem(d), i);
    }
  }

  lemma {:induction false} StemShape(d: Component)
    ensures IsStem(Stem(d)) && '+' !in Stem(d)
  {
  }

  lemma {:induction false} NeitherHolds(a: string, b: string, c: char)
    requires c !in a && c !in b
    ensures c !in a + b
  {
  }

  /** The only dash stands before the pre-release. */
  lemma {:induction false} DashesOfPrint(v: Version)
    requires '-' !in v.pre && '-' !in v.build
    ensures Dashes(Print(v)) <= 1
  {
    var core, end := PrintCore(v), Suffix('+', v.build);
    CoreSplits(v);
    NeitherHolds("+", v.build, '-');
    NeitherHolds(v.pre, end, '-');
    hide PrintCore, Split;
    if v.pre == "" {
      assert core + Suffix('-', v.pre) == core;
      NeitherHolds(core, end, '-');
      SplitFirst(Print(v), "", '-');
    } else {
      SplitFirst(core, v.pre + end, '-');
      SplitFirst(v.pre + end, "", '-');
      Associative(core, ['-'], v.pre);
      Associative(core + ['-'], v.pre, end);
    }
  }

  /** A stem occurs in the text only where its letters start the pre-release. */
  lemma {:induction false} StemIsNotThere(core: string, pre: string, end: string, t: string, i: nat)
    requires '-' !in core && '-' !in pre && '-' !in end && (end != "" ==> end[0] == '+')
    requires IsStem(t) && '+' !in t && (pre != "" ==> !(t[1..] <= pre))
    ensures !OccursAt(core + (Suffix('-', pre) + end), t, i)
  {
    var tail := Suffix('-', pre) + end;
    if OccursAt(core + tail, t, i) {
      OccursChar(core + tail, t, i, 0);
      if i >= |core| {
        OccursInSuffix(core, tail, t, i);
        StemInTail(pre, end, t, i - |core|);
      }
      assert false;
    }
  }

  lemma {:induction false} StemInTail(pre: string, end: string, t: string, i: nat)
    requires '-' !in pre && '-' !in end && (end != "" ==> end[0] == '+')
    requires IsStem(t) && '+' !in t && OccursAt(Suffix('-', pre) + end, t, i)
    ensures pre != "" && t[1..] <= pre
  {
    var s, n := Suffix('-', pre) + end, |pre| + 1;
    OccursChar(s, t, i, 0);
    DashInTail(pre, end, i);
    if |t| > n {
      OccursChar(s, t, i, n);
      assert false;
    }
    forall k | 0 <= k < |t| - 1 ensures t[1..][k] == pre[k] {
      OccursChar(s, t, i, k + 1);
    }
  }

  lemma {:induction false} DashInTail(pre: string, end: string, i: nat)
    requires '-' !in pre && '-' !in end && i < |Suffix('-', pre) + end| && (Suffix('-', pre) + end)[i] == '-'
    ensures pre != "" && i == 0
  {
  }
}
