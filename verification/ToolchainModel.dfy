/**
 * The toolchain registry as a state machine: recorded defaults and two folders of version directories,
 * changed by installs, uninstalls and changes of default, each of which may fail half way.
 */
module ToolchainModel {
  import opened Prelude
  import opened Text
  import opened Versions
  import opened ToolchainPaths

  datatype State = State(defaults: map<string, string>, toolchains: set<string>, extensions: set<string>)

  function DirsOf(s: State, c: Component): set<string> {
    if FolderOf(c) == Toolchains then s.toolchains else s.extensions
  }

  function WithDirs(s: State, c: Component, dirs: set<string>): State {
    if FolderOf(c) == Toolchains then s.(toolchains := dirs) else s.(extensions := dirs)
  }

  predicate Reads(name: string, c: Component, v: Version) {
    ParseDirName(name, c) == Some(v)
  }

  /** Some directory holds version v of c. */
  ghost predicate Found(dirs: set<string>, c: Component, v: Version) {
    exists d :: d in dirs && Reads(d, c, v)
  }

  function Recorded(defaults: map<string, string>, c: Component): Option<Version> {
    if AsStr(c) in defaults then Parse(defaults[AsStr(c)]) else None
  }

  // ---------------------------------------------------------------- the default version

  ghost predicate IsHighest(dirs: set<string>, c: Component, v: Version) {
    Found(dirs, c, v) && forall w: Version :: Found(dirs, c, w) ==> Compare(w, v) != Greater
  }

  lemma {:induction false} HighestExists(dirs: set<string>, c: Component, v: Version)
    ensures Found(dirs, c, v) ==> exists w: Version :: IsHighest(dirs, c, w)
    decreases |dirs|
  {
    hide Compare, ParseDirName;
    if Found(dirs, c, v) {
      var d :| d in dirs && Reads(d, c, v);
      var rest := dirs - {d};
      assert forall w: Version :: Found(dirs, c, w) ==> w == v || Found(rest, c, w);
      VersionOrder(v, v, v);
      if w: Version :| Found(rest, c, w) {
        HighestExists(rest, c, w);
        var h: Version :| IsHighest(rest, c, h);
        HigherOfTwo(dirs, rest, c, v, h);
      } else {
        assert IsHighest(dirs, c, v);
      }
    }
  }

  /** The highest of the rest, or the version added to it. */
  lemma {:induction false} HigherOfTwo(dirs: set<string>, rest: set<string>, c: Component, v: Version, h: Version)
    requires rest <= dirs && IsHighest(rest, c, h) && Found(dirs, c, v)
    requires forall w: Version :: Found(dirs, c, w) ==> w == v || Found(rest, c, w)
    ensures exists w: Version :: IsHighest(dirs, c, w)
  {
    hide Compare, ParseDirName;
    var best := if Compare(h, v) == Greater then h else v;
    forall w: Version | Found(dirs, c, w) ensures Compare(w, best) != Greater {
      VersionOrder(w, h, v);
      VersionOrder(h, v, h);
      VersionOrder(w, v, h);
      VersionOrder(v, v, v);
    }
    assert Found(dirs, c, best);
    assert IsHighest(dirs, c, best);
  }

  lemma {:induction false} HighestIsUnique(dirs: set<string>, c: Component, v: Version, w: Version)
    requires IsHighest(dirs, c, v) && IsHighest(dirs, c, w)
    ensures v == w
  {
    VersionOrder(v, w, v);
  }

  /** The highest installed version, when there is one. */
  ghost function Highest(dirs: set<string>, c: Component): (r: Option<Version>)
    ensures r.Some? ==> IsHighest(dirs, c, r.value)
    ensures r.None? ==> forall v: Version :: !IsHighest(dirs, c, v)
  {
    if v: Version :| IsHighest(dirs, c, v) then Some(v) else None
  }

  lemma {:induction false} HighestIff(dirs: set<string>, c: Component)
    ensures Highest(dirs, c).Some? <==> exists v: Version :: Found(dirs, c, v)
  {
    if v: Version :| Found(dirs, c, v) {
      HighestExists(dirs, c, v);
    }
  }

  /** The recorded default while it is installed, else the highest version. */
  ghost function Choose(dirs: set<string>, c: Component, recorded: Option<Version>): Option<Version> {
    if recorded.Some? && Found(dirs, c, recorded.value) then recorded else Highest(dirs, c)
  }

  /** Looking into a C++ toolchain directory needs the archive name, which some platforms do not have. */
  predicate Unreadable(c: Component, p: Platform) {
    c == CppToolchain && !HasAsset(c, p)
  }

  ghost function Default(s: State, c: Component, p: Platform): Result<Option<Version>> {
    var chosen := Choose(DirsOf(s, Home(c)), Home(c), Recorded(s.defaults, c));
    if chosen.Some? && Unreadable(Home(c), p) then Err else Ok(chosen)
  }

  /**
   * A default exists exactly when a version is installed. It is the recorded version while that one is installed,
   * and otherwise no installed version is higher.
   */
  lemma {:induction false} DefaultIffInstalled(s: State, c: Component, p: Platform)
    requires !Unreadable(Home(c), p)
    ensures Default(s, c, p).Ok?
    ensures Default(s, c, p).value.Some? <==> exists v: Version :: Found(DirsOf(s, Home(c)), Home(c), v)
    ensures Default(s, c, p).value.Some? ==>
              var dirs, h, v := DirsOf(s, Home(c)), Home(c), Default(s, c, p).value.value;
              var recorded := Recorded(s.defaults, c);
              && Found(dirs, h, v)
              && (if recorded.Some? && Found(dirs, h, recorded.value) then v == recorded.value
                  else forall w: Version :: Found(dirs, h, w) ==>
                         Compare(w, v) != Greater && Precedence(w, v) != Greater)
  {
    HighestIff(DirsOf(s, Home(c)), Home(c));
    forall v: Version, w: Version ensures Compare(w, v) != Greater ==> Precedence(w, v) != Greater {
      PrecedenceDecides(w, v);
    }
  }

  /** The lookup fails exactly for an installed C++ toolchain on a platform without an archive of it. */
  lemma {:induction false} DefaultFailsIff(s: State, c: Component, p: Platform)
    ensures Default(s, c, p).Err? <==>
            && c == CppToolchain && p != Platform("x86_64", Linux) && p != Platform("aarch64", MacOs)
            && exists v: Version :: Found(DirsOf(s, c), c, v)
  {
    AssetsExist(Home(c), p);
    HighestIff(DirsOf(s, Home(c)), Home(c));
  }

  // ---------------------------------------------------------------- steps

  /** Whether the settings file and the link could be written; one component has no link. */
  datatype Writes = Writes(saved: bool, linked: bool)

  /** What the file system and the network let happen. */
  datatype Io = Io(removed: bool, fetched: bool, first: Writes, second: Writes)

  datatype Outcome = Outcome(state: State, ok: bool)

  ghost function SetDefault(s: State, c: Component, v: Version, p: Platform, w: Writes): Outcome {
    var h := Home(c);
    if !Found(DirsOf(s, h), h, v) || Unreadable(h, p) then Outcome(s, false)
    else Outcome(s.(defaults := s.defaults[AsStr(c) := Print(v)]), w.saved && (w.linked || c == Risc0Groth16))
  }

  /** One directory of that version goes, if there is any. */
  ghost predicate Cleaned(before: set<string>, c: Component, v: Version, after: set<string>) {
    if Found(before, c, v) then exists d :: d in before && Reads(d, c, v) && after == before - {d}
    else after == before
  }

  /** The part of an install after old copies are gone. */
  ghost function Finish(s: State, c: Component, v: Version, p: Platform, io: Io): Outcome {
    var h := Home(c);
    if !HasAsset(h, p) || !io.fetched then Outcome(s, false)
    else
      var placed := WithDirs(s, h, DirsOf(s, h) + {DirName(h, v, p)});
      var first := SetDefault(placed, c, v, p, io.first);
      if first.ok && Recorded(first.state.defaults, h) == None then SetDefault(first.state, h, v, p, io.second)
      else first
  }

  ghost predicate InstallStep(s: State, c: Component, v: Version, force: bool, p: Platform, io: Io, r: Outcome) {
    var h := Home(c);
    if Found(DirsOf(s, h), h, v) then
      if !force then r == SetDefault(s, c, v, p, io.first)
      else if !io.removed then r == Outcome(s, false)
      else exists dirs :: Cleaned(DirsOf(s, h), h, v, dirs) && r == Finish(WithDirs(s, h, dirs), c, v, p, io)
    else r == Finish(s, c, v, p, io)
  }

  ghost function FindNewDefault(s: State, c: Component, v: Version, p: Platform, w: Writes): Outcome {
    var highest := Highest(DirsOf(s, Home(c)), Home(c));
    if Recorded(s.defaults, c) == Some(v) && highest.Some? then SetDefault(s, c, highest.value, p, w)
    else Outcome(s, true)
  }

  /** The defaults of the home component, then of the component itself. */
  ghost function NewDefaults(s: State, c: Component, v: Version, p: Platform, io: Io): Outcome {
    var first := if Home(c) == c then Outcome(s, true) else FindNewDefault(s, Home(c), v, p, io.first);
    if first.ok then FindNewDefault(first.state, c, v, p, io.second) else first
  }

  ghost predicate UninstallStep(s: State, c: Component, v: Version, p: Platform, io: Io, r: Outcome) {
    var h := Home(c);
    if Found(DirsOf(s, h), h, v) && !io.removed then r == Outcome(s, false)
    else exists dirs :: Cleaned(DirsOf(s, h), h, v, dirs) && r == NewDefaults(WithDirs(s, h, dirs), c, v, p, io)
  }

  datatype Op =
    | Install(c: Component, v: Version, force: bool, io: Io)
    | Uninstall(c: Component, v: Version, io: Io)
    | MakeDefault(c: Component, v: Version, w: Writes)

  ghost predicate Step(s: State, op: Op, p: Platform, r: Outcome) {
    match op
    case Install(c, v, force, io) => InstallStep(s, c, v, force, p, io, r)
    case Uninstall(c, v, io) => UninstallStep(s, c, v, p, io, r)
    case MakeDefault(c, v, w) => r == SetDefault(s, c, v, p, w)
  }

  ghost predicate StepAt(states: seq<State>, ops: seq<Op>, oks: seq<bool>, p: Platform, i: nat)
    requires i < |ops| == |oks| && |states| == |ops| + 1
  {
    Step(states[i], ops[i], p, Outcome(states[i + 1], oks[i]))
  }

  /** A run: every step, successful or not, leads to the next state. */
  ghost predicate IsRun(states: seq<State>, ops: seq<Op>, oks: seq<bool>, p: Platform) {
    && |states| == |ops| + 1 && |oks| == |ops|
    && forall i :: 0 <= i < |ops| ==> StepAt(states, ops, oks, p, i)
  }

  // ---------------------------------------------------------------- one directory per version

  /** No two directories hold one version of c. */
  ghost predicate OnePerVersion(dirs: set<string>, c: Component) {
    forall d, e, v :: d in dirs && e in dirs && Reads(d, c, v) && Reads(e, c, v) ==> d == e
  }

  /** At most one directory holds version v of c. */
  ghost predicate OneHolder(dirs: set<string>, c: Component, v: Version) {
    forall d, e :: d in dirs && e in dirs && Reads(d, c, v) && Reads(e, c, v) ==> d == e
  }

  /** No directory is read by two components of the folder. */
  ghost predicate OneReader(dirs: set<string>, f: Folder) {
    forall d, a, b ::
      && d in dirs && FolderOf(a) == f && FolderOf(b) == f && a != R0Vm && b != R0Vm
      && ParseDirName(d, a).Some? && ParseDirName(d, b).Some?
      ==> a == b
  }

  ghost predicate TidyFolder(dirs: set<string>, f: Folder) {
    OneReader(dirs, f) && forall c: Component :: FolderOf(c) == f && c != R0Vm ==> OnePerVersion(dirs, c)
  }

  ghost predicate Tidy(s: State) {
    TidyFolder(s.toolchains, Toolchains) && TidyFolder(s.extensions, Extensions)
  }

  /** The name of a new directory is read as (c, v) and nothing else, or by nobody. */
  ghost predicate Harmless(c: Component, v: Version, p: Platform) {
    WellNamed(c, v, p) || Unread(c, v, p)
  }

  /** An operation that installs does so under a harmless name. */
  ghost predicate OpWellNamed(op: Op, p: Platform) {
    op.Install? ==> Harmless(Home(op.c), op.v, p)
  }

  /**
   * On supported platforms a name is harmless exactly when the text of the version has at most one dash, not the
   * component's own tag, and no other tag of the folder with a version before it; or when no reader of the folder
   * makes a version of it.
   */
  lemma {:induction false} HarmlessIff(c: Component, v: Version, p: Platform)
    requires IsSupportedArch(p.arch) && c != R0Vm
    ensures Harmless(c, v, p) <==>
            || (Dashes(Print(v)) <= 1 && !Contains(Print(v), Tag(c)) && !HoldsForeignName(Print(v), c))
            || (forall d: Component :: d != R0Vm && FolderOf(d) == FolderOf(c) ==> ReadText(Print(v), c, d) == None)
  {
    WellNamedIff(c, v, p);
    hide WellNamed, Print, ParseDirName, DirName, ReadText, HoldsForeignName, Dashes;
    forall d: Component | d != R0Vm && FolderOf(d) == FolderOf(c)
      ensures ParseDirName(DirName(c, v, p), d) == ReadText(Print(v), c, d)
    {
      NameReadsAs(c, v, p, d);
    }
  }

  lemma {:induction false} HarmlessReads(c: Component, v: Version, p: Platform, a: Component, w: Version)
    requires Harmless(c, v, p) && a != R0Vm && FolderOf(a) == FolderOf(c) && Reads(DirName(c, v, p), a, w)
    ensures a == c && w == v
  {
    hide ParseDirName, DirName;
  }

  lemma {:induction false} TidyGrows(dirs: set<string>, c: Component, v: Version, p: Platform)
    requires TidyFolder(dirs, FolderOf(c)) && Harmless(c, v, p) && c != R0Vm && !Found(dirs, c, v)
    ensures TidyFolder(dirs + {DirName(c, v, p)}, FolderOf(c))
  {
    hide ParseDirName, DirName;
    var name := DirName(c, v, p);
    forall a: Component, d, e, w | FolderOf(a) == FolderOf(c) && a != R0Vm && d in dirs + {name} && e in dirs + {name}
                                   && Reads(d, a, w) && Reads(e, a, w)
      ensures d == e
    {
      if d in dirs && e in dirs {
        assert OnePerVersion(dirs, a);
      } else if d != e {
        HarmlessReads(c, v, p, a, w);
        assert false;
      }
    }
  }

  /** After removing the one directory of v, exactly v is gone, and no other component lost anything. */
  lemma {:induction false} CleanedExactly(before: set<string>, c: Component, v: Version, after: set<string>)
    requires TidyFolder(before, FolderOf(c)) && c != R0Vm && Cleaned(before, c, v, after)
    ensures TidyFolder(after, FolderOf(c))
    ensures forall w: Version :: Found(after, c, w) <==> Found(before, c, w) && w != v
    ensures forall a: Component, w: Version :: FolderOf(a) == FolderOf(c) && a != R0Vm && a != c ==>
              (Found(after, a, w) <==> Found(before, a, w))
  {
    hide ParseDirName;
    assert OnePerVersion(before, c);
    if Found(before, c, v) {
      var d :| d in before && Reads(d, c, v) && after == before - {d};
      forall w: Version | Found(before, c, w) && w != v ensures Found(after, c, w) {
        var e :| e in before && Reads(e, c, w);
        assert e in after;
      }
      forall a: Component, w: Version | FolderOf(a) == FolderOf(c) && a != R0Vm && a != c && Found(before, a, w)
        ensures Found(after, a, w)
      {
        var e :| e in before && Reads(e, a, w);
        assert e in after;
      }
    }
  }

  /** Without tidiness: an uninstall makes the version disappear exactly when one directory at most held it. */
  lemma {:induction false} DisappearsIff(before: set<string>, c: Component, v: Version, after: set<string>)
    requires Cleaned(before, c, v, after)
    ensures !Found(after, c, v) <==> OneHolder(before, c, v)
  {
    hide ParseDirName;
    if Found(before, c, v) {
      var d :| d in before && Reads(d, c, v) && after == before - {d};
      if e :| e in after && Reads(e, c, v) {
        assert d in before && e in before && d != e;
      }
      forall a, b | a in before && b in before && Reads(a, c, v) && Reads(b, c, v) && !Found(after, c, v)
        ensures a == b
      {
        assert a == d || a in after;
        assert b == d || b in after;
      }
    }
  }

  /** New directories of (c, v) keep every folder tidy. */
  ghost predicate KeepsTidy(c: Component, v: Version, p: Platform) {
    forall dirs :: TidyFolder(dirs, FolderOf(c)) && !Found(dirs, c, v) ==>
      TidyFolder(dirs + {DirName(c, v, p)}, FolderOf(c))
  }

  /** A folder of one directory is tidy when only a reads it. */
  lemma {:induction false} SingleIsTidy(name: string, a: Component)
    requires forall b: Component :: b != R0Vm && b != a && FolderOf(b) == FolderOf(a) ==> ParseDirName(name, b) == None
    ensures TidyFolder({name}, FolderOf(a))
  {
    hide ParseDirName;
  }

  /** Two directories that a reads as one version are not tidy. */
  lemma {:induction false} DoubledIsUntidy(dirs: set<string>, d: string, e: string, a: Component, w: Version)
    requires d in dirs && e in dirs && d != e && Reads(d, a, w) && Reads(e, a, w) && a != R0Vm
    ensures !OnePerVersion(dirs, a) && !TidyFolder(dirs, FolderOf(a))
  {
    hide ParseDirName;
  }

  /**
   * New directories of (c, v) keep every tidy folder tidy exactly when no component of the folder reads the name,
   * or c alone does, as v. A name with two readers spoils the empty folder; one with a single reader, but not as
   * (c, v), doubles a version in the folder that holds the same name with a longer ending.
   */
  lemma {:induction false} NewNameKeepsTidyIff(c: Component, v: Version, p: Platform)
    requires c != R0Vm
    ensures KeepsTidy(c, v, p) <==> Harmless(c, v, p)
  {
    hide ParseDirName, DirName, TidyFolder, WellNamed, Unread, Found;
    if Harmless(c, v, p) {
      forall dirs | TidyFolder(dirs, FolderOf(c)) && !Found(dirs, c, v)
        ensures TidyFolder(dirs + {DirName(c, v, p)}, FolderOf(c))
      {
        TidyGrows(dirs, c, v, p);
      }
    } else {
      HarmfulName(c, v, p);
    }
  }

  lemma {:induction false} HarmfulName(c: Component, v: Version, p: Platform)
    requires c != R0Vm && !Harmless(c, v, p)
    ensures !KeepsTidy(c, v, p)
  {
    hide ParseDirName, DirName, TidyFolder;
    var name, f := DirName(c, v, p), FolderOf(c);
    var a: Component :| a != R0Vm && FolderOf(a) == f && ParseDirName(name, a).Some? &&
                        !(a == c && ParseDirName(name, a) == Some(v));
    if b: Component :| b != R0Vm && b != a && FolderOf(b) == f && ParseDirName(name, b).Some? {
      TwoReadersSpoil(c, v, p, a, b);
    } else {
      OneReaderDoubles(c, v, p, a);
    }
  }

  lemma {:induction false} TwoReadersSpoil(c: Component, v: Version, p: Platform, a: Component, b: Component)
    requires a != b && a != R0Vm && b != R0Vm && FolderOf(a) == FolderOf(b) == FolderOf(c)
    requires ParseDirName(DirName(c, v, p), a).Some? && ParseDirName(DirName(c, v, p), b).Some?
    ensures !KeepsTidy(c, v, p)
  {
    hide ParseDirName, DirName;
    var empty: set<string> := {};
    assert TidyFolder(empty, FolderOf(c)) && !Found(empty, c, v);
    assert DirName(c, v, p) in empty + {DirName(c, v, p)};
    assert !OneReader(empty + {DirName(c, v, p)}, FolderOf(c));
  }

  lemma {:induction false} OneReaderDoubles(c: Component, v: Version, p: Platform, a: Component)
    requires a != R0Vm && FolderOf(a) == FolderOf(c) && ParseDirName(DirName(c, v, p), a).Some?
    requires !(a == c && ParseDirName(DirName(c, v, p), a) == Some(v)) && c != R0Vm
    requires forall b: Component :: b != R0Vm && b != a && FolderOf(b) == FolderOf(c) ==>
               ParseDirName(DirName(c, v, p), b) == None
    ensures !KeepsTidy(c, v, p)
  {
    hide ParseDirName, DirName, TidyFolder;
    var name := DirName(c, v, p);
    var sibling := name + "x";
    forall b: Component ensures ParseDirName(sibling, b) == ParseDirName(name, b) {
      SiblingReads(c, v, p, b);
    }
    SingleIsTidy(sibling, a);
    assert !Found({sibling}, c, v);
    DoubledIsUntidy({sibling} + {name}, sibling, name, a, ParseDirName(name, a).value);
  }

  /** For c's own directories alone: one per version is kept exactly when the new name reads as v or as nothing. */
  lemma {:induction false} NewNameKeepsOneIff(c: Component, v: Version, p: Platform)
    ensures (forall dirs :: OnePerVersion(dirs, c) && !Found(dirs, c, v) ==>
               OnePerVersion(dirs + {DirName(c, v, p)}, c))
            <==> ParseDirName(DirName(c, v, p), c) in {None, Some(v)}
  {
    var name := DirName(c, v, p);
    var read := ParseDirName(name, c);
    SiblingReads(c, v, p, c);
    hide ParseDirName, DirName;
    if read in {None, Some(v)} {
      forall dirs | OnePerVersion(dirs, c) && !Found(dirs, c, v) ensures OnePerVersion(dirs + {name}, c) {
      }
    } else {
      var sibling := name + "x";
      var dirs := {sibling};
      assert Reads(sibling, c, read.value) && Reads(name, c, read.value);
      assert OnePerVersion(dirs, c) && !Found(dirs, c, v);
      assert sibling in dirs + {name} && name in dirs + {name};
      assert !OnePerVersion(dirs + {name}, c);
    }
  }

  /** A longer ending does not change what a name reads as. */
  lemma {:induction false} SiblingReads(c: Component, v: Version, p: Platform, d: Component)
    ensures ParseDirName(DirName(c, v, p) + "x", d) == ParseDirName(DirName(c, v, p), d)
  {
    var name := DirName(c, v, p);
    NameParts(c, v, p);
    NoTagHoldsX(d);
    hide DirName, Tag, ParseDirName, ExtractVersion;
    var s := name[1..];
    FindWithForeignEnd(s, 'x', Tag(d));
    CurrentFormat(name, d);
    CurrentFormat(name + "x", d);
    assert (name + "x")[1..] == s + ['x'];
    var i := Find(s, Tag(d));
    if i >= 0 {
      assert (s + ['x'])[..i] == s[..i];
    }
  }

  lemma {:induction false} NoTagHoldsX(d: Component)
    ensures Tag(d) != "" && 'x' !in Tag(d)
  {
  }

  /** Installing rust 1.0.0-cpp beside cpp 1.0.0 leaves two directories that hold cpp 1.0.0. */
  lemma {:induction false} CppPreReleaseDoubles(p: Platform)
    requires IsSupportedArch(p.arch)
    ensures ParseDirName(DirName(RustToolchain, CppVersion(), p), RustToolchain) == Some(CppVersion())
    ensures !KeepsTidy(RustToolchain, CppVersion(), p)
    ensures
      var release: Version := Parts(1, 0, 0, "", "");
      var dirs := {DirName(CppToolchain, release, p), DirName(RustToolchain, CppVersion(), p)};
      && Reads(DirName(CppToolchain, release, p), CppToolchain, release)
      && !OnePerVersion(dirs, CppToolchain)
  {
    var v, release: Version := CppVersion(), Parts(1, 0, 0, "", "");
    var mine, other := DirName(RustToolchain, v, p), DirName(CppToolchain, release, p);
    CppPreReleaseHasTwoReaders(v, p);
    TwoReadersSpoil(RustToolchain, v, p, RustToolchain, CppToolchain);
    DashlessIsPlain(release);
    PlainIsWellNamed(CppToolchain, release, p);
    hide DirName, ParseDirName, KeepsTidy;
    NamesOfTwoComponents(release, v, p);
    DoubledIsUntidy({other, mine}, other, mine, CppToolchain, release);
  }

  /** The C++ toolchain's own name is not read by the Rust toolchain, so the two names differ. */
  lemma {:induction false} NamesOfTwoComponents(release: Version, v: Version, p: Platform)
    requires WellNamed(CppToolchain, release, p)
    requires ParseDirName(DirName(RustToolchain, v, p), RustToolchain) == Some(v)
    ensures DirName(CppToolchain, release, p) != DirName(RustToolchain, v, p)
  {
    hide DirName, ParseDirName;
    assert ParseDirName(DirName(CppToolchain, release, p), RustToolchain) == None;
  }

  lemma {:induction false} SetDefaultKeepsDirs(s: State, c: Component, v: Version, p: Platform, w: Writes)
    ensures SetDefault(s, c, v, p, w).state.toolchains == s.toolchains
    ensures SetDefault(s, c, v, p, w).state.extensions == s.extensions
  {
  }

  lemma {:induction false} FinishDirs(s: State, c: Component, v: Version, p: Platform, io: Io)
    ensures
      var t, h := Finish(s, c, v, p, io).state, Home(c);
      var placed := WithDirs(s, h, DirsOf(s, h) + {DirName(h, v, p)});
      if HasAsset(h, p) && io.fetched then t.toolchains == placed.toolchains && t.extensions == placed.extensions
      else t == s
  {
    hide DirName, Found, Parse, Print, Unreadable, HasAsset;
  }

  lemma {:induction false} NewDefaultsDirs(s: State, c: Component, v: Version, p: Platform, io: Io)
    ensures NewDefaults(s, c, v, p, io).state.toolchains == s.toolchains
    ensures NewDefaults(s, c, v, p, io).state.extensions == s.extensions
  {
    hide Found, Parse, Print, Unreadable, Highest;
  }

  lemma {:induction false} FinishKeepsTidy(s: State, c: Component, v: Version, p: Platform, io: Io)
    requires Tidy(s) && Harmless(Home(c), v, p) && !Found(DirsOf(s, Home(c)), Home(c), v)
    ensures Tidy(Finish(s, c, v, p, io).state)
  {
    FinishDirs(s, c, v, p, io);
    hide Finish, TidyFolder, DirName, Found, Harmless;
    TidyGrows(DirsOf(s, Home(c)), Home(c), v, p);
  }

  /** Every operation keeps the folders tidy, whether it succeeds or fails part way. */
  lemma {:induction false} StepKeepsTidy(s: State, op: Op, p: Platform, r: Outcome)
    requires Tidy(s) && Step(s, op, p, r) && OpWellNamed(op, p)
    ensures Tidy(r.state)
  {
    hide Found, TidyFolder, Finish, NewDefaults, Harmless, Cleaned;
    var h := Home(op.c);
    var dirs := DirsOf(s, h);
    match op {
      case MakeDefault(c, v, w) =>
        SetDefaultKeepsDirs(s, c, v, p, w);
      case Install(c, v, force, io) =>
        if !Found(dirs, h, v) {
          FinishKeepsTidy(s, c, v, p, io);
        } else if !force {
          SetDefaultKeepsDirs(s, c, v, p, io.first);
        } else if io.removed {
          var after :| Cleaned(dirs, h, v, after) && r == Finish(WithDirs(s, h, after), c, v, p, io);
          CleanedExactly(dirs, h, v, after);
          FinishKeepsTidy(WithDirs(s, h, after), c, v, p, io);
        }
      case Uninstall(c, v, io) =>
        if !Found(dirs, h, v) || io.removed {
          var after :| Cleaned(dirs, h, v, after) && r == NewDefaults(WithDirs(s, h, after), c, v, p, io);
          CleanedExactly(dirs, h, v, after);
          NewDefaultsDirs(WithDirs(s, h, after), c, v, p, io);
        }
    }
  }

  lemma {:induction false} RunKeepsTidy(states: seq<State>, ops: seq<Op>, oks: seq<bool>, p: Platform)
    requires IsRun(states, ops, oks, p) && Tidy(states[0])
    requires forall i :: 0 <= i < |ops| ==> OpWellNamed(ops[i], p)
    ensures forall i :: 0 <= i < |states| ==> Tidy(states[i])
  {
    hide Tidy, Step, OpWellNamed;
    for i := 0 to |ops|
      invariant forall j :: 0 <= j <= i ==> Tidy(states[j])
    {
      assert StepAt(states, ops, oks, p, i);
      StepKeepsTidy(states[i], ops[i], p, Outcome(states[i + 1], oks[i]));
    }
  }

  // ---------------------------------------------------------------- what an operation finds, loses and leaves

  predicate Touches(op: Op, c: Component, v: Version) {
    Home(op.c) == c && op.v == v
  }

  lemma {:induction false} PlacedFinds(
      dirs: set<string>, c: Component, v: Version, p: Platform, a: Component, w: Version)
    requires a != R0Vm && FolderOf(a) == FolderOf(c) && !(a == c && w == v)
    ensures Harmless(c, v, p) ==> (Found(dirs + {DirName(c, v, p)}, a, w) <==> Found(dirs, a, w))
  {
    hide ParseDirName, DirName, Harmless;
    var name := DirName(c, v, p);
    if Harmless(c, v, p) && Reads(name, a, w) {
      HarmlessReads(c, v, p, a, w);
      assert false;
    }
    if Found(dirs, a, w) {
      var d :| d in dirs && Reads(d, a, w);
      assert d in dirs + {name};
    }
  }

  lemma {:induction false} FinishFinds(
      s: State, c: Component, v: Version, p: Platform, io: Io, a: Component, w: Version)
    requires a != R0Vm && !(a == Home(c) && w == v)
    ensures Harmless(Home(c), v, p) ==>
              (Found(DirsOf(Finish(s, c, v, p, io).state, a), a, w) <==> Found(DirsOf(s, a), a, w))
  {
    FinishDirs(s, c, v, p, io);
    hide Finish, DirName, Found, Harmless;
    if FolderOf(a) == FolderOf(Home(c)) {
      PlacedFinds(DirsOf(s, a), Home(c), v, p, a, w);
    }
  }

  lemma {:induction false} CleanedFinds(
      s: State, c: Component, v: Version, after: set<string>, a: Component, w: Version)
    requires Tidy(s) && c != R0Vm && Cleaned(DirsOf(s, c), c, v, after) && a != R0Vm
    ensures Tidy(WithDirs(s, c, after))
    ensures !Found(after, c, v)
    ensures !(a == c && w == v) ==> (Found(DirsOf(WithDirs(s, c, after), a), a, w) <==> Found(DirsOf(s, a), a, w))
  {
    hide TidyFolder, Cleaned, ParseDirName;
    CleanedExactly(DirsOf(s, c), c, v, after);
  }

  /**
   * An operation on version v of c leaves every other version of every component as found as before, and only
   * an install can make v found.
   */
  lemma {:induction false} StepFinds(s: State, op: Op, p: Platform, r: Outcome, a: Component, w: Version)
    requires Tidy(s) && Step(s, op, p, r) && OpWellNamed(op, p) && a != R0Vm
    ensures !Touches(op, a, w) ==> (Found(DirsOf(r.state, a), a, w) <==> Found(DirsOf(s, a), a, w))
    ensures !op.Install? && Found(DirsOf(r.state, a), a, w) ==> Found(DirsOf(s, a), a, w)
    ensures op.Uninstall? && r.ok && Touches(op, a, w) ==> !Found(DirsOf(r.state, a), a, w)
  {
    hide Found, Tidy, Finish, NewDefaults, Harmless, Cleaned;
    var h := Home(op.c);
    var dirs := DirsOf(s, h);
    match op {
      case MakeDefault(c, v, w') =>
        SetDefaultKeepsDirs(s, c, v, p, w');
      case Install(c, v, force, io) =>
        if !Touches(op, a, w) {
          if !Found(dirs, h, v) {
            FinishFinds(s, c, v, p, io, a, w);
          } else if !force {
            SetDefaultKeepsDirs(s, c, v, p, io.first);
          } else if io.removed {
            var after :| Cleaned(dirs, h, v, after) && r == Finish(WithDirs(s, h, after), c, v, p, io);
            CleanedFinds(s, h, v, after, a, w);
            FinishFinds(WithDirs(s, h, after), c, v, p, io, a, w);
          }
        }
      case Uninstall(c, v, io) =>
        if !Found(dirs, h, v) || io.removed {
          var after :| Cleaned(dirs, h, v, after) && r == NewDefaults(WithDirs(s, h, after), c, v, p, io);
          CleanedFinds(s, h, v, after, a, w);
          NewDefaultsDirs(WithDirs(s, h, after), c, v, p, io);
        }
    }
  }

  /** No directory holds v. */
  ghost predicate Absent(s: State, c: Component, v: Version) {
    !Found(DirsOf(s, c), c, v)
  }

  /** An install that gets as far as placing a directory. */
  ghost predicate PlacesDir(s: State, op: Op, p: Platform) {
    && op.Install? && HasAsset(Home(op.c), p) && op.io.fetched
    && (Found(DirsOf(s, Home(op.c)), Home(op.c), op.v) ==> op.force && op.io.removed)
  }

  /** The directory it places is one that c reads as version v, be it the version installed or not. */
  ghost predicate Places(s: State, op: Op, p: Platform, c: Component, v: Version) {
    && PlacesDir(s, op, p) && FolderOf(Home(op.c)) == FolderOf(c)
    && Reads(DirName(Home(op.c), op.v, p), c, v)
  }

  /** The only new directory an operation can make, and when it makes it. */
  lemma {:induction false} NewDirs(s: State, op: Op, p: Platform, r: Outcome, c: Component)
    requires Step(s, op, p, r)
    ensures forall d :: d in DirsOf(r.state, c) ==>
              || d in DirsOf(s, c)
              || (PlacesDir(s, op, p) && FolderOf(Home(op.c)) == FolderOf(c) && d == DirName(Home(op.c), op.v, p))
    ensures PlacesDir(s, op, p) && FolderOf(Home(op.c)) == FolderOf(c) ==>
              DirName(Home(op.c), op.v, p) in DirsOf(r.state, c)
  {
    hide Found, Finish, NewDefaults, DirName, HasAsset, Reads;
    var h := Home(op.c);
    var dirs := DirsOf(s, h);
    match op {
      case MakeDefault(c, v, w) =>
        SetDefaultKeepsDirs(s, c, v, p, w);
      case Install(c, v, force, io) =>
        if !Found(dirs, h, v) {
          FinishDirs(s, c, v, p, io);
        } else if !force {
          SetDefaultKeepsDirs(s, c, v, p, io.first);
        } else if io.removed {
          var after :| Cleaned(dirs, h, v, after) && r == Finish(WithDirs(s, h, after), c, v, p, io);
          FinishDirs(WithDirs(s, h, after), c, v, p, io);
        }
      case Uninstall(c, v, io) =>
        if !Found(dirs, h, v) || io.removed {
          var after :| Cleaned(dirs, h, v, after) && r == NewDefaults(WithDirs(s, h, after), c, v, p, io);
          NewDefaultsDirs(WithDirs(s, h, after), c, v, p, io);
        }
    }
  }

  /** At most one directory goes, one of the version, in an uninstall or a forced install that can remove it. */
  lemma {:induction false} LostDirs(s: State, op: Op, p: Platform, r: Outcome, c: Component, d: string, e: string)
    requires Step(s, op, p, r) && d in DirsOf(s, c) - DirsOf(r.state, c) && e in DirsOf(s, c) - DirsOf(r.state, c)
    ensures d == e && FolderOf(c) == FolderOf(Home(op.c)) && Reads(d, Home(op.c), op.v)
    ensures (op.Uninstall? && op.io.removed) || (op.Install? && op.force && op.io.removed)
  {
    hide Found, Finish, NewDefaults, DirName, HasAsset, Reads;
    var h := Home(op.c);
    var dirs := DirsOf(s, h);
    match op {
      case MakeDefault(c, v, w) =>
        SetDefaultKeepsDirs(s, c, v, p, w);
      case Install(c, v, force, io) =>
        if !Found(dirs, h, v) {
          FinishDirs(s, c, v, p, io);
        } else if !force {
          SetDefaultKeepsDirs(s, c, v, p, io.first);
        } else if io.removed {
          var after :| Cleaned(dirs, h, v, after) && r == Finish(WithDirs(s, h, after), c, v, p, io);
          FinishDirs(WithDirs(s, h, after), c, v, p, io);
        }
      case Uninstall(c, v, io) =>
        if !Found(dirs, h, v) || io.removed {
          var after :| Cleaned(dirs, h, v, after) && r == NewDefaults(WithDirs(s, h, after), c, v, p, io);
          NewDefaultsDirs(WithDirs(s, h, after), c, v, p, io);
        }
    }
  }

  /** In any state, a version that is not there appears exactly when an install places a name that reads as it. */
  lemma {:induction false} AppearsIff(s: State, op: Op, p: Platform, r: Outcome, c: Component, v: Version)
    requires Step(s, op, p, r)
    ensures Absent(s, c, v) ==> (Absent(r.state, c, v) <==> !Places(s, op, p, c, v))
    ensures Places(s, op, p, c, v) ==> !Absent(r.state, c, v)
  {
    NewDirs(s, op, p, r, c);
    hide Step, PlacesDir, DirName, ParseDirName;
  }

  /** Along every run, an absent version stays away exactly as long as no install places a name that reads as it. */
  lemma {:induction false} AbsentUntilPlaced(states: seq<State>, ops: seq<Op>, oks: seq<bool>, p: Platform,
                                             c: Component, v: Version)
    requires IsRun(states, ops, oks, p) && Absent(states[0], c, v)
    ensures (forall i :: 0 <= i < |states| ==> Absent(states[i], c, v))
       <==> (forall i :: 0 <= i < |ops| ==> !Places(states[i], ops[i], p, c, v))
  {
    hide Step, Places, Absent;
    forall i | 0 <= i < |ops|
      ensures Absent(states[i], c, v) ==> (Absent(states[i + 1], c, v) <==> !Places(states[i], ops[i], p, c, v))
      ensures Places(states[i], ops[i], p, c, v) ==> !Absent(states[i + 1], c, v)
    {
      assert StepAt(states, ops, oks, p, i);
      AppearsIff(states[i], ops[i], p, Outcome(states[i + 1], oks[i]), c, v);
    }
    if forall i :: 0 <= i < |ops| ==> !Places(states[i], ops[i], p, c, v) {
      for i := 0 to |ops|
        invariant forall j :: 0 <= j <= i ==> Absent(states[j], c, v)
      {
        assert !Places(states[i], ops[i], p, c, v);
      }
    }
    if forall i :: 0 <= i < |states| ==> Absent(states[i], c, v) {
      forall i | 0 <= i < |ops| ensures !Places(states[i], ops[i], p, c, v) {
        assert Absent(states[i + 1], c, v);
      }
    }
  }

  /**
   * After a successful uninstall, in any state, the version is gone and stays away exactly when one directory at
   * most held it and no later install places a name that reads as it.
   */
  lemma {:induction false} UninstalledUntilPlaced(states: seq<State>, ops: seq<Op>, oks: seq<bool>, p: Platform)
    requires IsRun(states, ops, oks, p) && ops != [] && ops[0].Uninstall? && oks[0]
    ensures
      var c, v := Home(ops[0].c), ops[0].v;
      (forall i :: 0 < i < |states| ==> Absent(states[i], c, v))
      <==> (OneHolder(DirsOf(states[0], c), c, v) && forall i :: 0 < i < |ops| ==> !Places(states[i], ops[i], p, c, v))
  {
    var c, v := Home(ops[0].c), ops[0].v;
    assert StepAt(states, ops, oks, p, 0);
    UninstallLeaves(states[0], ops[0].c, v, p, ops[0].io, Outcome(states[1], oks[0]));
    hide Step, Places, Absent, OneHolder;
    var later, laterOps := states[1..], ops[1..];
    forall i | 0 <= i < |laterOps| ensures StepAt(later, laterOps, oks[1..], p, i) {
      assert StepAt(states, ops, oks, p, i + 1);
    }
    forall i | 0 < i < |states| ensures states[i] == later[i - 1] {
    }
    forall i | 0 < i < |ops| ensures ops[i] == laterOps[i - 1] {
    }
    if Absent(states[1], c, v) {
      AbsentUntilPlaced(later, laterOps, oks[1..], p, c, v);
      if forall i :: 0 < i < |states| ==> Absent(states[i], c, v) {
        forall i | 0 <= i < |later| ensures Absent(later[i], c, v) {
          assert later[i] == states[i + 1];
        }
        forall i | 0 < i < |ops| ensures !Places(states[i], ops[i], p, c, v) {
          assert !Places(later[i - 1], laterOps[i - 1], p, c, v);
        }
      }
      if forall i :: 0 < i < |ops| ==> !Places(states[i], ops[i], p, c, v) {
        forall i | 0 <= i < |laterOps| ensures !Places(later[i], laterOps[i], p, c, v) {
          assert later[i] == states[i + 1] && laterOps[i] == ops[i + 1];
        }
        forall i | 0 < i < |states| ensures Absent(states[i], c, v) {
          assert Absent(later[i - 1], c, v);
        }
      }
    }
  }

  lemma {:induction false} UninstallLeaves(s: State, c: Component, v: Version, p: Platform, io: Io, r: Outcome)
    requires UninstallStep(s, c, v, p, io, r) && r.ok
    ensures Absent(r.state, Home(c), v) <==> OneHolder(DirsOf(s, Home(c)), Home(c), v)
  {
    var h := Home(c);
    hide Found, Cleaned, NewDefaults, OneHolder;
    var after :| Cleaned(DirsOf(s, h), h, v, after) && r == NewDefaults(WithDirs(s, h, after), c, v, p, io);
    DisappearsIff(DirsOf(s, h), h, v, after);
    NewDefaultsDirs(WithDirs(s, h, after), c, v, p, io);
  }

  /** An uninstall of cpp 1.0.0 and an install of rust 1.0.0-cpp: the version is gone, and there again. */
  lemma {:induction false} CppReappears(p: Platform, io: Io) returns (states: seq<State>, ops: seq<Op>, oks: seq<bool>)
    requires IsSupportedArch(p.arch) && io.removed && io.fetched && HasAsset(RustToolchain, p)
    ensures
      var release: Version := Parts(1, 0, 0, "", "");
      && IsRun(states, ops, oks, p) && Tidy(states[0])
      && ops == [Uninstall(CppToolchain, release, io), Install(RustToolchain, CppVersion(), false, io)] && oks[0]
      && !Absent(states[0], CppToolchain, release) && Absent(states[1], CppToolchain, release)
      && !Absent(states[2], CppToolchain, release)
  {
    var v, release: Version := CppVersion(), Parts(1, 0, 0, "", "");
    DashlessIsPlain(release);
    PlainIsWellNamed(CppToolchain, release, p);
    CppPreReleaseHasTwoReaders(v, p);
    hide ParseDirName, DirName, HasAsset, Print, UninstallStep, Tidy, Found, Finish;
    var empty := State(map[], {}, {});
    var s := OnlyCopyGoes(release, p, io);
    var placed := Finish(empty, RustToolchain, v, p, io);
    var uninstall, install := Uninstall(CppToolchain, release, io), Install(RustToolchain, v, false, io);
    NothingFound(RustToolchain, v);
    AppearsIff(empty, install, p, placed, CppToolchain, release);
    states, ops, oks := TwoSteps(s, uninstall, Outcome(empty, true), install, placed, p);
  }

  lemma {:induction false} NothingFound(c: Component, v: Version)
    ensures !Found({}, c, v)
  {
  }

  lemma {:induction false} TwoSteps(s: State, first: Op, r: Outcome, second: Op, t: Outcome, p: Platform)
    returns (states: seq<State>, ops: seq<Op>, oks: seq<bool>)
    requires Step(s, first, p, r) && Step(r.state, second, p, t)
    ensures states == [s, r.state, t.state] && ops == [first, second] && oks == [r.ok, t.ok]
    ensures IsRun(states, ops, oks, p)
  {
    hide Step;
    states, ops, oks := [s, r.state, t.state], [first, second], [r.ok, t.ok];
    assert StepAt(states, ops, oks, p, 0) && StepAt(states, ops, oks, p, 1);
  }

  /** A folder with one well-named C++ toolchain is empty after its uninstall. */
  lemma {:induction false} OnlyCopyGoes(v: Version, p: Platform, io: Io) returns (s: State)
    requires WellNamed(CppToolchain, v, p) && io.removed
    ensures Tidy(s) && Found(s.toolchains, CppToolchain, v)
    ensures UninstallStep(s, CppToolchain, v, p, io, Outcome(State(map[], {}, {}), true))
  {
    hide ParseDirName, DirName, TidyFolder, Highest;
    var name, none: set<string> := DirName(CppToolchain, v, p), {};
    s := State(map[], {name}, {});
    SingleIsTidy(name, CppToolchain);
    EmptyIsTidy();
    assert Reads(name, CppToolchain, v) && s.toolchains - {name} == none;
    assert Cleaned(s.toolchains, CppToolchain, v, none);
  }

  // ---------------------------------------------------------------- what an operation does to the defaults

  lemma {:induction false} NamesDiffer(a: Component, b: Component)
    ensures AsStr(a) == AsStr(b) <==> a == b
  {
  }

  lemma {:induction false} SetDefaultRecords(s: State, c: Component, v: Version, p: Platform, w: Writes, a: Component)
    ensures
      var t, h := SetDefault(s, c, v, p, w).state, Home(c);
      Recorded(t.defaults, a) ==
      if a == c && Found(DirsOf(s, h), h, v) && !Unreadable(h, p) then Some(v) else Recorded(s.defaults, a)
  {
    NamesDiffer(a, c);
    ParsePrinted(v);
    hide Parse, Print, AsStr, Found, Unreadable;
  }

  lemma {:induction false} SuccessfulDefault(s: State, c: Component, v: Version, p: Platform, w: Writes)
    ensures SetDefault(s, c, v, p, w).ok ==> Default(SetDefault(s, c, v, p, w).state, c, p) == Ok(Some(v))
  {
    SetDefaultRecords(s, c, v, p, w, c);
  }

  /** A version installed successfully is the default, and its home component has a recorded default too. */
  lemma {:induction false} InstalledBecomesDefault(
      s: State, c: Component, v: Version, force: bool, p: Platform, io: Io, r: Outcome)
    requires InstallStep(s, c, v, force, p, io, r) && r.ok
    ensures Default(r.state, c, p) == Ok(Some(v))
  {
    var h := Home(c);
    hide Found, Cleaned, Finish, SetDefault, Default;
    if Found(DirsOf(s, h), h, v) && !force {
      SuccessfulDefault(s, c, v, p, io.first);
    } else if Found(DirsOf(s, h), h, v) {
      var dirs :| Cleaned(DirsOf(s, h), h, v, dirs) && r == Finish(WithDirs(s, h, dirs), c, v, p, io);
      FinishedIsDefault(WithDirs(s, h, dirs), c, v, p, io);
    } else {
      FinishedIsDefault(s, c, v, p, io);
    }
  }

  lemma {:induction false} FinishedIsDefault(s: State, c: Component, v: Version, p: Platform, io: Io)
    ensures Finish(s, c, v, p, io).ok ==>
              && Default(Finish(s, c, v, p, io).state, c, p) == Ok(Some(v))
              && Recorded(Finish(s, c, v, p, io).state.defaults, Home(c)).Some?
  {
    hide DirName, ParseDirName, Print, Parse, Compare, Highest;
    var h := Home(c);
    var placed := WithDirs(s, h, DirsOf(s, h) + {DirName(h, v, p)});
    var first := SetDefault(placed, c, v, p, io.first);
    SuccessfulDefault(placed, c, v, p, io.first);
    SetDefaultRecords(placed, c, v, p, io.first, c);
    SetDefaultRecords(first.state, h, v, p, io.second, h);
    SetDefaultRecords(first.state, h, v, p, io.second, c);
    SetDefaultKeepsDirs(first.state, h, v, p, io.second);
    hide SetDefault, Found, Recorded;
  }

  /** The settings were saved, and the link of c made if it has one. */
  predicate Written(c: Component, w: Writes) {
    w.saved && (c == Risc0Groth16 || w.linked)
  }

  /** A directory of version v of c can be found and looked into. */
  ghost predicate Usable(s: State, c: Component, v: Version, p: Platform) {
    Found(DirsOf(s, c), c, v) && !Unreadable(c, p)
  }

  /** A change of default: what is recorded for every component a afterwards, and when it succeeds. */
  lemma {:induction false} MakeDefaultRecords(
      s: State, c: Component, v: Version, p: Platform, w: Writes, r: Outcome, a: Component)
    requires Step(s, MakeDefault(c, v, w), p, r)
    ensures Recorded(r.state.defaults, a) ==
            if a == c && Usable(s, Home(c), v, p) then Some(v) else Recorded(s.defaults, a)
    ensures r.ok <==> Usable(s, Home(c), v, p) && Written(c, w)
    ensures r.state.toolchains == s.toolchains && r.state.extensions == s.extensions
  {
    SetDefaultRecords(s, c, v, p, w, a);
  }

  /** An install gets as far as recording its version. */
  ghost predicate InstallRecords(s: State, op: Op, p: Platform, t: State)
    requires op.Install?
  {
    && (PlacesDir(s, op, p) || (Found(DirsOf(s, Home(op.c)), Home(op.c), op.v) && !op.force))
    && Usable(t, Home(op.c), op.v, p)
  }

  /** Its home component is another one without a recorded default, and a directory was placed. */
  ghost predicate HomeNeedsDefault(s: State, op: Op, p: Platform)
    requires op.Install?
  {
    Home(op.c) != op.c && PlacesDir(s, op, p) && Recorded(s.defaults, Home(op.c)) == None
  }

  /**
   * An install records its version for its component once it is there and can be looked into. The home component
   * keeps a recorded default; without one it gets that version too, after a placement and a first record that
   * succeeded. All other components keep theirs.
   */
  lemma {:induction false} InstallDefaults(s: State, op: Op, p: Platform, r: Outcome, a: Component)
    requires op.Install? && Step(s, op, p, r)
    ensures
      var recorded, second := InstallRecords(s, op, p, r.state), HomeNeedsDefault(s, op, p);
      && (Recorded(r.state.defaults, a) ==
          if recorded && (a == op.c || (a == Home(op.c) && second && Written(op.c, op.io.first))) then Some(op.v)
          else Recorded(s.defaults, a))
      && (r.ok <==> recorded && Written(op.c, op.io.first) && (second ==> Written(Home(op.c), op.io.second)))
  {
    hide Found, Cleaned, Finish, Unreadable, SetDefault, DirName, HasAsset, Recorded;
    var h, v := Home(op.c), op.v;
    if Found(DirsOf(s, h), h, v) && !op.force {
      SetDefaultRecords(s, op.c, v, p, op.io.first, a);
      SetDefaultOutcome(s, op.c, v, p, op.io.first);
    } else if !Found(DirsOf(s, h), h, v) {
      FinishDefaults(s, op.c, v, p, op.io, a);
    } else if op.io.removed {
      var after :| Cleaned(DirsOf(s, h), h, v, after) && r == Finish(WithDirs(s, h, after), op.c, v, p, op.io);
      FinishDefaults(WithDirs(s, h, after), op.c, v, p, op.io, a);
    }
  }

  lemma {:induction false} SetDefaultOutcome(s: State, c: Component, v: Version, p: Platform, w: Writes)
    ensures
      var r := SetDefault(s, c, v, p, w);
      && (r.ok <==> Usable(s, Home(c), v, p) && Written(c, w))
      && r.state.toolchains == s.toolchains && r.state.extensions == s.extensions
  {
  }

  lemma {:induction false} FinishDefaults(s: State, c: Component, v: Version, p: Platform, io: Io, a: Component)
    ensures
      var r, h := Finish(s, c, v, p, io), Home(c);
      var placed := HasAsset(h, p) && io.fetched;
      var recorded, second := placed && Usable(r.state, h, v, p), h != c && Recorded(s.defaults, h) == None;
      && (Recorded(r.state.defaults, a) ==
          if recorded && (a == c || (a == h && second && Written(c, io.first))) then Some(v)
          else Recorded(s.defaults, a))
      && (r.ok <==> recorded && Written(c, io.first) && (second ==> Written(h, io.second)))
  {
    hide Found, Unreadable, SetDefault, DirName, HasAsset, Recorded;
    var h := Home(c);
    var placed := WithDirs(s, h, DirsOf(s, h) + {DirName(h, v, p)});
    var first := SetDefault(placed, c, v, p, io.first);
    FinishDirs(s, c, v, p, io);
    SetDefaultOutcome(placed, c, v, p, io.first);
    SetDefaultRecords(placed, c, v, p, io.first, a);
    SetDefaultRecords(placed, c, v, p, io.first, h);
    SetDefaultOutcome(first.state, h, v, p, io.second);
    SetDefaultRecords(first.state, h, v, p, io.second, a);
  }

  /** The old copy could be removed, or there was none. */
  ghost predicate Removes(s: State, op: Op)
    requires op.Uninstall?
  {
    Found(DirsOf(s, Home(op.c)), Home(op.c), op.v) ==> op.io.removed
  }

  /** The removed version was the recorded default of a, and there is another to take its place. */
  ghost predicate NeedsNew(s: State, op: Op, t: State, a: Component)
    requires op.Uninstall?
  {
    && Removes(s, op) && Recorded(s.defaults, a) == Some(op.v)
    && Highest(DirsOf(t, Home(op.c)), Home(op.c)).Some?
  }

  /** The home component, looked at first, is done. */
  ghost predicate HomeDone(s: State, op: Op, t: State, p: Platform)
    requires op.Uninstall?
  {
    var h := Home(op.c);
    h != op.c && NeedsNew(s, op, t, h) ==> !Unreadable(h, p) && Written(h, op.io.first)
  }

  /**
   * An uninstall moves the recorded default of its home component and then that of its component to the highest
   * version left, where they were the removed version; all other components keep theirs.
   */
  lemma {:induction false} UninstallDefaults(s: State, op: Op, p: Platform, r: Outcome, a: Component)
    requires op.Uninstall? && Step(s, op, p, r)
    ensures
      var t, c, h := r.state, op.c, Home(op.c);
      && (Recorded(t.defaults, a) ==
          if NeedsNew(s, op, t, a) && !Unreadable(h, p) && (a == h || (a == c && HomeDone(s, op, t, p)))
          then Highest(DirsOf(t, h), h)
          else Recorded(s.defaults, a))
      && (r.ok <==> Removes(s, op) && HomeDone(s, op, t, p) &&
                    (NeedsNew(s, op, t, c) ==> !Unreadable(h, p) && Written(c, op.io.second)))
  {
    hide Found, Cleaned, NewDefaults, Unreadable, Highest, Recorded;
    var h, v := Home(op.c), op.v;
    if Removes(s, op) {
      var after :| Cleaned(DirsOf(s, h), h, v, after) && r == NewDefaults(WithDirs(s, h, after), op.c, v, p, op.io);
      NewDefaultsDirs(WithDirs(s, h, after), op.c, v, p, op.io);
      NewDefaultsOutcome(WithDirs(s, h, after), op.c, v, p, op.io, a);
    }
  }

  lemma {:induction false} NewDefaultsOutcome(s: State, c: Component, v: Version, p: Platform, io: Io, a: Component)
    ensures
      var r, h := NewDefaults(s, c, v, p, io), Home(c);
      var high := Highest(DirsOf(s, h), h);
      var homeMoves, moves := h != c && Moves(s, h, v), Moves(s, c, v);
      var homeDone := homeMoves ==> !Unreadable(h, p) && Written(h, io.first);
      && (Recorded(r.state.defaults, a) ==
          if Moves(s, a, v) && !Unreadable(h, p) && (a == h || (a == c && homeDone)) then high
          else Recorded(s.defaults, a))
      && (r.ok <==> homeDone && (moves ==> !Unreadable(h, p) && Written(c, io.second)))
  {
    hide FindNewDefault, Unreadable, Highest, Recorded;
    var h := Home(c);
    var first := if h == c then Outcome(s, true) else FindNewDefault(s, h, v, p, io.first);
    NewDefaultRecords(s, h, v, p, io.first, a);
    NewDefaultRecords(s, h, v, p, io.first, c);
    NewDefaultOutcome(s, h, v, p, io.first);
    NewDefaultDirs(s, h, v, p, io.first);
    NewDefaultRecords(first.state, c, v, p, io.second, a);
    NewDefaultOutcome(first.state, c, v, p, io.second);
  }

  ghost predicate Moves(s: State, c: Component, v: Version) {
    Recorded(s.defaults, c) == Some(v) && Highest(DirsOf(s, Home(c)), Home(c)).Some?
  }

  lemma {:induction false} NewDefaultOutcome(s: State, c: Component, v: Version, p: Platform, w: Writes)
    ensures FindNewDefault(s, c, v, p, w).ok <==> (Moves(s, c, v) ==> !Unreadable(Home(c), p) && Written(c, w))
  {
    hide Recorded, Unreadable;
  }

  /** When v leaves the found versions of c, the choice moves to the highest left if it was v, and stays otherwise. */
  lemma {:induction false} ChoiceAfterRemoval(before: set<string>, after: set<string>, c: Component, v: Version,
                           recorded: Option<Version>, later: Option<Version>)
    requires forall w: Version :: Found(after, c, w) <==> Found(before, c, w) && w != v
    requires later == recorded || (recorded == Some(v) && later == Highest(after, c))
    ensures Choose(after, c, later) ==
            if Choose(before, c, recorded) == Some(v) then Highest(after, c) else Choose(before, c, recorded)
  {
    hide Found, Compare;
    HighestIff(before, c);
    HighestIff(after, c);
    var high, left := Highest(before, c), Highest(after, c);
    if high.Some? && high != Some(v) {
      assert IsHighest(after, c, high.value);
      HighestIsUnique(after, c, high.value, left.value);
    }
  }

  lemma {:induction false} NewDefaultRecords(s: State, c: Component, v: Version, p: Platform, w: Writes, a: Component)
    ensures
      var t, high := FindNewDefault(s, c, v, p, w).state, Highest(DirsOf(s, Home(c)), Home(c));
      Recorded(t.defaults, a) ==
      if a == c && Recorded(s.defaults, c) == Some(v) && high.Some? && !Unreadable(Home(c), p) then high
      else Recorded(s.defaults, a)
  {
    var high := Highest(DirsOf(s, Home(c)), Home(c));
    if high.Some? {
      SetDefaultRecords(s, c, high.value, p, w, a);
    }
    hide SetDefault, Recorded;
  }

  /** Looking for new defaults re-records a component only from v, and only to the highest version. */
  lemma {:induction false} NewDefaultsRecord(s: State, c: Component, v: Version, p: Platform, io: Io, a: Component)
    ensures
      var later := Recorded(NewDefaults(s, c, v, p, io).state.defaults, a);
      || later == Recorded(s.defaults, a)
      || (Home(a) == Home(c) && Recorded(s.defaults, a) == Some(v) && later == Highest(DirsOf(s, Home(a)), Home(a)))
  {
    var first := if Home(c) == c then Outcome(s, true) else FindNewDefault(s, Home(c), v, p, io.first);
    NewDefaultRecords(s, Home(c), v, p, io.first, a);
    NewDefaultRecords(first.state, c, v, p, io.second, a);
    NewDefaultDirs(s, Home(c), v, p, io.first);
    hide FindNewDefault, Recorded, Highest, Unreadable;
  }

  lemma {:induction false} NewDefaultDirs(s: State, c: Component, v: Version, p: Platform, w: Writes)
    ensures FindNewDefault(s, c, v, p, w).state.toolchains == s.toolchains
    ensures FindNewDefault(s, c, v, p, w).state.extensions == s.extensions
  {
    hide Highest, Recorded, Found;
  }

  /** One directory at most holds v, and no other component reads it. */
  ghost predicate HeldAlone(dirs: set<string>, c: Component, v: Version) {
    && OneHolder(dirs, c, v)
    && forall d, b: Component :: d in dirs && Reads(d, c, v) && b != R0Vm && b != c && FolderOf(b) == FolderOf(c) ==>
         ParseDirName(d, b) == None
  }

  /** Removing it takes that version from its component and nothing from any other. */
  lemma {:induction false} CleanedAlone(
      s: State, c: Component, v: Version, after: set<string>, b: Component, w: Version)
    requires HeldAlone(DirsOf(s, c), c, v) && Cleaned(DirsOf(s, c), c, v, after) && b != R0Vm && c != R0Vm
    ensures Found(DirsOf(WithDirs(s, c, after), b), b, w) <==> Found(DirsOf(s, b), b, w) && !(b == c && w == v)
  {
    hide ParseDirName;
    var before := DirsOf(s, c);
    if FolderOf(b) == FolderOf(c) && Found(before, c, v) {
      var d :| d in before && Reads(d, c, v) && after == before - {d};
      if Found(before, b, w) && !(b == c && w == v) {
        var e :| e in before && Reads(e, b, w);
        assert e in after;
      }
    }
  }

  /**
   * After a successful uninstall of version v, a component whose default was v, be it the home component or one
   * that lives inside it, gets the highest version left; every other default stays. The folders need not be tidy.
   */
  lemma {:induction false} UninstallMovesDefaults(
      s: State, c: Component, v: Version, p: Platform, io: Io, r: Outcome, a: Component)
    requires UninstallStep(s, c, v, p, io, r) && r.ok && !Unreadable(Home(a), p)
    requires HeldAlone(DirsOf(s, Home(c)), Home(c), v)
    ensures Default(r.state, a, p) ==
            if Home(a) == Home(c) && Default(s, a, p) == Ok(Some(v)) then Ok(Highest(DirsOf(r.state, Home(a)), Home(a)))
            else Default(s, a, p)
  {
    hide HeldAlone, Found, Cleaned, NewDefaults, Unreadable, Highest, Recorded, Choose;
    var h, b := Home(c), Home(a);
    var dirs :| Cleaned(DirsOf(s, h), h, v, dirs) && r == NewDefaults(WithDirs(s, h, dirs), c, v, p, io);
    var mid := WithDirs(s, h, dirs);
    NewDefaultsDirs(mid, c, v, p, io);
    NewDefaultsRecord(mid, c, v, p, io, a);
    forall w: Version ensures Found(DirsOf(mid, b), b, w) <==> Found(DirsOf(s, b), b, w) && !(b == h && w == v) {
      CleanedAlone(s, h, v, dirs, b, w);
    }
    if b == h {
      ChoiceAfterRemoval(DirsOf(s, b), DirsOf(mid, b), b, v, Recorded(s.defaults, a), Recorded(r.state.defaults, a));
    } else {
      SameChoice(DirsOf(s, b), DirsOf(mid, b), b, Recorded(s.defaults, a));
    }
  }

  lemma {:induction false} SameChoice(before: set<string>, after: set<string>, c: Component, recorded: Option<Version>)
    requires forall w: Version :: Found(after, c, w) <==> Found(before, c, w)
    ensures Choose(after, c, recorded) == Choose(before, c, recorded)
  {
    hide Found, Compare;
    HighestIff(before, c);
    HighestIff(after, c);
    var high, left := Highest(before, c), Highest(after, c);
    if high.Some? {
      assert IsHighest(after, c, high.value);
      HighestIsUnique(after, c, high.value, left.value);
    }
  }

  // ---------------------------------------------------------------- failures that leave a trace

  /** After a forced reinstall of an installed version, what the old copy was replaced by. */
  lemma {:induction false} ReinstallDirs(s: State, c: Component, v: Version, p: Platform, io: Io, r: Outcome)
    requires Found(DirsOf(s, Home(c)), Home(c), v) && InstallStep(s, c, v, true, p, io, r)
    ensures
      var before, dirs, h := DirsOf(s, Home(c)), DirsOf(r.state, Home(c)), Home(c);
      if !io.removed then dirs == before
      else exists after :: Cleaned(before, h, v, after) && (Found(after, h, v) <==> !OneHolder(before, h, v)) &&
             dirs == if HasAsset(h, p) && io.fetched then after + {DirName(h, v, p)} else after
  {
    var h := Home(c);
    if io.removed {
      hide Found, Cleaned, Finish, DirName, HasAsset, OneHolder;
      var after :| Cleaned(DirsOf(s, h), h, v, after) && r == Finish(WithDirs(s, h, after), c, v, p, io);
      DisappearsIff(DirsOf(s, h), h, v, after);
      FinishDirs(WithDirs(s, h, after), c, v, p, io);
    }
  }

  /** A new copy arrives under a name that reads back. */
  ghost predicate CopyArrives(c: Component, v: Version, p: Platform, io: Io) {
    HasAsset(c, p) && io.fetched && Dashes(Print(v)) <= 1 && !Contains(Print(v), Tag(c))
  }

  /**
   * In any state, a forced reinstall keeps the version found exactly when the old copy could not be removed, or
   * another directory held it too, or a new copy arrived under a name that reads back: the old copy goes before
   * the platform's archive is looked up and downloaded.
   */
  lemma {:induction false} ForcedReinstallKeepsIff(
      s: State, c: Component, v: Version, p: Platform, io: Io, r: Outcome)
    requires Found(DirsOf(s, Home(c)), Home(c), v) && InstallStep(s, c, v, true, p, io, r)
    ensures Found(DirsOf(r.state, Home(c)), Home(c), v) <==>
            !io.removed || !OneHolder(DirsOf(s, Home(c)), Home(c), v) || CopyArrives(Home(c), v, p, io)
  {
    var h := Home(c);
    var name := DirName(h, v, p);
    NameReadsBackIff(h, v, p);
    assert Reads(name, h, v) <==> Dashes(Print(v)) <= 1 && !Contains(Print(v), Tag(h));
    hide Cleaned, InstallStep, DirName, ParseDirName, HasAsset, Print, Dashes, Tag, OneHolder;
    ReinstallDirs(s, c, v, p, io, r);
    if io.removed {
      var before, dirs := DirsOf(s, h), DirsOf(r.state, h);
      var after :| Cleaned(before, h, v, after) && (Found(after, h, v) <==> !OneHolder(before, h, v)) &&
                   dirs == if HasAsset(h, p) && io.fetched then after + {name} else after;
      forall d | d in dirs && Reads(d, h, v) ensures d in after || (d == name && HasAsset(h, p) && io.fetched) {
      }
      if HasAsset(h, p) && io.fetched {
        assert name in dirs;
      }
      if d :| d in after && Reads(d, h, v) {
        assert d in dirs;
      }
    }
  }

  /** When the version is lost, the call fails and the recorded defaults stay, even one that names it. */
  lemma {:induction false} FailedReinstallRemoves(s: State, c: Component, v: Version, p: Platform, io: Io, r: Outcome)
    requires Found(DirsOf(s, Home(c)), Home(c), v) && InstallStep(s, c, v, true, p, io, r)
    requires io.removed && OneHolder(DirsOf(s, Home(c)), Home(c), v) && !CopyArrives(Home(c), v, p, io)
    ensures !r.ok && Absent(r.state, Home(c), v) && r.state.defaults == s.defaults
  {
    var h := Home(c);
    ForcedReinstallKeepsIff(s, c, v, p, io, r);
    hide Found, Cleaned, CopyArrives, OneHolder, DirName, HasAsset, Unreadable;
    var dirs :| Cleaned(DirsOf(s, h), h, v, dirs) && r == Finish(WithDirs(s, h, dirs), c, v, p, io);
    FailedFinish(WithDirs(s, h, dirs), c, v, p, io);
  }

  /** Where the version is not found after all, placing it recorded nothing. */
  lemma {:induction false} FailedFinish(s: State, c: Component, v: Version, p: Platform, io: Io)
    ensures
      var r := Finish(s, c, v, p, io);
      Absent(r.state, Home(c), v) ==> !r.ok && r.state.defaults == s.defaults
  {
    hide DirName, HasAsset, Unreadable, ParseDirName;
  }

  /**
   * A tidy folder with one legacy Rust directory of a version whose new name does not read back: a forced
   * reinstall that goes well up to the last step replaces it by a directory that does not hold the version.
   */
  lemma {:induction false} LegacyCopyIsLost(v: Version, platform: string, p: Platform, io: Io)
    returns (s: State, r: Outcome)
    requires io.removed && io.fetched && HasAsset(RustToolchain, p)
    requires Dashes(Print(v)) > 1 || Contains(Print(v), Tag(RustToolchain))
    ensures Tidy(s) && Found(s.toolchains, RustToolchain, v) && InstallStep(s, RustToolchain, v, true, p, io, r)
    ensures Absent(r.state, RustToolchain, v) && DirName(RustToolchain, v, p) in r.state.toolchains
  {
    var legacy := "rust_" + platform + "_r0." + Print(v);
    LegacyCargoRustName(v, platform);
    LegacyRustHasOneReader(v, platform);
    hide Print, ParseDirName, DirName, TidyFolder, Dashes, HasAsset, Finish, Contains;
    SingleIsTidy(legacy, RustToolchain);
    s := State(map[], {legacy}, {});
    assert TidyFolder(s.extensions, Extensions) by {
      hide *;
      EmptyIsTidy();
    }
    assert Reads(legacy, RustToolchain, v);
    var none: set<string> := {};
    assert s.toolchains - {legacy} == none;
    assert Cleaned(s.toolchains, RustToolchain, v, none);
    r := Finish(WithDirs(s, RustToolchain, none), RustToolchain, v, p, io);
    ForcedReinstallKeepsIff(s, RustToolchain, v, p, io, r);
    FinishDirs(WithDirs(s, RustToolchain, none), RustToolchain, v, p, io);
  }

  lemma {:induction false} EmptyIsTidy()
    ensures TidyFolder({}, Extensions)
  {
  }

  /** 1.0.0-a-b is such a version. */
  lemma {:induction false} TwoDashesLost(platform: string, p: Platform, io: Io) returns (s: State, r: Outcome)
    requires io.removed && io.fetched && HasAsset(RustToolchain, p)
    ensures
      var v: Version := AbVersion();
      && Tidy(s) && Found(s.toolchains, RustToolchain, v) && InstallStep(s, RustToolchain, v, true, p, io, r)
      && Absent(r.state, RustToolchain, v)
  {
    TwoDashesMisread();
    NameReadsBackIff(RustToolchain, AbVersion(), Platform("x86_64", Linux));
    hide Print, ParseDirName, DirName, Dashes, Contains, InstallStep, Tidy;
    s, r := LegacyCopyIsLost(AbVersion(), platform, p, io);
  }
}
