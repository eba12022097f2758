/** The toolchain registry: settings and version directories, changed in place. */
module ToolchainRegistry {
  import opened Prelude
  import opened Versions
  import opened ToolchainPaths
  import opened ToolchainModel

  /** A version directory, or a directory in it. */
  datatype Location = Location(dir: string, child: Option<string>)

  /** The directory tree: the version directories in each folder, and what the toolchains hold. */
  class Environment {
    var toolchains: set<string>
    var extensions: set<string>
    var inside: map<string, set<string>>
    const platform: Platform

    constructor (p: Platform)
      ensures toolchains == {} && extensions == {} && inside == map[] && platform == p
    {
      toolchains, extensions, inside, platform := {}, {}, map[], p;
    }

    predicate Holds(dir: string, child: string)
      reads this
    {
      dir in inside && child in inside[dir]
    }

    /** Where a version is: the directory of its archive, if a C++ toolchain holds one, else its own directory. */
    ghost predicate IsAt(l: Location, c: Component, v: Version)
      reads this
    {
      && l.dir in Entries(c) && Reads(l.dir, c, v)
      && (l.child.Some? ==> c == CppToolchain && l.child == AssetName(c, platform) && Holds(l.dir, l.child.value))
      && (l.child.None? && c == CppToolchain ==>
            forall name :: AssetName(c, platform) == Some(name) ==> !Holds(l.dir, name))
    }

    function Entries(c: Component): set<string>
      reads this
    {
      if FolderOf(c) == Toolchains then toolchains else extensions
    }

    method RemoveDir(c: Component, name: string)
      modifies this
      ensures Entries(c) == old(Entries(c)) - {name}
      ensures inside == if FolderOf(c) == Toolchains then old(inside) - {name} else old(inside)
      ensures FolderOf(c) == Toolchains ==> extensions == old(extensions)
      ensures FolderOf(c) == Extensions ==> toolchains == old(toolchains)
    {
      if FolderOf(c) == Toolchains {
        toolchains, inside := toolchains - {name}, inside - {name};
      } else {
        extensions := extensions - {name};
      }
    }

    method AddDir(c: Component, name: string, contents: set<string>)
      modifies this
      ensures Entries(c) == old(Entries(c)) + {name}
      ensures inside == if FolderOf(c) == Toolchains then old(inside)[name := contents] else old(inside)
      ensures FolderOf(c) == Toolchains ==> extensions == old(extensions)
      ensures FolderOf(c) == Extensions ==> toolchains == old(toolchains)
    {
      if FolderOf(c) == Toolchains {
        toolchains, inside := toolchains + {name}, inside[name := contents];
      } else {
        extensions := extensions + {name};
      }
    }
  }

  // ---------------------------------------------------------------- looking into the tree

  /** The first matching directory of a scan in any order. */
  method FindVersionDirInner(env: Environment, c: Component, v: Version) returns (r: Option<string>)
    ensures r.Some? ==> r.value in env.Entries(c) && Reads(r.value, c, v)
    ensures r.None? ==> !Found(env.Entries(c), c, v)
  {
    var rest := env.Entries(c);
    while rest != {}
      invariant rest <= env.Entries(c)
      invariant forall d :: d in env.Entries(c) && Reads(d, c, v) ==> d in rest
      decreases |rest|
    {
      var d :| d in rest;
      if ParseDirName(d, c) == Some(v) {
        return Some(d);
      }
      rest := rest - {d};
    }
    r := None;
  }

  method FindVersionDir(env: Environment, c: Component, v: Version) returns (r: Result<Option<Location>>)
    ensures r.Err? <==> Found(env.Entries(c), c, v) && Unreadable(c, env.platform)
    ensures r.Ok? ==> (r.value.Some? <==> Found(env.Entries(c), c, v))
    ensures r.Ok? && r.value.Some? ==> env.IsAt(r.value.value, c, v)
  {
    var found := FindVersionDirInner(env, c, v);
    if found.None? {
      return Ok(None);
    }
    if c == CppToolchain {
      var name := AssetName(c, env.platform);
      if name.None? {
        return Err;
      }
      if env.Holds(found.value, name.value) {
        return Ok(Some(Location(found.value, name)));
      }
    }
    r := Ok(Some(Location(found.value, None)));
  }

  /** Removes one directory of the version, if there is any; an emptied folder is the same as none. */
  method CleanupVersion(env: Environment, c: Component, v: Version, removable: bool) returns (ok: bool)
    modifies env
    ensures ok <==> !Found(old(env.Entries(c)), c, v) || removable
    ensures ok ==> Cleaned(old(env.Entries(c)), c, v, env.Entries(c))
    ensures !ok ==> env.Entries(c) == old(env.Entries(c))
    ensures FolderOf(c) == Toolchains ==> env.extensions == old(env.extensions)
    ensures FolderOf(c) == Extensions ==> env.toolchains == old(env.toolchains)
    ensures forall d, x :: d in env.toolchains ==> (env.Holds(d, x) <==> old(env.Holds(d, x)))
  {
    hide ParseDirName;
    var found := FindVersionDirInner(env, c, v);
    if found.Some? {
      if !removable {
        return false;
      }
      env.RemoveDir(c, found.value);
    }
    ok := true;
  }

  // ---------------------------------------------------------------- the sorted list of versions

  datatype Entry = Entry(version: Version, dir: string)

  ghost predicate Ascending(es: seq<Entry>) {
    forall i, j :: 0 <= i < j < |es| ==> Compare(es[i].version, es[j].version) == Less
  }

  ghost predicate Descending(es: seq<Entry>) {
    forall i, j :: 0 <= i < j < |es| ==> Compare(es[i].version, es[j].version) == Greater
  }

  ghost predicate Lists(es: seq<Entry>, v: Version) {
    exists i :: 0 <= i < |es| && es[i].version == v
  }

  /** Insertion into a list kept in ascending order; an equal version is replaced. */
  function Insert(es: seq<Entry>, e: Entry): seq<Entry> {
    if es == [] then [e]
    else
      var last := es[|es| - 1];
      match Compare(last.version, e.version)
      case Less => es + [e]
      case Equal => es[..|es| - 1] + [e]
      case Greater => Insert(es[..|es| - 1], e) + [last]
  }

  /** In an ascending list, the entries before the last one come before anything the last one does not follow. */
  lemma LastIsHighest(es: seq<Entry>, e: Entry)
    requires Ascending(es) && es != []
    ensures
      var n := |es| - 1;
      forall i :: 0 <= i < n ==> Compare(es[i].version, es[n].version) == Less &&
                                 (Compare(es[n].version, e.version) != Greater ==>
                                    Compare(es[i].version, e.version) == Less && es[i].version != e.version)
  {
    hide Compare;
    var n := |es| - 1;
    forall i | 0 <= i < n
      ensures Compare(es[n].version, e.version) != Greater ==>
                Compare(es[i].version, e.version) == Less && es[i].version != e.version
    {
      VersionOrder(es[i].version, es[n].version, e.version);
      VersionOrder(es[i].version, e.version, e.version);
    }
  }

  /** Insertion adds the entry and loses only an entry of the same version. */
  lemma {:induction false} InsertHolds(es: seq<Entry>, e: Entry)
    requires Ascending(es)
    ensures forall x :: x in Insert(es, e) <==> x == e || (x in es && x.version != e.version)
  {
    hide Compare;
    if es != [] {
      var n := |es| - 1;
      assert es == es[..n] + [es[n]];
      InsertHolds(es[..n], e);
      LastIsHighest(es, e);
      VersionOrder(es[n].version, e.version, e.version);
    }
  }

  /** Insertion keeps the order. */
  lemma {:induction false} InsertKeepsOrder(es: seq<Entry>, e: Entry)
    requires Ascending(es)
    ensures Ascending(Insert(es, e))
  {
    hide Compare;
    if es != [] {
      var n := |es| - 1;
      LastIsHighest(es, e);
      VersionOrder(es[n].version, e.version, e.version);
      if Compare(es[n].version, e.version) == Greater {
        InsertKeepsOrder(es[..n], e);
        InsertHolds(es[..n], e);
        forall x | x in Insert(es[..n], e) ensures Compare(x.version, es[n].version) == Less {
        }
      }
    }
  }

  lemma ReversedDescends(es: seq<Entry>)
    requires Ascending(es)
    ensures Descending(Reversed(es))
    ensures forall x :: x in Reversed(es) <==> x in es
  {
    hide Compare;
    var r, n := Reversed(es), |es|;
    ReversedAt(es);
    forall i, j | 0 <= i < j < n ensures Compare(r[i].version, r[j].version) == Greater {
      VersionOrder(es[n - 1 - j].version, es[n - 1 - i].version, es[n - 1 - j].version);
    }
    forall x | x in es ensures x in r {
      var k :| 0 <= k < n && es[k] == x;
      assert r[n - 1 - k] == x;
    }
  }

  /** The installed versions, newest first, each with a directory that holds it. */
  method ListComponentVersions(env: Environment, c: Component) returns (es: seq<Entry>)
    ensures Descending(es)
    ensures forall e :: e in es ==> e.dir in env.Entries(Home(c)) && Reads(e.dir, Home(c), e.version)
    ensures forall v: Version :: Found(env.Entries(Home(c)), Home(c), v) ==> Lists(es, v)
    decreases Home(c) != c
  {
    if Home(c) != c {
      es := ListComponentVersions(env, Home(c));
      return;
    }
    var versions: seq<Entry> := [];
    var all := env.Entries(c);
    var rest := all;
    hide ParseDirName, Insert, Compare;
    while rest != {}
      invariant rest <= all && Ascending(versions)
      invariant forall e :: e in versions ==> e.dir in all && Reads(e.dir, c, e.version)
      invariant forall d :: d in all && d !in rest && ParseDirName(d, c).Some? ==>
                  exists e :: e in versions && e.version == ParseDirName(d, c).value
      decreases |rest|
    {
      var d :| d in rest;
      rest := rest - {d};
      var parsed := ParseDirName(d, c);
      if parsed.Some? {
        var e := Entry(parsed.value, d);
        InsertKeepsOrder(versions, e);
        InsertHolds(versions, e);
        assert e in Insert(versions, e);
        versions := Insert(versions, e);
      }
    }
    ReversedDescends(versions);
    es := Reversed(versions);
    forall v: Version | Found(all, c, v) ensures Lists(es, v) {
      var d :| d in all && Reads(d, c, v);
      var e :| e in versions && e.version == v;
      assert e in es;
    }
  }

  method FindHighestInstalledVersion(env: Environment, c: Component) returns (r: Option<Version>)
    ensures r == Highest(env.Entries(Home(c)), Home(c))
  {
    var es := ListComponentVersions(env, c);
    hide ParseDirName, Compare;
    ghost var dirs := env.Entries(Home(c));
    HighestIff(dirs, Home(c));
    if es == [] {
      return None;
    }
    r := Some(es[0].version);
    assert es[0] in es;
    forall w: Version | Found(dirs, Home(c), w) ensures Compare(w, es[0].version) != Greater {
      var i :| 0 <= i < |es| && es[i].version == w;
      VersionOrder(es[0].version, w, w);
    }
    assert IsHighest(dirs, Home(c), es[0].version);
    HighestIsUnique(dirs, Home(c), es[0].version, Highest(dirs, Home(c)).value);
  }

  // ---------------------------------------------------------------- the registry

  class Registry {
    /** The recorded default versions, as text, by component name. */
    var defaultVersions: map<string, string>

    constructor ()
      ensures defaultVersions == map[]
    {
      defaultVersions := map[];
    }

    function Snapshot(env: Environment): State
      reads this, env
    {
      State(defaultVersions, env.toolchains, env.extensions)
    }

    /** The recorded default while it is installed, else the highest version, with the directory that holds it. */
    method GetDefaultComponentVersion(env: Environment, c: Component) returns (r: Result<Option<(Version, Location)>>)
      ensures r.Err? <==> Default(Snapshot(env), c, env.platform).Err?
      ensures r.Ok? ==> (r.value.Some? <==> Default(Snapshot(env), c, env.platform).value.Some?)
      ensures r.Ok? && r.value.Some? ==>
                var (v, location) := r.value.value;
                Default(Snapshot(env), c, env.platform) == Ok(Some(v)) && env.IsAt(location, Home(c), v)
    {
      hide ParseDirName, Parse, Compare;
      var recorded := Recorded(defaultVersions, c);
      if recorded.Some? {
        var found := FindVersionDir(env, Home(c), recorded.value);
        if found.Err? {
          return Err;
        }
        if found.value.Some? {
          return Ok(Some((recorded.value, found.value.value)));
        }
      }
      var highest := FindHighestInstalledVersion(env, c);
      if highest.Some? {
        var found := FindVersionDir(env, Home(c), highest.value);
        if found.Err? {
          return Err;
        }
        if found.value.Some? {
          return Ok(Some((highest.value, found.value.value)));
        }
      }
      r := Ok(None);
    }

    method SetDefaultComponentVersion(env: Environment, c: Component, v: Version, w: Writes) returns (ok: bool)
      modifies this
      ensures Outcome(Snapshot(env), ok) == SetDefault(old(Snapshot(env)), c, v, env.platform, w)
    {
      hide ParseDirName, Print;
      var found := FindVersionDir(env, Home(c), v);
      if found.Err? || found.value.None? {
        return false;
      }
      defaultVersions := defaultVersions[AsStr(c) := Print(v)];
      ok := w.saved;
      if ok {
        var again := FindVersionDir(env, Home(c), v);
        ok := again.Ok? && again.value.Some? && (w.linked || c == Risc0Groth16);
      }
    }

    /** Install: the version given, or the latest one the server knows. */
    method InstallComponent(env: Environment, c: Component, version: Option<Version>, latest: Option<Version>,
                            lockable: bool, force: bool, io: Io, contents: set<string>)
      returns (ok: bool)
      modifies this, env
      ensures
        var chosen := if version.Some? then version else latest;
        if chosen.None? || !lockable then !ok && Snapshot(env) == old(Snapshot(env))
        else InstallStep(old(Snapshot(env)), c, chosen.value, force, env.platform, io, Outcome(Snapshot(env), ok))
      ensures
        var chosen := if version.Some? then version else latest;
        forall d, x :: d in env.toolchains && env.Holds(d, x) != old(env.Holds(d, x)) ==>
          && chosen.Some? && d == DirName(Home(c), chosen.value, env.platform)
          && (env.Holds(d, x) <==> x in contents)
    {
      hide ParseDirName, DirName, Parse, Print, SetDefault, Unreadable, HasAsset, AssetName, Finish, Found;
      var chosen := if version.Some? then version else latest;
      if chosen.None? || !lockable {
        return false;
      }
      var v, h := chosen.value, Home(c);
      ghost var before := Snapshot(env);
      if !force {
        var found := FindVersionDir(env, h, v);
        if found.Err? {
          FailsToSetDefault(before, c, v, env.platform, io.first);
          return false;
        }
        if found.value.Some? {
          ok := SetDefaultComponentVersion(env, c, v, io.first);
          return;
        }
      } else {
        var cleaned := CleanupVersion(env, h, v, io.removed);
        if !cleaned {
          return false;
        }
      }
      ghost var mid := Snapshot(env);
      assert mid == WithDirs(before, h, env.Entries(h));
      ok := FinishInstall(env, c, v, io, contents);
    }

    /** Download, place and record. */
    method FinishInstall(env: Environment, c: Component, v: Version, io: Io, contents: set<string>) returns (ok: bool)
      modifies this, env
      ensures Outcome(Snapshot(env), ok) == Finish(old(Snapshot(env)), c, v, env.platform, io)
      ensures
        var h, name := Home(c), DirName(Home(c), v, env.platform);
        if FolderOf(h) == Toolchains && HasAsset(h, env.platform) && io.fetched then
          env.toolchains == old(env.toolchains) + {name} && env.inside == old(env.inside)[name := contents]
        else env.toolchains == old(env.toolchains) && env.inside == old(env.inside)
    {
      hide ParseDirName, DirName, Parse, Print, SetDefault;
      var h := Home(c);
      if !HasAsset(h, env.platform) || !io.fetched {
        return false;
      }
      ghost var before := Snapshot(env);
      env.AddDir(h, DirName(h, v, env.platform), contents);
      assert Snapshot(env) == WithDirs(before, h, DirsOf(before, h) + {DirName(h, v, env.platform)});
      ok := SetDefaultComponentVersion(env, c, v, io.first);
      if ok && Recorded(defaultVersions, h) == None {
        ok := SetDefaultComponentVersion(env, h, v, io.second);
      }
    }

    method FindNewDefaultVersion(env: Environment, removed: Version, c: Component, w: Writes) returns (ok: bool)
      modifies this
      ensures Outcome(Snapshot(env), ok) == FindNewDefault(old(Snapshot(env)), c, removed, env.platform, w)
    {
      hide ParseDirName, Parse, Print, SetDefault, Compare;
      ok := true;
      if Recorded(defaultVersions, c) == Some(removed) {
        var highest := FindHighestInstalledVersion(env, c);
        if highest.Some? {
          ok := SetDefaultComponentVersion(env, c, highest.value, w);
        }
      }
    }

    method UninstallComponent(env: Environment, c: Component, v: Version, io: Io) returns (ok: bool)
      modifies this, env
      ensures UninstallStep(old(Snapshot(env)), c, v, env.platform, io, Outcome(Snapshot(env), ok))
      ensures forall d, x :: d in env.toolchains ==> (env.Holds(d, x) <==> old(env.Holds(d, x)))
    {
      hide ParseDirName, FindNewDefault, Found;
      var h := Home(c);
      ghost var before := Snapshot(env);
      var cleaned := CleanupVersion(env, h, v, io.removed);
      if !cleaned {
        return false;
      }
      assert Snapshot(env) == WithDirs(before, h, env.Entries(h));
      if h != c {
        var first := FindNewDefaultVersion(env, v, h, io.first);
        if !first {
          return false;
        }
      }
      ok := FindNewDefaultVersion(env, v, c, io.second);
    }
  }

  lemma FailsToSetDefault(s: State, c: Component, v: Version, p: Platform, w: Writes)
    ensures Found(DirsOf(s, Home(c)), Home(c), v) && Unreadable(Home(c), p) ==>
              SetDefault(s, c, v, p, w) == Outcome(s, false)
  {
  }
}
