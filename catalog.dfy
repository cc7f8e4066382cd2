/**
 * The local catalog of installed packages, as three in-memory tables:
 * `packages` rows (keyed only by a row id, so every insert appends),
 * `dependencies` keyed by (package, dependency) and `installed_files` keyed
 * by (package, path).  The name-to-current-version table the program
 * writes with `set_current_version` follows the in-memory catalog used by
 * the tests, a map from name to version text.
 */
module Catalog {
  import opened Wrappers
  import opened Strings
  import opened SemVer
  import opened Packages

  /** One `packages` row, every column as the text stored. */
  datatype PackageRow = PackageRow(name: string, version: string, author: string, src: string, checksum: string)

  /** The row `add_package` and `add_package_full` insert for a package. */
  function RowOf(p: Package): (row: PackageRow)
    ensures row.name == p.name && Parse(row.version) == Some(p.version)
    ensures row.author == p.author && row.src == AsStr(p.src) && row.checksum == p.checksum
  {
    ParseToString(p.version);
    PackageRow(p.name, ToString(p.version), p.author, AsStr(p.src), p.checksum)
  }

  predicate HasRow(rows: seq<PackageRow>, name: string) {
    exists i :: 0 <= i < |rows| && rows[i].name == name
  }

  /** The dependency table after `INSERT OR REPLACE` of each pair in turn under `owner`. */
  function RecordDeps(deps: map<(string, string), string>, owner: string, pairs: seq<(string, Version)>): map<(string, string), string>
  {
    if pairs == [] then deps
    else
      var last := pairs[|pairs| - 1];
      RecordDeps(deps, owner, pairs[..|pairs| - 1])[(owner, last.0) := ToString(last.1)]
  }

  /** The version of the last pair named `d`, if any. */
  function LastVersionOf(pairs: seq<(string, Version)>, d: string): Option<Version> {
    if pairs == [] then None
    else if pairs[|pairs| - 1].0 == d then Some(pairs[|pairs| - 1].1)
    else LastVersionOf(pairs[..|pairs| - 1], d)
  }

  /**
   * Each declared dependency is recorded under (owner, name) with the
   * version of its last declaration; every other key keeps its value.
   */
  lemma {:induction false} RecordDepsSpec(deps: map<(string, string), string>, owner: string, pairs: seq<(string, Version)>, key: (string, string))
    ensures key.0 == owner && LastVersionOf(pairs, key.1).Some? ==>
      key in RecordDeps(deps, owner, pairs) && RecordDeps(deps, owner, pairs)[key] == ToString(LastVersionOf(pairs, key.1).value)
    ensures !(key.0 == owner && LastVersionOf(pairs, key.1).Some?) ==>
      (key in RecordDeps(deps, owner, pairs) <==> key in deps) &&
      (key in deps ==> RecordDeps(deps, owner, pairs)[key] == deps[key])
    decreases |pairs|
  {
    if pairs != [] {
      RecordDepsSpec(deps, owner, pairs[..|pairs| - 1], key);
    }
  }

  /** A dependency declared at all has a last declaration. */
  lemma {:induction false} LastVersionOfDeclared(pairs: seq<(string, Version)>, i: int)
    requires 0 <= i < |pairs|
    ensures LastVersionOf(pairs, pairs[i].0).Some?
    decreases |pairs|
  {
    if i < |pairs| - 1 && pairs[|pairs| - 1].0 != pairs[i].0 {
      LastVersionOfDeclared(pairs[..|pairs| - 1], i);
    }
  }

  /** The rows not named `name`, in table order. */
  function RowsWithout(rows: seq<PackageRow>, name: string): (r: seq<PackageRow>)
    ensures !HasRow(r, name)
    ensures forall row :: row in r <==> row in rows && row.name != name
    ensures |r| <= |rows|
  {
    if rows == [] then []
    else if rows[0].name == name then RowsWithout(rows[1..], name)
    else [rows[0]] + RowsWithout(rows[1..], name)
  }

  /** The version text of the first row named `name` (SQLite scans the table in row-id order). */
  function FirstVersion(rows: seq<PackageRow>, name: string): (r: Option<string>)
    ensures r.None? <==> !HasRow(rows, name)
    ensures r.Some? ==> exists i :: 0 <= i < |rows| && rows[i].name == name && rows[i].version == r.value
  {
    if rows == [] then None
    else if rows[0].name == name then Some(rows[0].version)
    else
      var r := FirstVersion(rows[1..], name);
      assert HasRow(rows, name) ==> HasRow(rows[1..], name) by {
        if HasRow(rows, name) {
          var i :| 0 <= i < |rows| && rows[i].name == name;
          assert rows[1..][i - 1] == rows[i];
        }
      }
      assert r.Some? ==> exists i :: 0 <= i < |rows| && rows[i].name == name && rows[i].version == r.value by {
        if r.Some? {
          var i :| 0 <= i < |rows[1..]| && rows[1..][i].name == name && rows[1..][i].version == r.value;
          assert rows[i + 1] == rows[1..][i];
        }
      }
      r
  }

  /** `ORDER BY version DESC LIMIT 1` over that name's rows: the textually greatest version. */
  function MaxVersionText(rows: seq<PackageRow>, name: string): (r: Option<string>)
    ensures r.None? <==> !HasRow(rows, name)
    ensures r.Some? ==> exists i :: 0 <= i < |rows| && rows[i].name == name && rows[i].version == r.value
    ensures r.Some? ==> forall i :: 0 <= i < |rows| && rows[i].name == name ==> !LexLess(r.value, rows[i].version)
    decreases |rows|
  {
    if rows == [] then None
    else
      var init := rows[..|rows| - 1];
      var last := rows[|rows| - 1];
      var r := MaxVersionText(init, name);
      assert forall i :: 0 <= i < |init| ==> init[i] == rows[i];
      if last.name != name then
        assert HasRow(rows, name) ==> HasRow(init, name) by {
          if HasRow(rows, name) {
            var i :| 0 <= i < |rows| && rows[i].name == name;
            assert i < |init|;
          }
        }
        r
      else if r.None? || LexLess(r.value, last.version) then
        LexLessMaxStep(rows, name, r);
        Some(last.version)
      else
        LexLessKeepStep(rows, name, r.value);
        r
  }

  /** Row `i` is named `name` and no row of that name has a version sorting after it. */
  predicate TextuallyGreatest(rows: seq<PackageRow>, name: string, i: int) {
    0 <= i < |rows| && rows[i].name == name &&
    forall j :: 0 <= j < |rows| && rows[j].name == name ==> !LexLess(rows[i].version, rows[j].version)
  }

  lemma LexLessMaxStep(rows: seq<PackageRow>, name: string, r: Option<string>)
    requires rows != [] && rows[|rows| - 1].name == name
    requires r.None? ==> !HasRow(rows[..|rows| - 1], name)
    requires r.Some? ==> LexLess(r.value, rows[|rows| - 1].version)
    requires r.Some? ==> forall i :: 0 <= i < |rows| - 1 && rows[i].name == name ==> !LexLess(r.value, rows[i].version)
    ensures forall i :: 0 <= i < |rows| && rows[i].name == name ==> !LexLess(rows[|rows| - 1].version, rows[i].version)
  {
    var top := rows[|rows| - 1].version;
    forall i | 0 <= i < |rows| && rows[i].name == name
      ensures !LexLess(top, rows[i].version)
    {
      if i == |rows| - 1 {
        LexLessIrreflexive(top);
      } else {
        assert rows[..|rows| - 1][i] == rows[i];
        var v := r.value;
        if LexLess(top, rows[i].version) {
          LexLessTransitive(v, top, rows[i].version);
          assert false;
        }
      }
    }
  }

  lemma LexLessKeepStep(rows: seq<PackageRow>, name: string, v: string)
    requires rows != [] && !LexLess(v, rows[|rows| - 1].version)
    requires forall i :: 0 <= i < |rows| - 1 && rows[i].name == name ==> !LexLess(v, rows[i].version)
    ensures forall i :: 0 <= i < |rows| && rows[i].name == name ==> !LexLess(v, rows[i].version)
  {
  }

  /** After removing a name, no row, dependency or file of that name is left. */
  lemma RemovedNameIsGone(rows: seq<PackageRow>, name: string)
    ensures FirstVersion(RowsWithout(rows, name), name).None?
    ensures MaxVersionText(RowsWithout(rows, name), name).None?
  {
  }

  /**
   * Versions are compared as text, not by precedence: with rows for 10.0.0
   * and 9.0.0 the catalog reports 9.0.0, although 10.0.0 is the later version.
   */
  lemma TextualOrderExample(name: string)
    ensures var rows := [PackageRow(name, "10.0.0", "", "", ""), PackageRow(name, "9.0.0", "", "", "")];
      MaxVersionText(rows, name) == Some("9.0.0")
    ensures Parse("9.0.0") == Some(Version(9, 0, 0)) && Parse("10.0.0") == Some(Version(10, 0, 0))
    ensures Less(Version(9, 0, 0), Version(10, 0, 0))
  {
    var rows := [PackageRow(name, "10.0.0", "", "", ""), PackageRow(name, "9.0.0", "", "", "")];
    assert LexLess("10.0.0", "9.0.0");
    assert rows[..1] == [rows[0]];
    assert rows[..1][..0] == [];
    assert MaxVersionText(rows[..1], name) == Some("10.0.0");
    ParseToString(Version(9, 0, 0));
    ParseToString(Version(10, 0, 0));
    assert ToString(Version(9, 0, 0)) == "9.0.0";
    assert ToString(Version(10, 0, 0)) == "10.0.0";
  }

  /** The catalog's contents: the three tables and the current-version table. */
  datatype Tables = Tables(
    packages: seq<PackageRow>,
    dependencies: map<(string, string), string>,
    installedFiles: set<(string, string)>,
    current: map<string, string>)

  const EmptyTables := Tables([], map[], {}, map[])

  /** The paths recorded for `name`. */
  function FilesOf(s: Tables, name: string): set<string> {
    set e | e in s.installedFiles && e.0 == name :: e.1
  }

  /** The `installed_files` rows one package's files make. */
  function FilePairs(name: string, files: seq<string>): (r: set<(string, string)>)
    ensures forall n, f :: (n, f) in r <==> n == name && f in files
  {
    set f | f in files :: (name, f)
  }

  lemma FilePairsSnoc(name: string, files: seq<string>, f: string)
    ensures FilePairs(name, files + [f]) == FilePairs(name, files) + {(name, f)}
  {
  }

  /**
   * `add_package_full`: one row appended, every dependency recorded under
   * the package's name (a later declaration of the same name wins) and
   * every path recorded under the package's name; the current-version
   * table is not touched.
   */
  function AfterAddFull(s: Tables, p: Package, files: seq<string>): (r: Tables)
    ensures |r.packages| == |s.packages| + 1 && r.packages[..|s.packages|] == s.packages
    ensures r.packages[|s.packages|] == RowOf(p)
    ensures forall n, f :: f in FilesOf(r, n) <==> f in FilesOf(s, n) || (n == p.name && f in files)
    ensures r.current == s.current
  {
    var r := Tables(s.packages + [RowOf(p)],
      RecordDeps(s.dependencies, p.name, DependencyPairs(p.dependencies)),
      s.installedFiles + FilePairs(p.name, files),
      s.current);
    assert forall n, f :: f in FilesOf(r, n) <==> (n, f) in r.installedFiles;
    assert forall n, f :: f in FilesOf(s, n) <==> (n, f) in s.installedFiles;
    r
  }

  lemma AddFullIs(s: Tables, p: Package, files: seq<string>)
    ensures AfterAddFull(s, p, files) == Tables(s.packages + [RowOf(p)], RecordDeps(s.dependencies, p.name, DependencyPairs(p.dependencies)),
                                                s.installedFiles + FilePairs(p.name, files), s.current)
  {
  }

  /** `add_package`: one row appended and nothing else. */
  function AfterAdd(s: Tables, p: Package): (r: Tables)
    ensures |r.packages| == |s.packages| + 1 && r.packages[..|s.packages|] == s.packages
    ensures r.packages[|s.packages|] == RowOf(p)
    ensures r.dependencies == s.dependencies && r.installedFiles == s.installedFiles && r.current == s.current
  {
    s.(packages := s.packages + [RowOf(p)])
  }

  /** `remove_package`: every row, dependency and recorded path of `name` goes; everything else stays. */
  function AfterRemove(s: Tables, name: string): (r: Tables)
    ensures !HasRow(r.packages, name) && FilesOf(r, name) == {}
    ensures forall row :: row in r.packages <==> row in s.packages && row.name != name
    ensures forall k :: k in r.dependencies <==> k in s.dependencies && k.0 != name
    ensures forall k :: k in r.dependencies ==> r.dependencies[k] == s.dependencies[k]
    ensures forall n :: n != name ==> FilesOf(r, n) == FilesOf(s, n)
    ensures r.current == s.current
  {
    Tables(RowsWithout(s.packages, name),
      (map k | k in s.dependencies && k.0 != name :: s.dependencies[k]),
      (set e | e in s.installedFiles && e.0 != name),
      s.current)
  }

  /** `set_current_version`: `version` becomes the name's current version; the other tables stay. */
  function AfterSetCurrent(s: Tables, name: string, version: string): (r: Tables)
    ensures name in r.current && r.current[name] == version
    ensures forall n :: n != name ==> (n in r.current <==> n in s.current)
    ensures forall n :: n != name && n in s.current ==> r.current[n] == s.current[n]
    ensures r.packages == s.packages && r.dependencies == s.dependencies && r.installedFiles == s.installedFiles
  {
    s.(current := s.current[name := version])
  }

  /** `get_package_version`: the version text of one row named `name`, or none without such a row. */
  function PackageVersion(s: Tables, name: string): (r: Option<string>)
    ensures r.None? <==> !HasRow(s.packages, name)
    ensures r.Some? ==> exists i :: 0 <= i < |s.packages| && s.packages[i].name == name && s.packages[i].version == r.value
  {
    FirstVersion(s.packages, name)
  }

  /**
   * `is_installed`: none without a row for `name`; otherwise the version
   * text that sorts last as text among the name's rows, parsed, or 0.0.0
   * when it does not parse.
   */
  function Installed(s: Tables, name: string): (r: Option<Version>)
    ensures r.None? <==> !HasRow(s.packages, name)
    ensures r.Some? ==> exists i :: TextuallyGreatest(s.packages, name, i) && r.value == ParseOrZero(s.packages[i].version)
  {
    match MaxVersionText(s.packages, name)
    case None => None
    case Some(text) => Some(ParseOrZero(text))
  }

  /**
   * Installing a package makes it known: it has a row and both
   * `get_package_version` and `is_installed` report a version.
   */
  lemma AddFullMakesInstalled(s: Tables, p: Package, files: seq<string>)
    ensures HasRow(AfterAddFull(s, p, files).packages, p.name)
    ensures Installed(AfterAddFull(s, p, files), p.name).Some?
    ensures PackageVersion(AfterAddFull(s, p, files), p.name).Some?
  {
    var r := AfterAddFull(s, p, files);
    var i := |s.packages|;
    assert r.packages[i] == RowOf(p);
    assert HasRow(r.packages, p.name);
    assert MaxVersionText(r.packages, p.name).Some?;
  }

  /** Adding the same package twice leaves two rows for it: only the row id is a key. */
  lemma AddFullTwiceAppendsTwice(s: Tables, p: Package, files: seq<string>)
    ensures var r := AfterAddFull(AfterAddFull(s, p, files), p, files);
      |r.packages| == |s.packages| + 2 && r.packages[|s.packages|] == r.packages[|s.packages| + 1] == RowOf(p)
  {
    var r1 := AfterAddFull(s, p, files);
    var r := AfterAddFull(r1, p, files);
    assert r.packages[..|r1.packages|] == r1.packages;
    assert r.packages[|s.packages|] == r1.packages[|s.packages|];
  }

  /** Each declared dependency of an added package is recorded with its last declared version. */
  lemma AddFullRecordsDependencies(s: Tables, p: Package, files: seq<string>, i: int)
    requires 0 <= i < |p.dependencies|
    ensures LastVersionOf(DependencyPairs(p.dependencies), p.dependencies[i].name).Some?
    ensures var r := AfterAddFull(s, p, files);
      var d := p.dependencies[i].name;
      (p.name, d) in r.dependencies &&
      r.dependencies[(p.name, d)] == ToString(LastVersionOf(DependencyPairs(p.dependencies), d).value)
  {
    var pairs := DependencyPairs(p.dependencies);
    DependencyPairsAt(p.dependencies, i);
    LastVersionOfDeclared(pairs, i);
    RecordDepsSpec(s.dependencies, p.name, pairs, (p.name, pairs[i].0));
  }

  /** The first row named `m` is the same after removing another name's rows. */
  lemma {:induction false} FirstVersionWithout(rows: seq<PackageRow>, name: string, m: string)
    requires m != name
    ensures FirstVersion(RowsWithout(rows, name), m) == FirstVersion(rows, m)
    decreases |rows|
  {
    if rows != [] {
      FirstVersionWithout(rows[1..], name, m);
    }
  }

  /** Removing a name forgets it and no other name's version. */
  lemma RemoveForgetsOnlyName(s: Tables, name: string, m: string)
    ensures PackageVersion(AfterRemove(s, name), name).None?
    ensures Installed(AfterRemove(s, name), name).None?
    ensures m != name ==> PackageVersion(AfterRemove(s, name), m) == PackageVersion(s, m)
  {
    if m != name {
      FirstVersionWithout(s.packages, name, m);
    }
  }

  /**
   * The package catalog.  `current` is the name-to-current-version table
   * behind `set_current_version`.
   */
  class PackageDB {
    var packages: seq<PackageRow>
    var dependencies: map<(string, string), string>
    var installedFiles: set<(string, string)>
    var current: map<string, string>

    function State(): Tables
      reads this
    {
      Tables(packages, dependencies, installedFiles, current)
    }

    constructor()
      ensures State() == EmptyTables
    {
      packages := [];
      dependencies := map[];
      installedFiles := {};
      current := map[];
    }

    method AddPackage(p: Package)
      modifies this
      ensures State() == AfterAdd(old(State()), p)
    {
      packages := packages + [RowOf(p)];
    }

    method AddPackageFull(p: Package, files: seq<string>)
      modifies this
      ensures State() == AfterAddFull(old(State()), p, files)
    {
      var deps := DependencyPairs(p.dependencies);
      var recorded := dependencies;
      for i := 0 to |deps|
        invariant unchanged(this)
        invariant recorded == RecordDeps(dependencies, p.name, deps[..i])
      {
        assert deps[..i + 1][..i] == deps[..i];
        recorded := recorded[(p.name, deps[i].0) := ToString(deps[i].1)];
      }
      assert deps[..|deps|] == deps;
      var listed := installedFiles;
      for i := 0 to |files|
        invariant unchanged(this)
        invariant listed == installedFiles + FilePairs(p.name, files[..i])
      {
        assert files[..i + 1] == files[..i] + [files[i]];
        FilePairsSnoc(p.name, files[..i], files[i]);
        listed := listed + {(p.name, files[i])};
      }
      assert files[..|files|] == files;
      AddFullIs(State(), p, files);
      packages := packages + [RowOf(p)];
      dependencies := recorded;
      installedFiles := listed;
    }

    /** `get_installed_files`: every path recorded for `name`, once each, in no promised order. */
    method GetInstalledFiles(name: string) returns (files: seq<string>)
      ensures forall f :: f in files <==> f in FilesOf(State(), name)
      ensures forall i, j :: 0 <= i < j < |files| ==> files[i] != files[j]
    {
      var remaining := FilesOf(State(), name);
      files := [];
      while remaining != {}
        invariant forall f :: f in files || f in remaining <==> f in FilesOf(State(), name)
        invariant forall f :: f in files ==> f !in remaining
        invariant forall i, j :: 0 <= i < j < |files| ==> files[i] != files[j]
        decreases remaining
      {
        var f :| f in remaining;
        files := files + [f];
        remaining := remaining - {f};
      }
    }

    method RemovePackage(name: string)
      modifies this
      ensures State() == AfterRemove(old(State()), name)
    {
      installedFiles := set e | e in installedFiles && e.0 != name;
      dependencies := map k | k in dependencies && k.0 != name :: dependencies[k];
      packages := RowsWithout(packages, name);
    }

    method GetPackageVersion(name: string) returns (r: Option<string>)
      ensures r == PackageVersion(State(), name)
    {
      r := FirstVersion(packages, name);
    }

    /** `list_packages`: one (name, version) pair per row, in table order. */
    method ListPackages() returns (r: seq<(string, string)>)
      ensures |r| == |packages|
      ensures forall i :: 0 <= i < |packages| ==> r[i] == (packages[i].name, packages[i].version)
    {
      r := [];
      for i := 0 to |packages|
        invariant |r| == i
        invariant forall j :: 0 <= j < i ==> r[j] == (packages[j].name, packages[j].version)
      {
        r := r + [(packages[i].name, packages[i].version)];
      }
    }

    method IsInstalled(name: string) returns (r: Option<Version>)
      ensures r == Installed(State(), name)
    {
      var text := MaxVersionText(packages, name);
      match text
      case None => r := None;
      case Some(v) => r := Some(ParseOrZero(v));
    }

    method SetCurrentVersion(name: string, version: string)
      modifies this
      ensures State() == AfterSetCurrent(old(State()), name, version)
    {
      current := current[name := version];
    }
  }
}
