/**
 * A package repository's index: the `packages` and `sources` tables of its
 * `repository.db`, the queries over them, opening an index from a
 * repository directory and caching the configured repositories' indexes.
 */
module Repo {
  import opened Wrappers
  import opened Strings
  import opened Paths
  import Fs
  import opened Foreign
  import opened Errors

  /** One row of `packages` or `sources`; the autoincrement `id` is the row's position. */
  datatype RepoRow = RepoRow(name: string, version: string, url: string)

  datatype RepoTables = RepoTables(packages: seq<RepoRow>, sources: seq<RepoRow>)

  const EmptyRepo := RepoTables([], [])

  predicate Matches(row: RepoRow, name: string, version: string) {
    row.name == name && row.version == version
  }

  /** The row `SELECT ... WHERE packagename = ? AND pkgver = ?` fetches first: the earliest match. */
  function FirstMatch(rows: seq<RepoRow>, name: string, version: string): (r: Option<nat>)
    ensures r.Some? ==> r.value < |rows| && Matches(rows[r.value], name, version)
    ensures r.Some? ==> forall j :: 0 <= j < r.value ==> !Matches(rows[j], name, version)
    ensures r.None? ==> forall j :: 0 <= j < |rows| ==> !Matches(rows[j], name, version)
    decreases |rows|
  {
    if rows == [] then None
    else if Matches(rows[0], name, version) then Some(0)
    else
      match FirstMatch(rows[1..], name, version)
      case None => None
      case Some(k) => Some(k + 1)
  }

  /** The url of the first matching row, or `NotFound(text)`. */
  function LookupUrl(rows: seq<RepoRow>, name: string, version: string, missing: string): (r: Result<string, RepoError>)
    ensures r.Failure? <==> forall j :: 0 <= j < |rows| ==> !Matches(rows[j], name, version)
    ensures r.Failure? ==> r.error == RepoNotFound(missing)
    ensures r.Success? ==>
      exists i :: (0 <= i < |rows| && Matches(rows[i], name, version) && rows[i].url == r.value &&
                   forall j :: 0 <= j < i ==> !Matches(rows[j], name, version))
  {
    match FirstMatch(rows, name, version)
    case None => Failure(RepoNotFound(missing))
    case Some(i) => Success(rows[i].url)
  }

  /** `get_package_url`. */
  function PackageUrl(t: RepoTables, name: string, version: string): Result<string, RepoError> {
    LookupUrl(t.packages, name, version, name + "-" + version)
  }

  /** `get_source_url`. */
  function SourceUrl(t: RepoTables, name: string, version: string): Result<string, RepoError> {
    LookupUrl(t.sources, name, version, name + "-" + version + " sources")
  }

  function Triple(row: RepoRow): (string, string, string) {
    (row.name, row.version, row.url)
  }

  /** `list_packages` and `list_sources`: one (name, version, url) triple per row, in table order. */
  function ListRows(rows: seq<RepoRow>): (r: seq<(string, string, string)>)
    ensures |r| == |rows|
    ensures forall i :: 0 <= i < |rows| ==> r[i] == Triple(rows[i])
    decreases |rows|
  {
    if rows == [] then [] else [Triple(rows[0])] + ListRows(rows[1..])
  }

  /** `search_packages(query)`: the rows whose name contains `query`, in table order. */
  function Search(rows: seq<RepoRow>, query: string): (r: seq<(string, string, string)>)
    ensures |r| <= |rows|
    decreases |rows|
  {
    if rows == [] then []
    else (if Occurs(rows[0].name, query) then [Triple(rows[0])] else []) + Search(rows[1..], query)
  }

  /** A triple is found exactly when some row with a name containing the query produced it. */
  lemma {:induction false} SearchMembers(rows: seq<RepoRow>, query: string, x: (string, string, string))
    ensures x in Search(rows, query) <==> exists i :: 0 <= i < |rows| && Triple(rows[i]) == x && Occurs(rows[i].name, query)
    decreases |rows|
  {
    if rows != [] {
      SearchMembers(rows[1..], query, x);
      if x in Search(rows[1..], query) {
        var i :| 0 <= i < |rows[1..]| && Triple(rows[1..][i]) == x && Occurs(rows[1..][i].name, query);
        assert rows[i + 1] == rows[1..][i];
      }
      if exists i :: 0 <= i < |rows| && Triple(rows[i]) == x && Occurs(rows[i].name, query) {
        var i :| 0 <= i < |rows| && Triple(rows[i]) == x && Occurs(rows[i].name, query);
        if i > 0 {
          assert rows[1..][i - 1] == rows[i];
        }
      }
    }
  }

  /** Searching splits over concatenated tables, so matches come out in table order. */
  lemma {:induction false} SearchAppend(a: seq<RepoRow>, b: seq<RepoRow>, query: string)
    ensures Search(a + b, query) == Search(a, query) + Search(b, query)
    decreases |a|
  {
    if a != [] {
      var head := if Occurs(a[0].name, query) then [Triple(a[0])] else [];
      assert (a + b)[0] == a[0];
      assert (a + b)[1..] == a[1..] + b;
      SearchAppend(a[1..], b, query);
      assert Search(a + b, query) == head + Search(a[1..] + b, query);
      assert Search(a, query) == head + Search(a[1..], query);
    } else {
      assert a + b == b;
    }
  }

  /** The empty query (`%%`) matches every row: searching lists the whole table. */
  lemma {:induction false} SearchEverything(rows: seq<RepoRow>)
    ensures Search(rows, "") == ListRows(rows)
    decreases |rows|
  {
    if rows != [] {
      assert OccursAt(rows[0].name, "", 0);
      SearchEverything(rows[1..]);
    }
  }

  /** Appending a row changes the first match only when there was none. */
  lemma {:induction false} FirstMatchAppend(rows: seq<RepoRow>, row: RepoRow, name: string, version: string)
    ensures FirstMatch(rows + [row], name, version) ==
      if FirstMatch(rows, name, version).Some? then FirstMatch(rows, name, version)
      else if Matches(row, name, version) then Some(|rows|)
      else None
    decreases |rows|
  {
    if rows != [] {
      assert (rows + [row])[0] == rows[0];
      assert (rows + [row])[1..] == rows[1..] + [row];
      FirstMatchAppend(rows[1..], row, name, version);
    }
  }

  /** Only `id` is a key, so adding a row with an existing (name, version) leaves the first url the one returned. */
  lemma AddKeepsFirstUrl(t: RepoTables, name: string, version: string, url: string)
    ensures PackageUrl(t, name, version).Success? ==>
      PackageUrl(t.(packages := t.packages + [RepoRow(name, version, url)]), name, version) == PackageUrl(t, name, version)
    ensures PackageUrl(t, name, version).Failure? ==>
      PackageUrl(t.(packages := t.packages + [RepoRow(name, version, url)]), name, version) == Success(url)
  {
    var row := RepoRow(name, version, url);
    FirstMatchAppend(t.packages, row, name, version);
    match FirstMatch(t.packages, name, version)
    case Some(i) => assert (t.packages + [row])[i] == t.packages[i];
    case None => assert (t.packages + [row])[|t.packages|] == row;
  }

  /** An added row appears once more at the end of the listing. */
  lemma ListAfterAdd(rows: seq<RepoRow>, row: RepoRow)
    ensures ListRows(rows + [row]) == ListRows(rows) + [Triple(row)]
  {
  }

  /** The in-memory repository index. */
  class RepoDB {
    var packages: seq<RepoRow>
    var sources: seq<RepoRow>

    function State(): RepoTables
      reads this
    {
      RepoTables(packages, sources)
    }

    /** `RepoDB::new` on a fresh file: both tables created empty. */
    constructor()
      ensures State() == EmptyRepo
    {
      packages := [];
      sources := [];
    }

    /** `add_package`: `INSERT OR REPLACE` without a key to collide on, so a row is appended. */
    method AddPackage(name: string, version: string, url: string)
      modifies this
      ensures packages == old(packages) + [RepoRow(name, version, url)]
      ensures sources == old(sources)
    {
      packages := packages + [RepoRow(name, version, url)];
    }

    /** `add_source`, the same over `sources`. */
    method AddSource(name: string, version: string, url: string)
      modifies this
      ensures sources == old(sources) + [RepoRow(name, version, url)]
      ensures packages == old(packages)
    {
      sources := sources + [RepoRow(name, version, url)];
    }
  }

  /** A repository url names a local directory when written `file://<dir>`. */
  function LocalDir(url: string): (r: Path)
    ensures StartsWith(url, "file://") ==> "file://" + r == url
    ensures !StartsWith(url, "file://") ==> r == url
  {
    StripPrefixOrSelf(url, "file://")
  }

  const MissingIndexMessage := "Repository database not found"

  /**
   * `from_repo_path`: `<repo>/repository.db` must exist; opening it is the
   * database library's business, given as `open`.
   */
  function FromRepoPath(t: Fs.Tree, open: Path -> Result<RepoTables, DbError>, repoPath: Path): (r: Result<RepoTables, DbError>)
    ensures !Fs.Exists(t, Join(repoPath, "repository.db")) ==> r == Failure(DbError(MissingIndexMessage))
    ensures Fs.Exists(t, Join(repoPath, "repository.db")) ==> r == open(Join(repoPath, "repository.db"))
  {
    var dbPath := Join(repoPath, "repository.db");
    if !Fs.Exists(t, dbPath) then Failure(DbError(MissingIndexMessage)) else open(dbPath)
  }

  /** Where `cache_repo` keeps the index of the repository called `name`. */
  function CachePath(home: Path, name: string): Path {
    home + "/.uhpm/cache/repo/" + name + "/repository.db"
  }

  /** Distinct repository names get distinct cache paths. */
  lemma CachePathInjective(home: Path, a: string, b: string)
    requires CachePath(home, a) == CachePath(home, b)
    ensures a == b
  {
    var pre := home + "/.uhpm/cache/repo/";
    var x, y := CachePath(home, a), CachePath(home, b);
    assert |a| == |b|;
    assert x[|pre|..|pre| + |a|] == a;
    assert y[|pre|..|pre| + |b|] == b;
  }

  function CachePaths(home: Path, repos: seq<(string, string)>): (r: seq<Path>)
    ensures |r| == |repos|
    ensures forall i :: 0 <= i < |repos| ==> r[i] == CachePath(home, repos[i].0)
  {
    seq(|repos|, i requires 0 <= i < |repos| => CachePath(home, repos[i].0))
  }

  /**
   * The file system after `cache_repo` downloads each index, in the given
   * order; `save(t, url, path)` is the download helper, whose outcome is
   * ignored.
   */
  function CacheTree(t: Fs.Tree, save: (Fs.Tree, string, Path) -> Fs.Tree, home: Path, repos: seq<(string, string)>): Fs.Tree
    decreases |repos|
  {
    if repos == [] then t
    else CacheTree(save(t, repos[0].1 + "/repository.db", CachePath(home, repos[0].0)), save, home, repos[1..])
  }

  /** `cache_repo`: one cache path per configured repository, each fetched from `<url>/repository.db`. */
  method CacheRepo(fs: Fs.FileSystem, save: (Fs.Tree, string, Path) -> Fs.Tree, home: Path, repos: seq<(string, string)>)
    returns (paths: seq<Path>)
    modifies fs
    ensures paths == CachePaths(home, repos)
    ensures fs.tree == CacheTree(old(fs.tree), save, home, repos)
  {
    paths := [];
    var i := 0;
    assert repos[0..] == repos;
    while i < |repos|
      invariant 0 <= i <= |repos|
      invariant paths == CachePaths(home, repos[..i])
      invariant CacheTree(fs.tree, save, home, repos[i..]) == CacheTree(old(fs.tree), save, home, repos)
    {
      var (name, url) := repos[i];
      var pathDb := CachePath(home, name);
      fs.tree := save(fs.tree, url + "/repository.db", pathDb);
      assert repos[i..][1..] == repos[i + 1..];
      paths := paths + [pathDb];
      i := i + 1;
    }
    assert repos[..i] == repos;
  }
}
