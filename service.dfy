/**
 * The package service's install-from-repository path: the configured
 * repositories are cached, each cached index is scanned for the rows to
 * download, and the urls collected are fetched and installed.
 */
module Service {
  import opened Wrappers
  import opened Strings
  import opened Paths
  import Fs
  import opened Foreign
  import opened Errors
  import Catalog
  import opened Machine
  import Installer
  import opened Repo
  import Fetcher

  /** The urls of the rows named `name`, in table order. */
  function NameUrls(rows: seq<RepoRow>, name: string): (r: seq<string>)
    ensures |r| <= |rows|
    decreases |rows|
  {
    if rows == [] then []
    else (if rows[0].name == name then [rows[0].url] else []) + NameUrls(rows[1..], name)
  }

  /**
   * What one index contributes: without a version every row of the name,
   * with one only the first row of that name and version.
   */
  function SelectRows(rows: seq<RepoRow>, name: string, version: Option<string>): seq<string> {
    match version
    case None => NameUrls(rows, name)
    case Some(v) =>
      match FirstMatch(rows, name, v)
      case None => []
      case Some(i) => [rows[i].url]
  }

  /**
   * The scan over the cached index paths: a missing index is skipped, an
   * index that cannot be read ends the scan with its error, and with a
   * version the scan stops at the first index that had the row.
   */
  function SelectFrom(t: Fs.Tree, open: Path -> Result<RepoTables, DbError>, paths: seq<Path>, name: string,
                      version: Option<string>): Result<seq<string>, DbError>
    decreases |paths|
  {
    if paths == [] then Success([])
    else if !Fs.Exists(t, paths[0]) then SelectFrom(t, open, paths[1..], name, version)
    else
      match open(paths[0])
      case Failure(e) => Failure(e)
      case Success(tables) =>
        var picked := SelectRows(tables.packages, name, version);
        if version.Some? && picked != [] then Success(picked)
        else
          match SelectFrom(t, open, paths[1..], name, version)
          case Failure(e) => Failure(e)
          case Success(more) => Success(picked + more)
  }

  /** `urls` collected so far, ahead of what the rest of the scan yields. */
  function Prepend(urls: seq<string>, r: Result<seq<string>, DbError>): Result<seq<string>, DbError> {
    match r
    case Failure(e) => Failure(e)
    case Success(more) => Success(urls + more)
  }

  lemma PrependNothing(urls: seq<string>, r: Result<seq<string>, DbError>)
    ensures Prepend([], r) == r
    ensures Prepend(urls, Success([])) == Success(urls)
  {
    if r.Success? {
      assert [] + r.value == r.value;
    }
    assert urls + [] == urls;
  }

  lemma PrependTwice(a: seq<string>, b: seq<string>, r: Result<seq<string>, DbError>)
    ensures Prepend(a, Prepend(b, r)) == Prepend(a + b, r)
  {
    if r.Success? {
      assert a + (b + r.value) == (a + b) + r.value;
    }
  }

  const HomeMissingMessage := "Home directory not found"

  function NotFoundMessage(name: string): string {
    "Package " + name + " not found in repositories"
  }

  datatype Selection = Selection(tree: Fs.Tree, urls: Result<seq<string>, UhpmError>)

  /**
   * `install_from_repo` up to the download: `home` is the home directory,
   * if known, and `parsed` what `parse_repos` made of `repos.ron`.
   */
  function SelectionRun(t: Fs.Tree, home: Option<Path>, parsed: Result<seq<(string, string)>, RepoError>,
                        save: (Fs.Tree, string, Path) -> Fs.Tree, open: Path -> Result<RepoTables, DbError>, name: string,
                        version: Option<string>): (r: Selection)
    ensures home.None? ==> r == Selection(t, Failure(Config(ConfigNotFound(HomeMissingMessage))))
    ensures home.Some? && parsed.Failure? ==> r == Selection(t, Failure(Repository(parsed.error)))
    ensures r.urls.Success? ==> r.urls.value != []
    ensures home.Some? && parsed.Success? ==> r.tree == CacheTree(t, save, home.value, parsed.value)
  {
    match home
    case None => Selection(t, Failure(Config(ConfigNotFound(HomeMissingMessage))))
    case Some(dir) =>
      match parsed
      case Failure(e) => Selection(t, Failure(Repository(e)))
      case Success(repos) =>
        var cached := CacheTree(t, save, dir, repos);
        match SelectFrom(cached, open, CachePaths(dir, repos), name, version)
        case Failure(e) => Selection(cached, Failure(Database(e)))
        case Success(urls) =>
          if urls == [] then Selection(cached, Failure(NotFound(NotFoundMessage(name))))
          else Selection(cached, Success(urls))
  }

  /** `get_repo_db_path`: a leading `file://` is dropped and `repository.db` appended. */
  function RepoDbPath(repoPath: string): (r: Path)
    ensures FileName(r) == Some("repository.db")
    ensures StartsWith(repoPath, "file://") ==> r == Join(repoPath[|"file://"|..], "repository.db")
    ensures !StartsWith(repoPath, "file://") ==> r == Join(repoPath, "repository.db")
  {
    FileNameOfJoin(LocalDir(repoPath), "repository.db");
    Join(LocalDir(repoPath), "repository.db")
  }

  /** Writing a repository as `file://<dir>` or as `<dir>` names the same index. */
  lemma RepoDbPathScheme(dir: string)
    ensures RepoDbPath("file://" + dir) == RepoDbPath(dir) || StartsWith(dir, "file://")
  {
    var url := "file://" + dir;
    assert url[..|"file://"|] == "file://";
    assert url[|"file://"|..] == dir;
  }

  class PackageService {
    const db: Catalog.PackageDB

    constructor(db: Catalog.PackageDB)
      ensures this.db == db
    {
      this.db := db;
    }

    /**
     * `install_from_repo(name, version)`; `order` is the order the
     * downloaded table is walked in when installing.
     */
    method InstallFromRepo(fs: Fs.FileSystem, h: Host, home: Option<Path>, parsed: Result<seq<(string, string)>, RepoError>,
                           save: (Fs.Tree, string, Path) -> Fs.Tree, open: Path -> Result<RepoTables, DbError>,
                           net: string -> Result<string, HttpError>, tmp: Path, name: string, version: Option<string>,
                           describe: Installer.InstallError -> string)
      returns (r: Outcome<UhpmError>, order: seq<string>)
      modifies fs, db
      ensures var sel := SelectionRun(old(fs.tree), home, parsed, save, open, name, version);
        sel.urls.Failure? ==> r == Fail(sel.urls.error) && fs.tree == sel.tree && db.State() == old(db.State())
      ensures var sel := SelectionRun(old(fs.tree), home, parsed, save, open, name, version);
        sel.urls.Success? ==>
          var b := Fetcher.FetchRun(sel.tree, net, tmp, sel.urls.value);
          Fetcher.Enumerates(order, b.results) &&
          var d := Fetcher.InstallEach(b.tree, old(db.State()), h, b.results, order, describe);
          fs.tree == d.tree && db.State() == d.tables && r == (if d.result.Fail? then Fail(FromFetch(d.result.error)) else Pass)
    {
      order := [];
      if home.None? {
        return Fail(Config(ConfigNotFound(HomeMissingMessage))), order;
      }
      if parsed.Failure? {
        return Fail(Repository(parsed.error)), order;
      }
      var paths := CacheRepo(fs, save, home.value, parsed.value);
      var urls := CollectUrls(fs.tree, open, paths, name, version);
      if urls.Failure? {
        return Fail(Database(urls.error)), order;
      }
      if urls.value == [] {
        return Fail(NotFound(NotFoundMessage(name))), order;
      }
      var o;
      o, order := Fetcher.FetchAndInstall(fs, db, h, net, tmp, urls.value, describe);
      r := if o.Fail? then Fail(FromFetch(o.error)) else Pass;
    }
  }

  /** The first row of the name and version decides what an index contributes. */
  lemma SelectRowsHit(rows: seq<RepoRow>, name: string, v: string, j: nat)
    requires j < |rows| && Matches(rows[j], name, v)
    requires forall k :: 0 <= k < j ==> !Matches(rows[k], name, v)
    ensures SelectRows(rows, name, Some(v)) == [rows[j].url]
  {
  }

  /** The step of the scan at an index that cannot be read. */
  lemma SelectFromFails(t: Fs.Tree, open: Path -> Result<RepoTables, DbError>, ps: seq<Path>, name: string, version: Option<string>)
    requires ps != [] && Fs.Exists(t, ps[0]) && open(ps[0]).Failure?
    ensures SelectFrom(t, open, ps, name, version) == Failure(open(ps[0]).error)
  {
  }

  /** The step of the scan at an index that has the requested version. */
  lemma SelectFromStops(t: Fs.Tree, open: Path -> Result<RepoTables, DbError>, ps: seq<Path>, name: string, v: string, urls: seq<string>)
    requires ps != [] && Fs.Exists(t, ps[0]) && open(ps[0]).Success?
    requires urls == SelectRows(open(ps[0]).value.packages, name, Some(v)) && urls != []
    ensures SelectFrom(t, open, ps, name, Some(v)) == Success(urls)
  {
  }

  /** The step of the scan at an index read through, and at one that is missing. */
  lemma SelectFromGoesOn(t: Fs.Tree, open: Path -> Result<RepoTables, DbError>, ps: seq<Path>, name: string, version: Option<string>)
    requires ps != []
    requires Fs.Exists(t, ps[0]) ==>
               (open(ps[0]).Success? && !(version.Some? && SelectRows(open(ps[0]).value.packages, name, version) != []))
    ensures !Fs.Exists(t, ps[0]) ==> SelectFrom(t, open, ps, name, version) == SelectFrom(t, open, ps[1..], name, version)
    ensures Fs.Exists(t, ps[0]) ==>
              SelectFrom(t, open, ps, name, version) ==
              Prepend(SelectRows(open(ps[0]).value.packages, name, version), SelectFrom(t, open, ps[1..], name, version))
  {
  }

  /**
   * The inner loop of `install_from_repo` over one index's rows: the urls it
   * pushes, stopping at the first row of the version when one is requested.
   */
  method PickRows(rows: seq<RepoRow>, name: string, version: Option<string>) returns (picked: seq<string>)
    ensures picked == SelectRows(rows, name, version)
  {
    picked := [];
    var j := 0;
    assert rows[0..] == rows;
    while j < |rows|
      invariant 0 <= j <= |rows|
      invariant version.None? ==> picked + NameUrls(rows[j..], name) == NameUrls(rows, name)
      invariant version.Some? ==> picked == [] && forall k :: 0 <= k < j ==> !Matches(rows[k], name, version.value)
    {
      assert rows[j..][0] == rows[j] && rows[j..][1..] == rows[j + 1..];
      if rows[j].name == name && (version.None? || version.value == rows[j].version) {
        picked := picked + [rows[j].url];
        if version.Some? {
          SelectRowsHit(rows, name, version.value, j);
          return;
        }
      }
      j := j + 1;
    }
    assert rows[j..] == [];
  }

  /** The selection loop of `install_from_repo`, stopping early once a versioned row is found. */
  method CollectUrls(t: Fs.Tree, open: Path -> Result<RepoTables, DbError>, paths: seq<Path>, name: string, version: Option<string>)
    returns (r: Result<seq<string>, DbError>)
    ensures r == SelectFrom(t, open, paths, name, version)
  {
    var urls: seq<string> := [];
    var found := false;
    var i := 0;
    assert paths[0..] == paths;
    PrependNothing(urls, SelectFrom(t, open, paths, name, version));
    while i < |paths|
      invariant 0 <= i <= |paths|
      invariant version.Some? ==> !found && urls == []
      invariant Prepend(urls, SelectFrom(t, open, paths[i..], name, version)) == SelectFrom(t, open, paths, name, version)
    {
      var ps := paths[i..];
      assert ps[0] == paths[i] && ps[1..] == paths[i + 1..];
      if Fs.Exists(t, paths[i]) {
        var read := open(paths[i]);
        if read.Failure? {
          SelectFromFails(t, open, ps, name, version);
          return Failure(read.error);
        }
        var picked := PickRows(read.value.packages, name, version);
        if picked != [] {
          found := true;
        }
        if found && version.Some? {
          SelectFromStops(t, open, ps, name, version.value, picked);
          return Success(urls + picked);
        }
        SelectFromGoesOn(t, open, ps, name, version);
        PrependTwice(urls, picked, SelectFrom(t, open, paths[i + 1..], name, version));
        urls := urls + picked;
      } else {
        SelectFromGoesOn(t, open, ps, name, version);
      }
      i := i + 1;
    }
    assert paths[i..] == [];
    PrependNothing(urls, Success([]));
    r := Success(urls);
  }

  /** With a version, an index contributes exactly the url `get_package_url` gives, if any. */
  lemma SelectRowsWithVersion(tables: RepoTables, name: string, v: string)
    ensures PackageUrl(tables, name, v).Success? ==> SelectRows(tables.packages, name, Some(v)) == [PackageUrl(tables, name, v).value]
    ensures PackageUrl(tables, name, v).Failure? ==> SelectRows(tables.packages, name, Some(v)) == []
  {
  }

  /** Without a version, an index contributes the url of every row of the name. */
  lemma {:induction false} NameUrlsMembers(rows: seq<RepoRow>, name: string, u: string)
    ensures u in NameUrls(rows, name) <==> exists i :: 0 <= i < |rows| && rows[i].name == name && rows[i].url == u
    decreases |rows|
  {
    if rows != [] {
      NameUrlsMembers(rows[1..], name, u);
      if u in NameUrls(rows[1..], name) {
        var i :| 0 <= i < |rows[1..]| && rows[1..][i].name == name && rows[1..][i].url == u;
        assert rows[i + 1] == rows[1..][i];
      }
      if exists i :: 0 <= i < |rows| && rows[i].name == name && rows[i].url == u {
        var i :| 0 <= i < |rows| && rows[i].name == name && rows[i].url == u;
        if i > 0 {
          assert rows[1..][i - 1] == rows[i];
        }
      }
    }
  }

  /** A repository whose cached index is missing is skipped: dropping it changes nothing. */
  lemma {:induction false} MissingIndexSkipped(t: Fs.Tree, open: Path -> Result<RepoTables, DbError>, a: seq<Path>, p: Path,
                                               b: seq<Path>, name: string, version: Option<string>)
    requires !Fs.Exists(t, p)
    ensures SelectFrom(t, open, a + [p] + b, name, version) == SelectFrom(t, open, a + b, name, version)
    decreases |a|
  {
    if a == [] {
      assert a + [p] + b == [p] + b;
      assert ([p] + b)[1..] == b;
      assert a + b == b;
    } else {
      assert (a + [p] + b)[0] == a[0] && (a + [p] + b)[1..] == a[1..] + [p] + b;
      assert (a + b)[0] == a[0] && (a + b)[1..] == a[1..] + b;
      MissingIndexSkipped(t, open, a[1..], p, b, name, version);
    }
  }

  /** The index at `p` exists and can be read. */
  ghost predicate Readable(t: Fs.Tree, open: Path -> Result<RepoTables, DbError>, p: Path) {
    Fs.Exists(t, p) && open(p).Success?
  }

  /**
   * Without a version a successful scan collects exactly the urls of the
   * rows of the name in the indexes that exist.
   */
  lemma {:induction false} SelectAllMembers(t: Fs.Tree, open: Path -> Result<RepoTables, DbError>, paths: seq<Path>, name: string, u: string)
    requires SelectFrom(t, open, paths, name, None).Success?
    ensures forall k :: 0 <= k < |paths| && Fs.Exists(t, paths[k]) ==> open(paths[k]).Success?
    ensures u in SelectFrom(t, open, paths, name, None).value <==>
      exists k :: 0 <= k < |paths| && Readable(t, open, paths[k]) && u in NameUrls(open(paths[k]).value.packages, name)
    decreases |paths|
  {
    if paths != [] {
      SelectAllMembers(t, open, paths[1..], name, u);
      forall k | 1 <= k < |paths|
        ensures paths[k] == paths[1..][k - 1]
      {
      }
      if exists k :: 0 <= k < |paths| && Readable(t, open, paths[k]) && u in NameUrls(open(paths[k]).value.packages, name) {
        var k :| 0 <= k < |paths| && Readable(t, open, paths[k]) && u in NameUrls(open(paths[k]).value.packages, name);
        if k > 0 {
          assert Readable(t, open, paths[1..][k - 1]);
        }
      }
      if u in SelectFrom(t, open, paths[1..], name, None).value {
        var k :| 0 <= k < |paths[1..]| && Readable(t, open, paths[1..][k]) && u in NameUrls(open(paths[1..][k]).value.packages, name);
        assert paths[k + 1] == paths[1..][k];
      }
    }
  }

  /**
   * With a version a successful scan collects at most one url: that of the
   * first index, in scan order, holding the row.
   */
  lemma {:induction false} SelectVersionFirst(t: Fs.Tree, open: Path -> Result<RepoTables, DbError>, paths: seq<Path>, name: string, v: string)
    requires SelectFrom(t, open, paths, name, Some(v)).Success?
    ensures |SelectFrom(t, open, paths, name, Some(v)).value| <= 1
    ensures SelectFrom(t, open, paths, name, Some(v)).value == [] ==>
      forall k :: 0 <= k < |paths| && Readable(t, open, paths[k]) ==> PackageUrl(open(paths[k]).value, name, v).Failure?
    ensures SelectFrom(t, open, paths, name, Some(v)).value != [] ==>
      exists k :: 0 <= k < |paths| && Readable(t, open, paths[k]) &&
        PackageUrl(open(paths[k]).value, name, v) == Success(SelectFrom(t, open, paths, name, Some(v)).value[0]) &&
        forall j :: 0 <= j < k && Readable(t, open, paths[j]) ==> PackageUrl(open(paths[j]).value, name, v).Failure?
    decreases |paths|
  {
    if paths != [] {
      var r := SelectFrom(t, open, paths, name, Some(v));
      forall k | 1 <= k < |paths|
        ensures paths[k] == paths[1..][k - 1]
      {
      }
      if Readable(t, open, paths[0]) {
        SelectRowsWithVersion(open(paths[0]).value, name, v);
        if PackageUrl(open(paths[0]).value, name, v).Failure? {
          SelectVersionFirst(t, open, paths[1..], name, v);
          if r.value != [] {
            var k :| 0 <= k < |paths[1..]| && Readable(t, open, paths[1..][k]) &&
              PackageUrl(open(paths[1..][k]).value, name, v) == Success(r.value[0]) &&
              forall j :: 0 <= j < k && Readable(t, open, paths[1..][j]) ==> PackageUrl(open(paths[1..][j]).value, name, v).Failure?;
            assert Readable(t, open, paths[k + 1]);
            forall j | 0 <= j < k + 1 && Readable(t, open, paths[j])
              ensures PackageUrl(open(paths[j]).value, name, v).Failure?
            {
              if j > 0 {
                assert paths[1..][j - 1] == paths[j];
              }
            }
          }
        } else {
          assert Readable(t, open, paths[0]);
        }
      } else {
        SelectVersionFirst(t, open, paths[1..], name, v);
        assert r == SelectFrom(t, open, paths[1..], name, Some(v));
        if r.value != [] {
          var k :| 0 <= k < |paths[1..]| && Readable(t, open, paths[1..][k]) &&
            PackageUrl(open(paths[1..][k]).value, name, v) == Success(r.value[0]) &&
            forall j :: 0 <= j < k && Readable(t, open, paths[1..][j]) ==> PackageUrl(open(paths[1..][j]).value, name, v).Failure?;
          assert Readable(t, open, paths[k + 1]);
          forall j | 0 <= j < k + 1 && Readable(t, open, paths[j])
            ensures PackageUrl(open(paths[j]).value, name, v).Failure?
          {
            assert j > 0;
            assert paths[1..][j - 1] == paths[j];
          }
        }
      }
    }
  }
}
