/**
 * The command-line front end: `Switch` target parsing, the `List`
 * rendering, the url collection of `Install` by package name and the
 * `Remove` loop.
 */
module Cli {
  import opened Wrappers
  import opened Strings
  import opened SemVer
  import opened Paths
  import Fs
  import opened Errors
  import opened Foreign
  import Catalog
  import opened Machine
  import opened Repo
  import Remover
  import Updater

  /** What `Switch` makes of its `name@version` argument. */
  datatype SwitchTarget = BadFormat | BadVersion(text: string) | Target(name: string, version: Version)

  /** The target must split at `@` into exactly two parts, the second a version. */
  function ParseTarget(target: string): (r: SwitchTarget)
    ensures r.Target? ==> target == r.name + "@" + ToString(r.version)
    ensures r.BadVersion? ==> SemVer.Parse(r.text).None?
  {
    var parts := Split(target, "@");
    if |parts| != 2 then BadFormat
    else
      match SemVer.Parse(parts[1])
      case None => BadVersion(parts[1])
      case Some(v) =>
        JoinSplit(target, "@");
        JoinPartsCons(parts[0], parts[1..], "@");
        assert parts == [parts[0]] + parts[1..] && parts[1..] == [parts[1]];
        ToStringParse(parts[1]);
        Target(parts[0], v)
  }

  /** A version's text is digits and dots. */
  lemma VersionTextHasNoAt(v: Version)
    ensures !HasChar(ToString(v), '@')
  {
    var a, b, c := NatToString(v.major as nat), NatToString(v.minor as nat), NatToString(v.patch as nat);
    NatToStringShape(v.major as nat);
    NatToStringShape(v.minor as nat);
    NatToStringShape(v.patch as nat);
    var s := ToString(v);
    assert s == a + "." + b + "." + c;
    forall i | 0 <= i < |s|
      ensures s[i] != '@'
    {
      if i < |a| {
        assert s[i] == a[i];
      } else if i == |a| {
      } else if i < |a| + 1 + |b| {
        assert s[i] == b[i - |a| - 1];
      } else if i == |a| + 1 + |b| {
      } else {
        assert s[i] == c[i - |a| - |b| - 2];
      }
    }
  }

  /** A name without `@` and any version come back from their `name@version` rendering. */
  lemma TargetRoundTrip(name: string, v: Version)
    requires !HasChar(name, '@')
    ensures ParseTarget(name + "@" + ToString(v)) == Target(name, v)
  {
    VersionTextHasNoAt(v);
    SplitAtFirst(name, "@", ToString(v));
    SplitWhole(ToString(v), "@");
    ParseToString(v);
  }

  /** A target without `@`, or with more than one, is rejected before any version is parsed. */
  lemma TargetNeedsOneAt(target: string, a: string, b: string, c: string)
    ensures !HasChar(target, '@') ==> ParseTarget(target) == BadFormat
    ensures !HasChar(a, '@') && !HasChar(b, '@') ==> ParseTarget(a + "@" + b + "@" + c) == BadFormat
  {
    if !HasChar(target, '@') {
      SplitWhole(target, "@");
    }
    if !HasChar(a, '@') && !HasChar(b, '@') {
      SplitAtFirst(a, "@", b + "@" + c);
      assert a + "@" + b + "@" + c == a + "@" + (b + "@" + c);
      SplitAtFirst(b, "@", c);
    }
  }

  /** `*` marks the current version, a space any other. */
  function Marker(current: bool): char {
    if current then '*' else ' '
  }

  function ListLine(row: (string, string, bool)): string {
    " - " + row.0 + " " + row.1 + " " + [Marker(row.2)]
  }

  const NoPackagesMessage := "No installed packages"
  const ListHeader := "Installed packages:"

  /** The lines `List` prints for the catalog's (name, version, current) rows. */
  function ListOutput(rows: seq<(string, string, bool)>): (r: seq<string>)
    ensures rows == [] ==> r == [NoPackagesMessage]
    ensures rows != [] ==> |r| == |rows| + 1 && r[0] == ListHeader
  {
    if rows == [] then [NoPackagesMessage]
    else [ListHeader] + seq(|rows|, i requires 0 <= i < |rows| => ListLine(rows[i]))
  }

  /** `List`, printing one line per row after the header. */
  method RenderList(rows: seq<(string, string, bool)>) returns (lines: seq<string>)
    ensures lines == ListOutput(rows)
  {
    if rows == [] {
      return [NoPackagesMessage];
    }
    lines := [ListHeader];
    for i := 0 to |rows|
      invariant |lines| == i + 1 && lines[0] == ListHeader
      invariant forall k :: 0 <= k < i ==> lines[k + 1] == ListLine(rows[k])
    {
      lines := lines + [ListLine(rows[i])];
    }
    ghost var out := ListOutput(rows);
    forall k | 0 <= k < |lines|
      ensures lines[k] == out[k]
    {
      if k > 0 {
        assert out[k] == ListLine(rows[k - 1]);
      }
    }
  }

  /** Reading a listed row back: the marker is the last character, name and version are split at the first space. */
  function ReadLine(line: string): Option<(string, string, bool)> {
    if |line| < 5 || line[..3] != " - " || line[|line| - 2] != ' ' || (line[|line| - 1] != '*' && line[|line| - 1] != ' ') then None
    else
      var parts := Split(line[3..|line| - 2], " ");
      if |parts| != 2 then None else Some((parts[0], parts[1], line[|line| - 1] == '*'))
  }

  /** For names and versions without spaces, each listed line tells the row it came from, current marker included. */
  lemma ListLineReadsBack(row: (string, string, bool))
    requires !HasChar(row.0, ' ') && !HasChar(row.1, ' ')
    ensures ReadLine(ListLine(row)) == Some(row)
  {
    var line := ListLine(row);
    var middle := row.0 + " " + row.1;
    assert line == " - " + middle + " " + [Marker(row.2)];
    assert line[..3] == " - ";
    assert line[3..|line| - 2] == middle;
    SplitAtFirst(row.0, " ", row.1);
    SplitWhole(row.1, " ");
  }

  /** The `Install` by name filter: the name, and the version when one is given. */
  predicate Wanted(row: RepoRow, pkg: string, version: Option<string>) {
    row.name == pkg && (version.None? || version.value == row.version)
  }

  /** The urls the first `k` rows of one index contribute, each through `get_package(name, version)`. */
  function MatchingUrls(tables: RepoTables, pkg: string, version: Option<string>, k: nat): seq<string>
    requires k <= |tables.packages|
  {
    if k == 0 then []
    else
      var more := if Wanted(tables.packages[k - 1], pkg, version) then [Updater.RowUrl(tables, k - 1)] else [];
      MatchingUrls(tables, pkg, version, k - 1) + more
  }

  /**
   * The urls collected for one package name over the repositories, in
   * order; a repository without `packages.db` is skipped and one that
   * cannot be read ends the command with its error.
   */
  function CliUrls(t: Fs.Tree, open: Path -> Result<RepoTables, DbError>, repos: seq<(string, string)>, pkg: string,
                   version: Option<string>): Result<seq<string>, DbError>
    decreases |repos|
  {
    if repos == [] then Success([])
    else
      match CliUrls(t, open, repos[..|repos| - 1], pkg, version)
      case Failure(e) => Failure(e)
      case Success(before) =>
        var p := Updater.PackagesDbPath(repos[|repos| - 1].1);
        if !Fs.Exists(t, p) then Success(before)
        else
          match open(p)
          case Failure(e) => Failure(e)
          case Success(tables) => Success(before + MatchingUrls(tables, pkg, version, |tables.packages|))
  }

  lemma {:induction false} CliFailurePersists(t: Fs.Tree, open: Path -> Result<RepoTables, DbError>, repos: seq<(string, string)>,
                                              pkg: string, version: Option<string>, k: nat)
    requires k <= |repos| && CliUrls(t, open, repos[..k], pkg, version).Failure?
    ensures CliUrls(t, open, repos, pkg, version) == CliUrls(t, open, repos[..k], pkg, version)
    decreases |repos| - k
  {
    if k == |repos| {
      assert repos[..k] == repos;
    } else {
      assert repos[..k + 1][..k] == repos[..k];
      CliFailurePersists(t, open, repos, pkg, version, k + 1);
    }
  }

  /** The inner loop of `Install`: the wanted rows of one index, each looked up by `get_package`. */
  method ScanIndex(tables: RepoTables, pkg: string, version: Option<string>) returns (found: seq<string>)
    ensures found == MatchingUrls(tables, pkg, version, |tables.packages|)
  {
    found := [];
    for j := 0 to |tables.packages|
      invariant found == MatchingUrls(tables, pkg, version, j)
    {
      var row := tables.packages[j];
      if row.name == pkg && (version.None? || version.value == row.version) {
        var got := PackageUrl(tables, row.name, row.version);
        found := found + [got.value];
      }
    }
  }

  /** The nested loops of `Install` for one package name. */
  method CollectPackageUrls(t: Fs.Tree, open: Path -> Result<RepoTables, DbError>, repos: seq<(string, string)>, pkg: string,
                            version: Option<string>)
    returns (r: Result<seq<string>, DbError>)
    ensures r == CliUrls(t, open, repos, pkg, version)
  {
    var urls: seq<string> := [];
    var k := 0;
    while k < |repos|
      invariant 0 <= k <= |repos|
      invariant CliUrls(t, open, repos[..k], pkg, version) == Success(urls)
    {
      assert repos[..k + 1][..k] == repos[..k];
      var path := Join(LocalDir(repos[k].1), "packages.db");
      assert path == Updater.PackagesDbPath(repos[..k + 1][k].1);
      if Fs.Exists(t, path) {
        var read := open(path);
        if read.Failure? {
          CliFailurePersists(t, open, repos, pkg, version, k + 1);
          return Failure(read.error);
        }
        var found := ScanIndex(read.value, pkg, version);
        urls := urls + found;
      }
      k := k + 1;
    }
    assert repos[..k] == repos;
    r := Success(urls);
  }

  /** Row `i` of the index of repository `url` is wanted and yields `u`. */
  ghost predicate RepoYields(t: Fs.Tree, open: Path -> Result<RepoTables, DbError>, url: string, pkg: string, version: Option<string>, u: string) {
    var p := Updater.PackagesDbPath(url);
    Fs.Exists(t, p) && open(p).Success? &&
    exists i :: 0 <= i < |open(p).value.packages| && Wanted(open(p).value.packages[i], pkg, version) && u == Updater.RowUrl(open(p).value, i)
  }

  lemma {:induction false} MatchingUrlsMembers(tables: RepoTables, pkg: string, version: Option<string>, k: nat, u: string)
    requires k <= |tables.packages|
    ensures u in MatchingUrls(tables, pkg, version, k) <==>
      exists i :: 0 <= i < k && Wanted(tables.packages[i], pkg, version) && u == Updater.RowUrl(tables, i)
  {
    if k > 0 {
      MatchingUrlsMembers(tables, pkg, version, k - 1, u);
    }
  }

  /** What the last repository adds to a successful collection. */
  function Contributed(t: Fs.Tree, open: Path -> Result<RepoTables, DbError>, url: string, pkg: string, version: Option<string>): seq<string>
    requires Fs.Exists(t, Updater.PackagesDbPath(url)) ==> open(Updater.PackagesDbPath(url)).Success?
  {
    var p := Updater.PackagesDbPath(url);
    if Fs.Exists(t, p) then MatchingUrls(open(p).value, pkg, version, |open(p).value.packages|) else []
  }

  lemma CliUrlsStep(t: Fs.Tree, open: Path -> Result<RepoTables, DbError>, repos: seq<(string, string)>, pkg: string, version: Option<string>)
    requires repos != [] && CliUrls(t, open, repos, pkg, version).Success?
    ensures CliUrls(t, open, repos[..|repos| - 1], pkg, version).Success?
    ensures Fs.Exists(t, Updater.PackagesDbPath(repos[|repos| - 1].1)) ==> open(Updater.PackagesDbPath(repos[|repos| - 1].1)).Success?
    ensures CliUrls(t, open, repos, pkg, version).value ==
      CliUrls(t, open, repos[..|repos| - 1], pkg, version).value + Contributed(t, open, repos[|repos| - 1].1, pkg, version)
  {
  }

  lemma ContributedMembers(t: Fs.Tree, open: Path -> Result<RepoTables, DbError>, url: string, pkg: string, version: Option<string>, u: string)
    requires Fs.Exists(t, Updater.PackagesDbPath(url)) ==> open(Updater.PackagesDbPath(url)).Success?
    ensures u in Contributed(t, open, url, pkg, version) <==> RepoYields(t, open, url, pkg, version, u)
  {
    var p := Updater.PackagesDbPath(url);
    if Fs.Exists(t, p) {
      MatchingUrlsMembers(open(p).value, pkg, version, |open(p).value.packages|, u);
    }
  }

  /** A successful collection holds exactly the urls of the wanted rows of the readable repositories. */
  lemma {:induction false} CliUrlsMembers(t: Fs.Tree, open: Path -> Result<RepoTables, DbError>, repos: seq<(string, string)>,
                                          pkg: string, version: Option<string>, u: string)
    requires CliUrls(t, open, repos, pkg, version).Success?
    ensures u in CliUrls(t, open, repos, pkg, version).value <==>
      exists k :: 0 <= k < |repos| && RepoYields(t, open, repos[k].1, pkg, version, u)
    decreases |repos|
  {
    if repos != [] {
      var init := repos[..|repos| - 1];
      var last := repos[|repos| - 1].1;
      CliUrlsStep(t, open, repos, pkg, version);
      CliUrlsMembers(t, open, init, pkg, version, u);
      ContributedMembers(t, open, last, pkg, version, u);
      var before := CliUrls(t, open, init, pkg, version).value;
      assert CliUrls(t, open, repos, pkg, version).value == before + Contributed(t, open, last, pkg, version);
      assert repos == init + [repos[|repos| - 1]];
      RepoYieldsSnoc(t, open, repos, init, repos[|repos| - 1], pkg, version, u);
    }
  }

  /** Some element of `init + [last]` satisfies `P` exactly when one of `init` does or `last` does. */
  lemma ExistsSnoc<T>(xs: seq<T>, init: seq<T>, last: T, P: T -> bool)
    requires xs == init + [last]
    ensures (exists k :: 0 <= k < |xs| && P(xs[k])) <==> (exists k :: 0 <= k < |init| && P(init[k])) || P(last)
  {
    if exists k :: 0 <= k < |init| && P(init[k]) {
      var k :| 0 <= k < |init| && P(init[k]);
      assert xs[k] == init[k];
    }
    assert xs[|init|] == last;
  }

  /** Some repository of a list yields `u` exactly when one before the last does or the last does. */
  lemma RepoYieldsSnoc(t: Fs.Tree, open: Path -> Result<RepoTables, DbError>, repos: seq<(string, string)>,
                       init: seq<(string, string)>, last: (string, string), pkg: string, version: Option<string>, u: string)
    requires repos == init + [last]
    ensures (exists k :: 0 <= k < |repos| && RepoYields(t, open, repos[k].1, pkg, version, u)) <==>
      (exists k :: 0 <= k < |init| && RepoYields(t, open, init[k].1, pkg, version, u)) ||
      RepoYields(t, open, last.1, pkg, version, u)
  {
    ExistsSnoc(repos, init, last, (r: (string, string)) => RepoYields(t, open, r.1, pkg, version, u));
  }

  /** With `--version`, every url collected from one index is the one `get_package` gives for that version. */
  lemma {:induction false} VersionedUrlsAgree(tables: RepoTables, pkg: string, v: string, k: nat)
    requires k <= |tables.packages|
    ensures forall x :: x in MatchingUrls(tables, pkg, Some(v), k) ==> PackageUrl(tables, pkg, v) == Success(x)
  {
    if k > 0 {
      VersionedUrlsAgree(tables, pkg, v, k - 1);
    }
  }

  /** With `--version v`, each collected url is what `get_package(pkg, v)` answers in some readable repository. */
  lemma CliVersionedUrls(t: Fs.Tree, open: Path -> Result<RepoTables, DbError>, repos: seq<(string, string)>,
                         pkg: string, v: string, u: string)
    requires CliUrls(t, open, repos, pkg, Some(v)).Success? && u in CliUrls(t, open, repos, pkg, Some(v)).value
    ensures exists k :: (0 <= k < |repos| && Fs.Exists(t, Updater.PackagesDbPath(repos[k].1)) &&
                         open(Updater.PackagesDbPath(repos[k].1)).Success? &&
                         PackageUrl(open(Updater.PackagesDbPath(repos[k].1)).value, pkg, v) == Success(u))
  {
    CliUrlsMembers(t, open, repos, pkg, Some(v), u);
    var k :| 0 <= k < |repos| && RepoYields(t, open, repos[k].1, pkg, Some(v), u);
    var tables := open(Updater.PackagesDbPath(repos[k].1)).value;
    MatchingUrlsMembers(tables, pkg, Some(v), |tables.packages|, u);
    VersionedUrlsAgree(tables, pkg, v, |tables.packages|);
  }

  /** A repository without `packages.db` contributes nothing, wherever it stands. */
  lemma {:induction false} MissingRepoSkipped(t: Fs.Tree, open: Path -> Result<RepoTables, DbError>, before: seq<(string, string)>,
                                              repo: (string, string), after: seq<(string, string)>, pkg: string, version: Option<string>)
    requires !Fs.Exists(t, Updater.PackagesDbPath(repo.1))
    ensures CliUrls(t, open, before + [repo] + after, pkg, version) == CliUrls(t, open, before + after, pkg, version)
    decreases |after|
  {
    if after == [] {
      assert (before + [repo])[..|before|] == before;
      assert before + [repo] + after == before + [repo];
      assert before + after == before;
    } else {
      var init := after[..|after| - 1];
      var last := after[|after| - 1];
      assert before + [repo] + after == (before + [repo] + init) + [last];
      assert before + after == (before + init) + [last];
      MissingRepoSkipped(t, open, before, repo, init, pkg, version);
      CliUrlsSameLast(t, open, before + [repo] + init, before + init, last, pkg, version);
    }
  }

  /** Two repository lists that collect the same urls still do once the same repository follows both. */
  lemma CliUrlsSameLast(t: Fs.Tree, open: Path -> Result<RepoTables, DbError>, a: seq<(string, string)>, b: seq<(string, string)>,
                        last: (string, string), pkg: string, version: Option<string>)
    requires CliUrls(t, open, a, pkg, version) == CliUrls(t, open, b, pkg, version)
    ensures CliUrls(t, open, a + [last], pkg, version) == CliUrls(t, open, b + [last], pkg, version)
  {
    assert (a + [last])[..|a|] == a && (a + [last])[|a|] == last;
    assert (b + [last])[..|b|] == b && (b + [last])[|b|] == last;
  }

  datatype Removed = Removed(tree: Fs.Tree, tables: Catalog.Tables)

  /**
   * `Remove`: each name in turn, whatever became of the one before;
   * `listings[i]` is the order the catalog gave the i-th name's files in.
   */
  function RemoveEach(t: Fs.Tree, s: Catalog.Tables, h: Host, names: seq<string>, listings: seq<seq<Path>>): Removed
    requires |listings| == |names|
    decreases |names|
  {
    if names == [] then Removed(t, s)
    else
      var before := RemoveEach(t, s, h, names[..|names| - 1], listings[..|names| - 1]);
      var r := Remover.RemoveRun(before.tree, before.tables, h, names[|names| - 1], listings[|names| - 1]);
      Removed(r.tree, r.tables)
  }

  method RemoveAll(fs: Fs.FileSystem, db: Catalog.PackageDB, h: Host, names: seq<string>)
    returns (ghost listings: seq<seq<Path>>)
    modifies fs, db
    ensures |listings| == |names|
    ensures Removed(fs.tree, db.State()) == RemoveEach(old(fs.tree), old(db.State()), h, names, listings)
  {
    listings := [];
    var i := 0;
    while i < |names|
      invariant 0 <= i <= |names| && |listings| == i
      invariant Removed(fs.tree, db.State()) == RemoveEach(old(fs.tree), old(db.State()), h, names[..i], listings)
    {
      assert names[..i + 1][..i] == names[..i];
      var o, listed := Remover.Remove(fs, db, h, names[i]);
      assert (listings + [listed])[..i] == listings;
      listings := listings + [listed];
      i := i + 1;
    }
    assert names[..i] == names;
  }

  /** One more name runs one more removal on the state the earlier names left. */
  lemma RemoveEachStep(t: Fs.Tree, s: Catalog.Tables, h: Host, names: seq<string>, listings: seq<seq<Path>>, i: nat)
    requires |listings| == |names| && i < |names|
    ensures var before := RemoveEach(t, s, h, names[..i], listings[..i]);
      var r := Remover.RemoveRun(before.tree, before.tables, h, names[i], listings[i]);
      RemoveEach(t, s, h, names[..i + 1], listings[..i + 1]) == Removed(r.tree, r.tables)
  {
    assert names[..i + 1][..i] == names[..i] && listings[..i + 1][..i] == listings[..i];
    assert names[..i + 1][i] == names[i] && listings[..i + 1][i] == listings[i];
  }

  /** A name whose removal failed leaves everything as it was, so the names after it run on the same state. */
  lemma RemoveFailureChangesNothing(t: Fs.Tree, s: Catalog.Tables, h: Host, names: seq<string>, listings: seq<seq<Path>>, i: nat)
    requires |listings| == |names| && i < |names|
    requires var before := RemoveEach(t, s, h, names[..i], listings[..i]);
      Remover.RemoveRun(before.tree, before.tables, h, names[i], listings[i]).result.Fail?
    ensures RemoveEach(t, s, h, names[..i + 1], listings[..i + 1]) == RemoveEach(t, s, h, names[..i], listings[..i])
  {
    var before := RemoveEach(t, s, h, names[..i], listings[..i]);
    RemoveEachStep(t, s, h, names, listings, i);
    Remover.RemoveFailureKeeps(before.tree, before.tables, h, names[i], listings[i]);
  }

  /** Names that are not installed are passed over without change. */
  lemma {:induction false} RemoveEachNotInstalled(t: Fs.Tree, s: Catalog.Tables, h: Host, names: seq<string>, listings: seq<seq<Path>>)
    requires |listings| == |names|
    requires forall i :: 0 <= i < |names| ==> Catalog.PackageVersion(s, names[i]).None?
    ensures RemoveEach(t, s, h, names, listings) == Removed(t, s)
    decreases |names|
  {
    if names != [] {
      var n := |names| - 1;
      forall i | 0 <= i < n
        ensures Catalog.PackageVersion(s, names[..n][i]).None?
      {
        assert names[..n][i] == names[i];
      }
      RemoveEachNotInstalled(t, s, h, names[..n], listings[..n]);
      Remover.RemoveNotInstalled(t, s, h, names[n], listings[n]);
    }
  }

  /** Once a name's removal succeeds it has no version in the catalog. */
  lemma RemoveEachForgets(t: Fs.Tree, s: Catalog.Tables, h: Host, names: seq<string>, listings: seq<seq<Path>>, i: nat)
    requires |listings| == |names| && i < |names|
    requires var before := RemoveEach(t, s, h, names[..i], listings[..i]);
      Remover.RemoveRun(before.tree, before.tables, h, names[i], listings[i]).result.Pass?
    ensures Catalog.PackageVersion(RemoveEach(t, s, h, names[..i + 1], listings[..i + 1]).tables, names[i]).None?
  {
    var before := RemoveEach(t, s, h, names[..i], listings[..i]);
    assert names[..i + 1][..i] == names[..i] && listings[..i + 1][..i] == listings[..i];
    if Catalog.PackageVersion(before.tables, names[i]).Some? {
      Remover.RemoveOutcome(before.tree, before.tables, h, names[i], listings[i]);
    } else {
      Remover.RemoveNotInstalled(before.tree, before.tables, h, names[i], listings[i]);
    }
  }
}
