/**
 * The updater: scanning the configured repositories for a strictly newer
 * row of an installed package, and installing the url found.  The rule is
 * "the last qualifying row wins"; `CheckNewestRun` is the rule that keeps
 * the newest qualifying row instead.
 */
module Updater {
  import opened Wrappers
  import opened Strings
  import opened Paths
  import opened SemVer
  import Fs
  import opened Foreign
  import opened Errors
  import Catalog
  import opened Machine
  import Installer
  import opened Repo
  import Fetcher

  /** The index the updater opens: `<dir>/packages.db` of a `file://` or plain repository path. */
  function PackagesDbPath(url: string): Path {
    Join(LocalDir(url), "packages.db")
  }

  /** A row offers an update when it has the package's name and a strictly greater version (0.0.0 when unparsable). */
  predicate Qualifies(row: RepoRow, name: string, installed: string) {
    row.name == name && Less(ParseOrZero(installed), ParseOrZero(row.version))
  }

  /** `get_package(name, version)` for the `i`-th row: the url of the first row with that name and version. */
  function RowUrl(tables: RepoTables, i: nat): (u: string)
    requires i < |tables.packages|
    ensures PackageUrl(tables, tables.packages[i].name, tables.packages[i].version) == Success(u)
  {
    var row := tables.packages[i];
    assert Matches(tables.packages[i], row.name, row.version);
    PackageUrl(tables, row.name, row.version).value
  }

  /** `latest_url` after the first `k` rows of one index, starting from `prior`. */
  function RowsLatest(tables: RepoTables, name: string, installed: string, prior: Option<string>, k: nat): Option<string>
    requires k <= |tables.packages|
  {
    if k == 0 then prior
    else if Qualifies(tables.packages[k - 1], name, installed) then Some(RowUrl(tables, k - 1))
    else RowsLatest(tables, name, installed, prior, k - 1)
  }

  /** One repository of the scan: skipped when its index is missing, otherwise its rows are scanned. */
  function ScanRepo(t: Fs.Tree, open: Path -> Result<RepoTables, DbError>, url: string, name: string, installed: string,
                    prior: Option<string>): Result<Option<string>, DbError>
  {
    var p := PackagesDbPath(url);
    if !Fs.Exists(t, p) then Success(prior)
    else
      match open(p)
      case Failure(e) => Failure(e)
      case Success(tables) => Success(RowsLatest(tables, name, installed, prior, |tables.packages|))
  }

  /** `latest_url` after the repositories `repos`, in the order the configuration table yields them. */
  function ReposLatest(t: Fs.Tree, open: Path -> Result<RepoTables, DbError>, repos: seq<(string, string)>, name: string,
                       installed: string): Result<Option<string>, DbError>
    decreases |repos|
  {
    if repos == [] then Success(None)
    else
      match ReposLatest(t, open, repos[..|repos| - 1], name, installed)
      case Failure(e) => Failure(e)
      case Success(prior) => ScanRepo(t, open, repos[|repos| - 1].1, name, installed, prior)
  }

  /**
   * `check_for_update(name)`: `repos` is the parsed `repos.ron` table and
   * `open` yields the rows of an index (`RepoDB::new` then `list_packages`).
   */
  function CheckRun(t: Fs.Tree, s: Catalog.Tables, open: Path -> Result<RepoTables, DbError>, repos: seq<(string, string)>,
                    name: string): (r: Result<string, UpdaterError>)
    ensures Catalog.PackageVersion(s, name).None? ==> r == Failure(UpdaterNotFound(name))
  {
    match Catalog.PackageVersion(s, name)
    case None => Failure(UpdaterNotFound(name))
    case Some(installed) =>
      match ReposLatest(t, open, repos, name, installed)
      case Failure(e) => Failure(UpdaterDb(e))
      case Success(None) => Failure(UpdaterNoNewVersion(name))
      case Success(Some(url)) => Success(url)
  }

  /** An error met while scanning a prefix of the repositories is the scan's error. */
  lemma {:induction false} ReposFailurePersists(t: Fs.Tree, open: Path -> Result<RepoTables, DbError>, repos: seq<(string, string)>,
                                                name: string, installed: string, k: nat)
    requires k <= |repos| && ReposLatest(t, open, repos[..k], name, installed).Failure?
    ensures ReposLatest(t, open, repos, name, installed) == ReposLatest(t, open, repos[..k], name, installed)
    decreases |repos| - k
  {
    if k == |repos| {
      assert repos[..k] == repos;
    } else {
      assert repos[..k + 1][..k] == repos[..k];
      ReposFailurePersists(t, open, repos, name, installed, k + 1);
    }
  }

  /** One more repository scans its index on top of what the earlier ones left. */
  lemma ReposLatestStep(t: Fs.Tree, open: Path -> Result<RepoTables, DbError>, repos: seq<(string, string)>,
                        name: string, installed: string, k: nat, prior: Option<string>)
    requires k < |repos| && ReposLatest(t, open, repos[..k], name, installed) == Success(prior)
    ensures ReposLatest(t, open, repos[..k + 1], name, installed) == ScanRepo(t, open, repos[k].1, name, installed, prior)
  {
    assert repos[..k + 1][..k] == repos[..k];
  }

  /** The inner loop over one index's rows, overwriting `latest` at each qualifying row. */
  method ScanRows(tables: RepoTables, name: string, installed: string, prior: Option<string>) returns (latest: Option<string>)
    ensures latest == RowsLatest(tables, name, installed, prior, |tables.packages|)
  {
    latest := prior;
    var j := 0;
    while j < |tables.packages|
      invariant 0 <= j <= |tables.packages|
      invariant latest == RowsLatest(tables, name, installed, prior, j)
    {
      var row := tables.packages[j];
      if row.name == name && Less(ParseOrZero(installed), ParseOrZero(row.version)) {
        latest := Some(RowUrl(tables, j));
      }
      j := j + 1;
    }
  }

  /** The scan over repositories, each index's rows scanned in turn. */
  method FindLatest(t: Fs.Tree, open: Path -> Result<RepoTables, DbError>, repos: seq<(string, string)>, name: string, installed: string)
    returns (r: Result<Option<string>, DbError>)
    ensures r == ReposLatest(t, open, repos, name, installed)
  {
    var latest: Option<string> := None;
    var k := 0;
    while k < |repos|
      invariant 0 <= k <= |repos|
      invariant ReposLatest(t, open, repos[..k], name, installed) == Success(latest)
    {
      ReposLatestStep(t, open, repos, name, installed, k, latest);
      var path := PackagesDbPath(repos[k].1);
      if Fs.Exists(t, path) {
        var read := open(path);
        if read.Failure? {
          ReposFailurePersists(t, open, repos, name, installed, k + 1);
          return Failure(read.error);
        }
        latest := ScanRows(read.value, name, installed, latest);
      }
      k := k + 1;
    }
    assert repos[..k] == repos;
    r := Success(latest);
  }

  method CheckForUpdate(t: Fs.Tree, db: Catalog.PackageDB, open: Path -> Result<RepoTables, DbError>, repos: seq<(string, string)>,
                        name: string)
    returns (r: Result<string, UpdaterError>)
    ensures r == CheckRun(t, db.State(), open, repos, name)
  {
    var installed := db.GetPackageVersion(name);
    if installed.None? {
      return Failure(UpdaterNotFound(name));
    }
    var found := FindLatest(t, open, repos, name, installed.value);
    if found.Failure? {
      return Failure(UpdaterDb(found.error));
    }
    if found.value.None? {
      return Failure(UpdaterNoNewVersion(name));
    }
    r := Success(found.value.value);
  }

  /** The scan of one index ends with the url of the last qualifying row. */
  lemma {:induction false} RowsLatestIsLast(tables: RepoTables, name: string, installed: string, prior: Option<string>, k: nat, i: nat)
    requires i < k <= |tables.packages| && Qualifies(tables.packages[i], name, installed)
    requires forall j :: i < j < k ==> !Qualifies(tables.packages[j], name, installed)
    ensures RowsLatest(tables, name, installed, prior, k) == Some(RowUrl(tables, i))
  {
    if k - 1 != i {
      RowsLatestIsLast(tables, name, installed, prior, k - 1, i);
    }
  }

  /** `u` is the url of a qualifying row in the index of repository `url`. */
  ghost predicate Offers(t: Fs.Tree, open: Path -> Result<RepoTables, DbError>, url: string, name: string, installed: string, u: string) {
    Fs.Exists(t, PackagesDbPath(url)) && open(PackagesDbPath(url)).Success? &&
    exists i :: 0 <= i < |open(PackagesDbPath(url)).value.packages| &&
      Qualifies(open(PackagesDbPath(url)).value.packages[i], name, installed) &&
      u == RowUrl(open(PackagesDbPath(url)).value, i)
  }

  /** Some row among the first `k` qualifies. */
  ghost predicate SomeQualify(tables: RepoTables, name: string, installed: string, k: nat)
    requires k <= |tables.packages|
  {
    exists i :: 0 <= i < k && Qualifies(tables.packages[i], name, installed)
  }

  lemma RowsLatestSource(tables: RepoTables, name: string, installed: string, prior: Option<string>, k: nat)
    requires k <= |tables.packages|
    ensures !SomeQualify(tables, name, installed, k) ==> RowsLatest(tables, name, installed, prior, k) == prior
    ensures SomeQualify(tables, name, installed, k) ==>
      RowsLatest(tables, name, installed, prior, k).Some? &&
      exists i :: 0 <= i < k && Qualifies(tables.packages[i], name, installed) &&
        RowsLatest(tables, name, installed, prior, k).value == RowUrl(tables, i)
  {
    RowsLatestKeepsPrior(tables, name, installed, prior, k);
    RowsLatestFromRow(tables, name, installed, prior, k);
  }

  /** With no qualifying row, the scan keeps what it started with. */
  lemma {:induction false} RowsLatestKeepsPrior(tables: RepoTables, name: string, installed: string, prior: Option<string>, k: nat)
    requires k <= |tables.packages|
    ensures !SomeQualify(tables, name, installed, k) ==> RowsLatest(tables, name, installed, prior, k) == prior
  {
    if k > 0 && !SomeQualify(tables, name, installed, k) {
      assert !SomeQualify(tables, name, installed, k - 1);
      assert !Qualifies(tables.packages[k - 1], name, installed);
      RowsLatestKeepsPrior(tables, name, installed, prior, k - 1);
    }
  }

  /** With a qualifying row, the scan ends with the url of one. */
  lemma {:induction false} RowsLatestFromRow(tables: RepoTables, name: string, installed: string, prior: Option<string>, k: nat)
    requires k <= |tables.packages|
    ensures SomeQualify(tables, name, installed, k) ==>
      RowsLatest(tables, name, installed, prior, k).Some? &&
      exists i :: 0 <= i < k && Qualifies(tables.packages[i], name, installed) &&
        RowsLatest(tables, name, installed, prior, k).value == RowUrl(tables, i)
  {
    if k > 0 && SomeQualify(tables, name, installed, k) {
      if Qualifies(tables.packages[k - 1], name, installed) {
        assert RowsLatest(tables, name, installed, prior, k) == Some(RowUrl(tables, k - 1));
      } else {
        var i :| 0 <= i < k && Qualifies(tables.packages[i], name, installed);
        BeforeFailing(tables.packages, (row: RepoRow) => Qualifies(row, name, installed), k, i);
        assert SomeQualify(tables, name, installed, k - 1);
        RowsLatestFromRow(tables, name, installed, prior, k - 1);
        assert RowsLatest(tables, name, installed, prior, k) == RowsLatest(tables, name, installed, prior, k - 1);
        var j :| 0 <= j < k - 1 && Qualifies(tables.packages[j], name, installed) &&
          RowsLatest(tables, name, installed, prior, k - 1).value == RowUrl(tables, j);
      }
    }
  }

  /** A row satisfying `P` among the first `k` comes before the `k`-th when that one does not. */
  lemma BeforeFailing<T>(xs: seq<T>, P: T -> bool, k: nat, i: nat)
    requires i < k <= |xs| && P(xs[i]) && !P(xs[k - 1])
    ensures i < k - 1
  {
  }

  /**
   * The scan reports nothing exactly when no repository offers anything,
   * and a url only when some repository offers it.
   */
  lemma {:induction false} ReposLatestSound(t: Fs.Tree, open: Path -> Result<RepoTables, DbError>, repos: seq<(string, string)>,
                                            name: string, installed: string)
    ensures ReposLatest(t, open, repos, name, installed) == Success(None) ==>
      forall k, u :: 0 <= k < |repos| ==> !Offers(t, open, repos[k].1, name, installed, u)
    ensures ReposLatest(t, open, repos, name, installed).Success? && ReposLatest(t, open, repos, name, installed).value.Some? ==>
      exists k :: 0 <= k < |repos| && Offers(t, open, repos[k].1, name, installed, ReposLatest(t, open, repos, name, installed).value.value)
    decreases |repos|
  {
    if repos != [] {
      var init := repos[..|repos| - 1];
      var last := repos[|repos| - 1];
      assert repos == init + [last];
      ReposLatestSound(t, open, init, name, installed);
      var before := ReposLatest(t, open, init, name, installed);
      if before.Success? {
        var after := ReposLatest(t, open, repos, name, installed);
        var p := PackagesDbPath(last.1);
        if Fs.Exists(t, p) && open(p).Success? {
          var tables := open(p).value;
          RowsLatestSource(tables, name, installed, before.value, |tables.packages|);
          if after == Success(None) {
            NoOffersSnoc(t, open, init, last, name, installed);
          }
          if after.Success? && after.value.Some? {
            if SomeQualify(tables, name, installed, |tables.packages|) {
              var i :| 0 <= i < |tables.packages| && Qualifies(tables.packages[i], name, installed) &&
                after.value.value == RowUrl(tables, i);
              assert Offers(t, open, last.1, name, installed, after.value.value);
            }
            OffersSnoc(t, open, init, last, name, installed, after.value.value);
          }
        } else {
          assert after.Success? ==> after == before;
          if after == Success(None) {
            NoOffersSnoc(t, open, init, last, name, installed);
          }
          if after.Success? && after.value.Some? {
            OffersSnoc(t, open, init, last, name, installed, after.value.value);
          }
        }
      }
    }
  }

  /** No repository offers anything when none of the earlier ones does and the last does not. */
  lemma NoOffersSnoc(t: Fs.Tree, open: Path -> Result<RepoTables, DbError>, init: seq<(string, string)>, last: (string, string),
                     name: string, installed: string)
    requires forall k, u :: 0 <= k < |init| ==> !Offers(t, open, init[k].1, name, installed, u)
    requires forall u :: !Offers(t, open, last.1, name, installed, u)
    ensures forall k, u :: 0 <= k < |init + [last]| ==> !Offers(t, open, (init + [last])[k].1, name, installed, u)
  {
    forall k, u | 0 <= k < |init + [last]|
      ensures !Offers(t, open, (init + [last])[k].1, name, installed, u)
    {
      if k < |init| {
        assert (init + [last])[k] == init[k];
      }
    }
  }

  /** A url offered by an earlier repository or by the last one is offered by one of them all. */
  lemma OffersSnoc(t: Fs.Tree, open: Path -> Result<RepoTables, DbError>, init: seq<(string, string)>, last: (string, string),
                   name: string, installed: string, u: string)
    requires (exists k :: 0 <= k < |init| && Offers(t, open, init[k].1, name, installed, u)) || Offers(t, open, last.1, name, installed, u)
    ensures exists k :: 0 <= k < |init + [last]| && Offers(t, open, (init + [last])[k].1, name, installed, u)
  {
    if Offers(t, open, last.1, name, installed, u) {
      assert (init + [last])[|init|] == last;
    } else {
      var k :| 0 <= k < |init| && Offers(t, open, init[k].1, name, installed, u);
      assert (init + [last])[k] == init[k];
    }
  }

  /** A repository whose index is missing is skipped: adding it anywhere changes nothing. */
  lemma {:induction false} MissingRepoIgnored(t: Fs.Tree, open: Path -> Result<RepoTables, DbError>, before: seq<(string, string)>,
                                              repo: (string, string), after: seq<(string, string)>, name: string, installed: string)
    requires !Fs.Exists(t, PackagesDbPath(repo.1))
    ensures ReposLatest(t, open, before + [repo] + after, name, installed) == ReposLatest(t, open, before + after, name, installed)
    decreases |after|
  {
    if after == [] {
      assert (before + [repo])[..|before|] == before;
      assert before + [repo] + after == before + [repo];
      assert before + after == before;
    } else {
      var init := after[..|after| - 1];
      var whole := before + [repo] + after;
      var without := before + after;
      assert whole[..|whole| - 1] == before + [repo] + init;
      assert without[..|without| - 1] == before + init;
      assert whole[|whole| - 1] == after[|after| - 1] == without[|without| - 1];
      MissingRepoIgnored(t, open, before, repo, init, name, installed);
    }
  }

  /** A successful check names a strictly newer row that some repository offers. */
  lemma CheckFindsNewer(t: Fs.Tree, s: Catalog.Tables, open: Path -> Result<RepoTables, DbError>, repos: seq<(string, string)>, name: string)
    ensures CheckRun(t, s, open, repos, name).Success? ==>
      Catalog.PackageVersion(s, name).Some? &&
      exists k :: 0 <= k < |repos| &&
        Offers(t, open, repos[k].1, name, Catalog.PackageVersion(s, name).value, CheckRun(t, s, open, repos, name).value)
    ensures CheckRun(t, s, open, repos, name) == Failure(UpdaterNoNewVersion(name)) ==>
      Catalog.PackageVersion(s, name).Some? &&
      forall k, u :: 0 <= k < |repos| ==> !Offers(t, open, repos[k].1, name, Catalog.PackageVersion(s, name).value, u)
  {
    if Catalog.PackageVersion(s, name).Some? {
      ReposLatestSound(t, open, repos, name, Catalog.PackageVersion(s, name).value);
    }
  }

  /**
   * Finding, as written: with rows `v2` then `v1` of one repository and
   * `installed < v1 < v2`, `check_for_update` returns the url of `v1`, the later row,
   * although `v2` is newer.
   */
  lemma LastRowWinsOverNewest(t: Fs.Tree, s: Catalog.Tables, open: Path -> Result<RepoTables, DbError>, repo: (string, string),
                              name: string, installed: Version, v1: Version, v2: Version, u1: string, u2: string)
    requires Catalog.PackageVersion(s, name) == Some(ToString(installed))
    requires Less(installed, v1) && Less(v1, v2)
    requires Fs.Exists(t, PackagesDbPath(repo.1))
    requires open(PackagesDbPath(repo.1)) == Success(RepoTables([RepoRow(name, ToString(v2), u2), RepoRow(name, ToString(v1), u1)], []))
    ensures CheckRun(t, s, open, [repo], name) == Success(u1)
    ensures Less(ParseOrZero(ToString(v1)), ParseOrZero(ToString(v2)))
  {
    ParseToString(installed);
    ParseToString(v1);
    ParseToString(v2);
    LastRowWins(t, s, open, repo, name, ToString(installed), ToString(v1), ToString(v2), u1, u2);
  }

  /** The same over the version texts, as stored in the index. */
  lemma LastRowWins(t: Fs.Tree, s: Catalog.Tables, open: Path -> Result<RepoTables, DbError>, repo: (string, string),
                    name: string, installed: string, s1: string, s2: string, u1: string, u2: string)
    requires Catalog.PackageVersion(s, name) == Some(installed)
    requires Less(ParseOrZero(installed), ParseOrZero(s1)) && Less(ParseOrZero(s1), ParseOrZero(s2))
    requires Fs.Exists(t, PackagesDbPath(repo.1))
    requires open(PackagesDbPath(repo.1)) == Success(RepoTables([RepoRow(name, s2, u2), RepoRow(name, s1, u1)], []))
    ensures CheckRun(t, s, open, [repo], name) == Success(u1)
  {
    var tables := RepoTables([RepoRow(name, s2, u2), RepoRow(name, s1, u1)], []);
    LessIrreflexive(ParseOrZero(s1));
    assert s1 != s2;
    assert Qualifies(tables.packages[1], name, installed);
    RowsLatestIsLast(tables, name, installed, None, 2, 1);
    assert FirstMatch(tables.packages, name, s1) == Some(1);
    assert RowUrl(tables, 1) == u1;
    assert [repo][..0] == [];
    assert ReposLatest(t, open, [repo], name, installed) == ScanRepo(t, open, repo.1, name, installed, None);
  }

  /** The bar a row must clear in the corrected scan: the newest version kept so far, or the installed one. */
  function Bar(best: Option<(Version, string)>, installed: string): Version {
    if best.Some? then best.value.0 else ParseOrZero(installed)
  }

  /** Corrected rule: a row replaces the kept one only when its version is strictly greater than the kept version. */
  function RowsNewest(tables: RepoTables, name: string, installed: string, best: Option<(Version, string)>, k: nat): Option<(Version, string)>
    requires k <= |tables.packages|
  {
    if k == 0 then best
    else
      var before := RowsNewest(tables, name, installed, best, k - 1);
      var row := tables.packages[k - 1];
      if row.name == name && Less(Bar(before, installed), ParseOrZero(row.version))
      then Some((ParseOrZero(row.version), RowUrl(tables, k - 1)))
      else before
  }

  function ReposNewest(t: Fs.Tree, open: Path -> Result<RepoTables, DbError>, repos: seq<(string, string)>, name: string,
                       installed: string): Result<Option<(Version, string)>, DbError>
    decreases |repos|
  {
    if repos == [] then Success(None)
    else
      match ReposNewest(t, open, repos[..|repos| - 1], name, installed)
      case Failure(e) => Failure(e)
      case Success(best) =>
        var p := PackagesDbPath(repos[|repos| - 1].1);
        if !Fs.Exists(t, p) then Success(best)
        else
          match open(p)
          case Failure(e) => Failure(e)
          case Success(tables) => Success(RowsNewest(tables, name, installed, best, |tables.packages|))
  }

  /** `check_for_update` with the corrected rule. */
  function CheckNewestRun(t: Fs.Tree, s: Catalog.Tables, open: Path -> Result<RepoTables, DbError>, repos: seq<(string, string)>,
                          name: string): Result<string, UpdaterError>
  {
    match Catalog.PackageVersion(s, name)
    case None => Failure(UpdaterNotFound(name))
    case Some(installed) =>
      match ReposNewest(t, open, repos, name, installed)
      case Failure(e) => Failure(UpdaterDb(e))
      case Success(None) => Failure(UpdaterNoNewVersion(name))
      case Success(Some(best)) => Success(best.1)
  }

  /** `v` is not below the version of any row of `tables` named `name`. */
  ghost predicate Dominates(tables: RepoTables, name: string, v: Version, k: nat)
    requires k <= |tables.packages|
  {
    forall i :: 0 <= i < k && tables.packages[i].name == name ==> !Less(v, ParseOrZero(tables.packages[i].version))
  }

  /** The bar starts at the installed version and only rises. */
  lemma {:induction false} BarAtLeastInstalled(tables: RepoTables, name: string, installed: string, best: Option<(Version, string)>, k: nat)
    requires k <= |tables.packages|
    requires best.Some? ==> !Less(best.value.0, ParseOrZero(installed))
    ensures !Less(Bar(RowsNewest(tables, name, installed, best, k), installed), ParseOrZero(installed))
  {
    if k > 0 {
      BarAtLeastInstalled(tables, name, installed, best, k - 1);
      RowsNewestRisesOnce(tables, name, installed, best, k);
      NotBelowTransitive(Bar(RowsNewest(tables, name, installed, best, k - 1), installed),
                         Bar(RowsNewest(tables, name, installed, best, k), installed), ParseOrZero(installed));
    }
  }

  /** The corrected scan never lowers the bar. */
  lemma {:induction false} RowsNewestRises(tables: RepoTables, name: string, installed: string, best: Option<(Version, string)>, k: nat)
    requires k <= |tables.packages|
    ensures !Less(Bar(RowsNewest(tables, name, installed, best, k), installed), Bar(best, installed))
  {
    if k > 0 {
      RowsNewestRises(tables, name, installed, best, k - 1);
    }
  }

  /** Corrected rule: the kept version is at least every version of the name among the rows scanned. */
  lemma RowsNewestDominates(tables: RepoTables, name: string, installed: string, best: Option<(Version, string)>, k: nat)
    requires k <= |tables.packages|
    ensures Dominates(tables, name, Bar(RowsNewest(tables, name, installed, best, k), installed), k)
  {
    forall i | 0 <= i < k && tables.packages[i].name == name
      ensures !Less(Bar(RowsNewest(tables, name, installed, best, k), installed), ParseOrZero(tables.packages[i].version))
    {
      RowsNewestDominatesAt(tables, name, installed, best, k, i);
    }
  }

  lemma {:induction false} RowsNewestDominatesAt(tables: RepoTables, name: string, installed: string, best: Option<(Version, string)>,
                                                 k: nat, i: nat)
    requires i < k <= |tables.packages| && tables.packages[i].name == name
    ensures !Less(Bar(RowsNewest(tables, name, installed, best, k), installed), ParseOrZero(tables.packages[i].version))
    decreases k
  {
    var b1 := Bar(RowsNewest(tables, name, installed, best, k - 1), installed);
    var b2 := Bar(RowsNewest(tables, name, installed, best, k), installed);
    var v := ParseOrZero(tables.packages[i].version);
    if i < k - 1 {
      RowsNewestDominatesAt(tables, name, installed, best, k - 1, i);
      assert !Less(b1, v);
      RowsNewestRisesOnce(tables, name, installed, best, k);
      assert !Less(b2, b1);
      NotBelowTransitive(b1, b2, v);
    } else {
      RowsNewestLastRow(tables, name, installed, best, k);
    }
  }

  /** After a row of the name is scanned, the bar is not below that row's version. */
  lemma RowsNewestLastRow(tables: RepoTables, name: string, installed: string, best: Option<(Version, string)>, k: nat)
    requires 0 < k <= |tables.packages| && tables.packages[k - 1].name == name
    ensures !Less(Bar(RowsNewest(tables, name, installed, best, k), installed), ParseOrZero(tables.packages[k - 1].version))
  {
    var b1 := Bar(RowsNewest(tables, name, installed, best, k - 1), installed);
    var v := ParseOrZero(tables.packages[k - 1].version);
    if Less(b1, v) {
      assert RowsNewest(tables, name, installed, best, k) == Some((v, RowUrl(tables, k - 1)));
      LessIrreflexive(v);
    }
  }

  /** Not being below is transitive. */
  lemma NotBelowTransitive(a: Version, b: Version, c: Version)
    requires !Less(a, c) && !Less(b, a)
    ensures !Less(b, c)
  {
    if Less(b, c) {
      LessTotal(a, b);
      if a != b {
        LessTransitive(a, b, c);
      }
    }
  }

  /** One more row never lowers the bar. */
  lemma RowsNewestRisesOnce(tables: RepoTables, name: string, installed: string, best: Option<(Version, string)>, k: nat)
    requires 0 < k <= |tables.packages|
    ensures !Less(Bar(RowsNewest(tables, name, installed, best, k), installed), Bar(RowsNewest(tables, name, installed, best, k - 1), installed))
  {
  }

  /** Corrected rule: whatever is kept beyond `best` comes from a row that offers an update. */
  lemma {:induction false} RowsNewestSource(tables: RepoTables, name: string, installed: string, best: Option<(Version, string)>, k: nat)
    requires k <= |tables.packages|
    requires best.Some? ==> !Less(best.value.0, ParseOrZero(installed))
    ensures RowsNewest(tables, name, installed, best, k) != best ==>
      RowsNewest(tables, name, installed, best, k).Some? &&
      exists i :: 0 <= i < k && Qualifies(tables.packages[i], name, installed) &&
        RowsNewest(tables, name, installed, best, k).value == (ParseOrZero(tables.packages[i].version), RowUrl(tables, i))
  {
    if k > 0 {
      RowsNewestSource(tables, name, installed, best, k - 1);
      BarAtLeastInstalled(tables, name, installed, best, k - 1);
      var before := RowsNewest(tables, name, installed, best, k - 1);
      var now := RowsNewest(tables, name, installed, best, k);
      var row := tables.packages[k - 1];
      var bar := Bar(before, installed);
      var inst := ParseOrZero(installed);
      if row.name == name && Less(bar, ParseOrZero(row.version)) {
        assert now == Some((ParseOrZero(row.version), RowUrl(tables, k - 1)));
        LessTotal(bar, inst);
        if bar != inst {
          LessTransitive(inst, bar, ParseOrZero(row.version));
        }
        assert Qualifies(tables.packages[k - 1], name, installed);
      } else {
        assert now == before;
        if before != best {
          var i :| 0 <= i < k - 1 && Qualifies(tables.packages[i], name, installed) &&
            before.value == (ParseOrZero(tables.packages[i].version), RowUrl(tables, i));
          assert 0 <= i < k;
        }
      }
    }
  }

  /** Every row of the name in the index of repository `url`, if it can be read, is at most `v`. */
  ghost predicate RepoDominated(t: Fs.Tree, open: Path -> Result<RepoTables, DbError>, url: string, name: string, v: Version) {
    Fs.Exists(t, PackagesDbPath(url)) && open(PackagesDbPath(url)).Success? ==>
      Dominates(open(PackagesDbPath(url)).value, name, v, |open(PackagesDbPath(url)).value.packages|)
  }

  /** Row `u` of the index of repository `url` offers version `v` as an update. */
  ghost predicate OffersVersion(t: Fs.Tree, open: Path -> Result<RepoTables, DbError>, url: string, name: string, installed: string,
                                v: Version, u: string) {
    Fs.Exists(t, PackagesDbPath(url)) && open(PackagesDbPath(url)).Success? &&
    exists i :: 0 <= i < |open(PackagesDbPath(url)).value.packages| &&
      Qualifies(open(PackagesDbPath(url)).value.packages[i], name, installed) &&
      v == ParseOrZero(open(PackagesDbPath(url)).value.packages[i].version) &&
      u == RowUrl(open(PackagesDbPath(url)).value, i)
  }

  /** The result of the corrected scan after the last repository. */
  function NewestAfter(t: Fs.Tree, open: Path -> Result<RepoTables, DbError>, url: string, name: string, installed: string,
                       best: Option<(Version, string)>): Option<(Version, string)>
    requires Fs.Exists(t, PackagesDbPath(url)) ==> open(PackagesDbPath(url)).Success?
  {
    var p := PackagesDbPath(url);
    if Fs.Exists(t, p) then RowsNewest(open(p).value, name, installed, best, |open(p).value.packages|) else best
  }

  lemma ReposNewestStep(t: Fs.Tree, open: Path -> Result<RepoTables, DbError>, repos: seq<(string, string)>, name: string, installed: string)
    requires repos != [] && ReposNewest(t, open, repos, name, installed).Success?
    ensures ReposNewest(t, open, repos[..|repos| - 1], name, installed).Success?
    ensures Fs.Exists(t, PackagesDbPath(repos[|repos| - 1].1)) ==> open(PackagesDbPath(repos[|repos| - 1].1)).Success?
    ensures ReposNewest(t, open, repos, name, installed).value ==
      NewestAfter(t, open, repos[|repos| - 1].1, name, installed, ReposNewest(t, open, repos[..|repos| - 1], name, installed).value)
  {
  }

  /** The corrected scan keeps a version at least that of every row of the name in every repository read. */
  lemma ReposNewestDominates(t: Fs.Tree, open: Path -> Result<RepoTables, DbError>, repos: seq<(string, string)>,
                             name: string, installed: string)
    requires ReposNewest(t, open, repos, name, installed).Success?
    ensures forall k :: 0 <= k < |repos| ==>
      RepoDominated(t, open, repos[k].1, name, Bar(ReposNewest(t, open, repos, name, installed).value, installed))
  {
    forall k | 0 <= k < |repos|
      ensures RepoDominated(t, open, repos[k].1, name, Bar(ReposNewest(t, open, repos, name, installed).value, installed))
    {
      ReposNewestDominatesAt(t, open, repos, name, installed, k);
    }
  }

  lemma {:induction false} ReposNewestDominatesAt(t: Fs.Tree, open: Path -> Result<RepoTables, DbError>, repos: seq<(string, string)>,
                                                  name: string, installed: string, k: nat)
    requires ReposNewest(t, open, repos, name, installed).Success? && k < |repos|
    ensures RepoDominated(t, open, repos[k].1, name, Bar(ReposNewest(t, open, repos, name, installed).value, installed))
    decreases |repos|
  {
    var init := repos[..|repos| - 1];
    var last := repos[|repos| - 1].1;
    ReposNewestStep(t, open, repos, name, installed);
    var before := ReposNewest(t, open, init, name, installed).value;
    var b1 := Bar(ReposNewest(t, open, repos, name, installed).value, installed);
    NewestAfterDominates(t, open, last, name, installed, before);
    assert b1 == Bar(NewestAfter(t, open, last, name, installed, before), installed);
    if k == |init| {
      assert repos[k].1 == last;
    } else {
      ReposNewestDominatesAt(t, open, init, name, installed, k);
      assert repos[k] == init[k];
      DominatedRaised(t, open, repos[k].1, name, Bar(before, installed), b1);
    }
  }

  /** The last repository's scan raises the bar to dominate that repository. */
  lemma NewestAfterDominates(t: Fs.Tree, open: Path -> Result<RepoTables, DbError>, url: string, name: string, installed: string,
                             before: Option<(Version, string)>)
    requires Fs.Exists(t, PackagesDbPath(url)) ==> open(PackagesDbPath(url)).Success?
    ensures !Less(Bar(NewestAfter(t, open, url, name, installed, before), installed), Bar(before, installed))
    ensures RepoDominated(t, open, url, name, Bar(NewestAfter(t, open, url, name, installed, before), installed))
  {
    var p := PackagesDbPath(url);
    if Fs.Exists(t, p) {
      var tables := open(p).value;
      RowsNewestRises(tables, name, installed, before, |tables.packages|);
      RowsNewestDominates(tables, name, installed, before, |tables.packages|);
    }
  }

  /** A repository dominated by a version stays dominated by any version not below it. */
  lemma DominatedRaised(t: Fs.Tree, open: Path -> Result<RepoTables, DbError>, url: string, name: string, b0: Version, b1: Version)
    requires RepoDominated(t, open, url, name, b0) && !Less(b1, b0)
    ensures RepoDominated(t, open, url, name, b1)
  {
    var q := PackagesDbPath(url);
    if Fs.Exists(t, q) && open(q).Success? {
      var rows := open(q).value.packages;
      forall i | 0 <= i < |rows| && rows[i].name == name
        ensures !Less(b1, ParseOrZero(rows[i].version))
      {
        var v := ParseOrZero(rows[i].version);
        assert !Less(b0, v);
        if Less(b1, v) {
          LessTotal(b0, b1);
          LessTransitive(b0, b1, v);
        }
      }
    }
  }

  /** Anything the corrected scan keeps is offered, as an update, by some repository. */
  lemma {:induction false} ReposNewestOffered(t: Fs.Tree, open: Path -> Result<RepoTables, DbError>, repos: seq<(string, string)>,
                                              name: string, installed: string)
    requires ReposNewest(t, open, repos, name, installed).Success? && ReposNewest(t, open, repos, name, installed).value.Some?
    ensures var best := ReposNewest(t, open, repos, name, installed).value.value;
      Less(ParseOrZero(installed), best.0) &&
      exists k :: 0 <= k < |repos| && OffersVersion(t, open, repos[k].1, name, installed, best.0, best.1)
    decreases |repos|
  {
    var init := repos[..|repos| - 1];
    var last := repos[|repos| - 1].1;
    ReposNewestStep(t, open, repos, name, installed);
    var before := ReposNewest(t, open, init, name, installed).value;
    var after := ReposNewest(t, open, repos, name, installed).value;
    if before.Some? {
      ReposNewestOffered(t, open, init, name, installed);
    }
    var p := PackagesDbPath(last);
    if after != before {
      var tables := open(p).value;
      RowsNewestSource(tables, name, installed, before, |tables.packages|);
      var i :| 0 <= i < |tables.packages| && Qualifies(tables.packages[i], name, installed) &&
        after.value == (ParseOrZero(tables.packages[i].version), RowUrl(tables, i));
      assert OffersVersion(t, open, repos[|repos| - 1].1, name, installed, after.value.0, after.value.1);
    } else {
      var k :| 0 <= k < |init| && OffersVersion(t, open, init[k].1, name, installed, after.value.0, after.value.1);
      assert repos[k] == init[k];
    }
  }

  /**
   * Corrected rule: a successful check returns the url of a row offering
   * a version that no row of the name in any readable repository exceeds.
   */
  lemma CheckNewestIsNewest(t: Fs.Tree, s: Catalog.Tables, open: Path -> Result<RepoTables, DbError>, repos: seq<(string, string)>,
                            name: string, u: string)
    requires CheckNewestRun(t, s, open, repos, name) == Success(u)
    ensures Catalog.PackageVersion(s, name).Some?
    ensures exists v :: (Less(ParseOrZero(Catalog.PackageVersion(s, name).value), v) &&
      (exists k :: 0 <= k < |repos| && OffersVersion(t, open, repos[k].1, name, Catalog.PackageVersion(s, name).value, v, u)) &&
      forall k :: 0 <= k < |repos| ==> RepoDominated(t, open, repos[k].1, name, v))
  {
    var installed := Catalog.PackageVersion(s, name).value;
    ReposNewestDominates(t, open, repos, name, installed);
    ReposNewestOffered(t, open, repos, name, installed);
    var best := ReposNewest(t, open, repos, name, installed).value.value;
    assert Bar(Some(best), installed) == best.0;
  }

  /** The two rules give an update for the same scans. */
  lemma {:induction false} RowsAgree(tables: RepoTables, name: string, installed: string, best: Option<(Version, string)>,
                                     prior: Option<string>, k: nat)
    requires k <= |tables.packages| && (best.None? <==> prior.None?)
    ensures RowsNewest(tables, name, installed, best, k).None? <==> RowsLatest(tables, name, installed, prior, k).None?
  {
    if k > 0 {
      RowsAgree(tables, name, installed, best, prior, k - 1);
      var before := RowsNewest(tables, name, installed, best, k - 1);
      var row := tables.packages[k - 1];
      if before.None? {
        assert Bar(before, installed) == ParseOrZero(installed);
        assert RowsNewest(tables, name, installed, best, k).None? <==> !Qualifies(row, name, installed);
      } else {
        assert RowsNewest(tables, name, installed, best, k).Some?;
      }
    }
  }

  lemma {:induction false} ReposAgree(t: Fs.Tree, open: Path -> Result<RepoTables, DbError>, repos: seq<(string, string)>,
                                      name: string, installed: string)
    ensures ReposNewest(t, open, repos, name, installed).Failure? <==> ReposLatest(t, open, repos, name, installed).Failure?
    ensures ReposNewest(t, open, repos, name, installed).Failure? ==>
      ReposNewest(t, open, repos, name, installed).error == ReposLatest(t, open, repos, name, installed).error
    ensures ReposNewest(t, open, repos, name, installed).Success? ==>
      (ReposNewest(t, open, repos, name, installed).value.None? <==> ReposLatest(t, open, repos, name, installed).value.None?)
    decreases |repos|
  {
    if repos != [] {
      var init := repos[..|repos| - 1];
      ReposAgree(t, open, init, name, installed);
      var p := PackagesDbPath(repos[|repos| - 1].1);
      var a := ReposNewest(t, open, init, name, installed);
      var b := ReposLatest(t, open, init, name, installed);
      if a.Success? && Fs.Exists(t, p) && open(p).Success? {
        var tables := open(p).value;
        RowsAgree(tables, name, installed, a.value, b.value, |tables.packages|);
      }
    }
  }

  /**
   * The corrected `check_for_update` fails exactly where the one as written fails,
   * with the same error, and differs only in which url it returns.
   */
  lemma CheckNewestAgrees(t: Fs.Tree, s: Catalog.Tables, open: Path -> Result<RepoTables, DbError>, repos: seq<(string, string)>,
                          name: string)
    ensures CheckNewestRun(t, s, open, repos, name).Failure? <==> CheckRun(t, s, open, repos, name).Failure?
    ensures CheckNewestRun(t, s, open, repos, name).Failure? ==>
      CheckNewestRun(t, s, open, repos, name).error == CheckRun(t, s, open, repos, name).error
  {
    if Catalog.PackageVersion(s, name).Some? {
      ReposAgree(t, open, repos, name, Catalog.PackageVersion(s, name).value);
    }
  }

  datatype Updated = Updated(tree: Fs.Tree, tables: Catalog.Tables, result: Outcome<UpdaterError>)

  /** `fetch_and_install_parallel(&[url])`, its error wrapped as the updater's. */
  function InstallFound(t: Fs.Tree, s: Catalog.Tables, h: Host, net: string -> Result<string, HttpError>, tmp: Path, url: string,
                        describe: Installer.InstallError -> string): Updated
  {
    var b := Fetcher.FetchRun(t, net, tmp, [url]);
    var order := if url in b.results then [url] else [];
    var d := Fetcher.InstallEach(b.tree, s, h, b.results, order, describe);
    Updated(d.tree, d.tables, if d.result.Fail? then Fail(UpdaterFetch(d.result.error)) else Pass)
  }

  /**
   * Installing one found url: when its download succeeded, the installer
   * runs on the downloaded archive and its failure becomes the updater's;
   * a failed download installs nothing and is not an error.
   */
  lemma InstallFoundEffect(t: Fs.Tree, s: Catalog.Tables, h: Host, net: string -> Result<string, HttpError>, tmp: Path, url: string,
                           describe: Installer.InstallError -> string)
    ensures var b := Fetcher.FetchRun(t, net, tmp, [url]);
      var u := InstallFound(t, s, h, net, tmp, url, describe);
      url in b.results ==>
        var run := Installer.InstallRun(b.tree, s, h, b.results[url]);
        u.tree == run.tree && u.tables == run.tables &&
        (run.result.Pass? ==> u.result == Pass) &&
        (run.result.Fail? ==> u.result == Fail(UpdaterFetch(Errors.Installer(Fetcher.FailureMessage(url, describe(run.result.error))))))
    ensures var b := Fetcher.FetchRun(t, net, tmp, [url]);
      url !in b.results ==> InstallFound(t, s, h, net, tmp, url, describe) == Updated(b.tree, s, Pass)
  {
    var b := Fetcher.FetchRun(t, net, tmp, [url]);
    if url in b.results {
      var run := Installer.InstallRun(b.tree, s, h, b.results[url]);
      var d := Fetcher.InstallEach(b.tree, s, h, b.results, [url], describe);
      assert [url][0] == url && [url][1..] == [];
      match run.result {
        case Fail(e) =>
          assert d == Fetcher.Delivery(run.tree, run.tables, Fail(Errors.Installer(Fetcher.FailureMessage(url, describe(e)))));
        case Pass =>
          assert d == Fetcher.InstallEach(run.tree, run.tables, h, b.results, [], describe);
      }
    } else {
      assert Fetcher.InstallEach(b.tree, s, h, b.results, [], describe) == Fetcher.Delivery(b.tree, s, Pass);
    }
  }

  /** `update_package(name)`: check, then fetch and install the url found. */
  function UpdateRun(t: Fs.Tree, s: Catalog.Tables, h: Host, open: Path -> Result<RepoTables, DbError>, repos: seq<(string, string)>,
                     net: string -> Result<string, HttpError>, tmp: Path, name: string, describe: Installer.InstallError -> string): (u: Updated)
    ensures CheckRun(t, s, open, repos, name).Failure? ==> u == Updated(t, s, Fail(CheckRun(t, s, open, repos, name).error))
  {
    match CheckRun(t, s, open, repos, name)
    case Failure(e) => Updated(t, s, Fail(e))
    case Success(url) => InstallFound(t, s, h, net, tmp, url, describe)
  }

  /** A one-url batch is walked as that url, when it was downloaded. */
  lemma SingleOrder(t: Fs.Tree, net: string -> Result<string, HttpError>, tmp: Path, url: string, order: seq<string>)
    requires Fetcher.Enumerates(order, Fetcher.FetchRun(t, net, tmp, [url]).results)
    ensures order == if url in Fetcher.FetchRun(t, net, tmp, [url]).results then [url] else []
  {
    Fetcher.FetchResults(t, net, tmp, map[], [url]);
    Fetcher.EnumerateSingle(order, Fetcher.FetchRun(t, net, tmp, [url]).results, url);
  }

  method UpdatePackage(fs: Fs.FileSystem, db: Catalog.PackageDB, h: Host, open: Path -> Result<RepoTables, DbError>,
                       repos: seq<(string, string)>, net: string -> Result<string, HttpError>, tmp: Path, name: string,
                       describe: Installer.InstallError -> string)
    returns (r: Outcome<UpdaterError>)
    modifies fs, db
    ensures Updated(fs.tree, db.State(), r) == UpdateRun(old(fs.tree), old(db.State()), h, open, repos, net, tmp, name, describe)
  {
    var found := CheckForUpdate(fs.tree, db, open, repos, name);
    if found.Failure? {
      return Fail(found.error);
    }
    ghost var t0 := fs.tree;
    var o, order := Fetcher.FetchAndInstall(fs, db, h, net, tmp, [found.value], describe);
    SingleOrder(t0, net, tmp, found.value, order);
    r := if o.Fail? then Fail(UpdaterFetch(o.error)) else Pass;
  }

  /** `update_from_file(path)`: the archive is handed over as a `file://` url. */
  function UpdateFromFileRun(t: Fs.Tree, s: Catalog.Tables, h: Host, net: string -> Result<string, HttpError>, tmp: Path, path: Path,
                             describe: Installer.InstallError -> string): Updated
  {
    InstallFound(t, s, h, net, tmp, Fetcher.FileScheme + path, describe)
  }

  /** Updating from a file is installing that very file, with nothing downloaded. */
  lemma UpdateFromFileInstalls(t: Fs.Tree, s: Catalog.Tables, h: Host, net: string -> Result<string, HttpError>, tmp: Path, path: Path,
                               describe: Installer.InstallError -> string)
    ensures var run := Installer.InstallRun(t, s, h, path);
      var u := UpdateFromFileRun(t, s, h, net, tmp, path, describe);
      u.tree == run.tree && u.tables == run.tables &&
      (run.result.Pass? ==> u.result == Pass) &&
      (run.result.Fail? ==>
        u.result == Fail(UpdaterFetch(Errors.Installer(Fetcher.FailureMessage(Fetcher.FileScheme + path, describe(run.result.error))))))
  {
    var url := Fetcher.FileScheme + path;
    assert StartsWith(url, Fetcher.FileScheme) by {
      assert url[..|Fetcher.FileScheme|] == Fetcher.FileScheme;
    }
    var d := Fetcher.DownloadRun(t, net, tmp, url);
    assert d.tree == t && d.result.Success? && Fetcher.FileScheme + d.result.value == url;
    assert d.result.value == path;
    assert [url][0] == url && [url][1..] == [];
    assert Fetcher.FetchFrom(t, net, tmp, map[url := path], []) == Fetcher.Batch(t, map[url := path]);
    assert Fetcher.FetchRun(t, net, tmp, [url]) == Fetcher.FetchFrom(t, net, tmp, map[][url := path], []);
    assert map[][url := path] == map[url := path];
    InstallFoundEffect(t, s, h, net, tmp, url, describe);
  }

  method UpdateFromFile(fs: Fs.FileSystem, db: Catalog.PackageDB, h: Host, net: string -> Result<string, HttpError>, tmp: Path,
                        path: Path, describe: Installer.InstallError -> string)
    returns (r: Outcome<UpdaterError>)
    modifies fs, db
    ensures Updated(fs.tree, db.State(), r) == UpdateFromFileRun(old(fs.tree), old(db.State()), h, net, tmp, path, describe)
  {
    var url := Fetcher.FileScheme + path;
    ghost var t0 := fs.tree;
    var o, order := Fetcher.FetchAndInstall(fs, db, h, net, tmp, [url], describe);
    SingleOrder(t0, net, tmp, url, order);
    r := if o.Fail? then Fail(UpdaterFetch(o.error)) else Pass;
  }
}
