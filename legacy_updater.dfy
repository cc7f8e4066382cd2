/**
 * The older updater entry point: the same scan as the package updater,
 * with the repository table read first-hand and "no newer version" not an
 * error.  Its errors are written with the package updater's error type;
 * the older one has the same variants except `NoNewVersion`, which this
 * entry point never returns.
 */
module LegacyUpdater {
  import opened Wrappers
  import opened Paths
  import Fs
  import opened Foreign
  import opened Errors
  import Catalog
  import opened Machine
  import Installer
  import opened Repo
  import Fetcher
  import opened Updater

  /**
   * `update_package(name)`: `parsed` is what `parse_repos` made of
   * `~/.uhpm/repos.ron`, read only once the package is known to be installed.
   */
  function LegacyUpdateRun(t: Fs.Tree, s: Catalog.Tables, h: Host, open: Path -> Result<RepoTables, DbError>,
                           parsed: Result<seq<(string, string)>, RepoError>, net: string -> Result<string, HttpError>, tmp: Path,
                           name: string, describe: Installer.InstallError -> string): (u: Updated)
    ensures Catalog.PackageVersion(s, name).None? ==> u == Updated(t, s, Fail(UpdaterNotFound(name)))
    ensures Catalog.PackageVersion(s, name).Some? && parsed.Failure? ==> u == Updated(t, s, Fail(UpdaterRepo(parsed.error)))
    ensures u.result.Fail? ==> !u.result.error.UpdaterNoNewVersion? && !u.result.error.UpdaterIo?
  {
    match Catalog.PackageVersion(s, name)
    case None => Updated(t, s, Fail(UpdaterNotFound(name)))
    case Some(installed) =>
      match parsed
      case Failure(e) => Updated(t, s, Fail(UpdaterRepo(e)))
      case Success(repos) =>
        match ReposLatest(t, open, repos, name, installed)
        case Failure(e) => Updated(t, s, Fail(UpdaterDb(e)))
        case Success(None) => Updated(t, s, Pass)
        case Success(Some(url)) => InstallFound(t, s, h, net, tmp, url, describe)
  }

  /**
   * With the repository table read, the older entry point does what the
   * package updater does, except that finding no newer version is a
   * success that changes nothing.
   */
  lemma LegacyMatchesUpdate(t: Fs.Tree, s: Catalog.Tables, h: Host, open: Path -> Result<RepoTables, DbError>,
                            repos: seq<(string, string)>, net: string -> Result<string, HttpError>, tmp: Path, name: string,
                            describe: Installer.InstallError -> string)
    ensures CheckRun(t, s, open, repos, name) == Failure(UpdaterNoNewVersion(name)) ==>
      LegacyUpdateRun(t, s, h, open, Success(repos), net, tmp, name, describe) == Updated(t, s, Pass)
    ensures CheckRun(t, s, open, repos, name) != Failure(UpdaterNoNewVersion(name)) ==>
      LegacyUpdateRun(t, s, h, open, Success(repos), net, tmp, name, describe) == UpdateRun(t, s, h, open, repos, net, tmp, name, describe)
  {
  }

  method UpdatePackage(fs: Fs.FileSystem, db: Catalog.PackageDB, h: Host, open: Path -> Result<RepoTables, DbError>,
                       parsed: Result<seq<(string, string)>, RepoError>, net: string -> Result<string, HttpError>, tmp: Path,
                       name: string, describe: Installer.InstallError -> string)
    returns (r: Outcome<UpdaterError>)
    modifies fs, db
    ensures Updated(fs.tree, db.State(), r) == LegacyUpdateRun(old(fs.tree), old(db.State()), h, open, parsed, net, tmp, name, describe)
  {
    var installed := db.GetPackageVersion(name);
    if installed.None? {
      return Fail(UpdaterNotFound(name));
    }
    if parsed.Failure? {
      return Fail(UpdaterRepo(parsed.error));
    }
    var latest := FindLatest(fs.tree, open, parsed.value, name, installed.value);
    if latest.Failure? {
      return Fail(UpdaterDb(latest.error));
    }
    if latest.value.None? {
      return Pass;
    }
    ghost var t0 := fs.tree;
    var o, order := Fetcher.FetchAndInstall(fs, db, h, net, tmp, [latest.value.value], describe);
    SingleOrder(t0, net, tmp, latest.value.value, order);
    r := if o.Fail? then Fail(UpdaterFetch(o.error)) else Pass;
  }
}
