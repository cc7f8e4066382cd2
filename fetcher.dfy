/**
 * The fetcher: resolving a package url to a local archive (a `file://`
 * path as it is, anything else downloaded into the temporary directory),
 * collecting the archives of a batch of urls, and installing them one
 * after the other.
 */
module Fetcher {
  import opened Wrappers
  import opened Strings
  import opened Paths
  import Fs
  import opened Foreign
  import Errors
  import Catalog
  import opened Machine
  import Installer

  const FileScheme := "file://"

  const NoFileNameMessage := "Unable to determine filename from URL"

  /** What one download leaves behind: the file system and the local path or the error. */
  datatype Download = Download(tree: Fs.Tree, result: Result<Path, Errors.FetchError>)

  /**
   * `download_package(url)`: `net` is the HTTP client (the response body or
   * its error) and `tmp` is `std::env::temp_dir()`.
   */
  function DownloadRun(t: Fs.Tree, net: string -> Result<string, HttpError>, tmp: Path, url: string): (d: Download)
    ensures StartsWith(url, FileScheme) ==> d.tree == t && d.result.Success? && FileScheme + d.result.value == url
    ensures !StartsWith(url, FileScheme) && net(url).Failure? ==> d == Download(t, Failure(Errors.Http(net(url).error)))
    ensures !StartsWith(url, FileScheme) && net(url).Success? && FileName(url).None? ==>
      d == Download(t, Failure(Errors.FetchIo(Fs.IoError(Fs.InvalidData, NoFileNameMessage))))
    ensures !StartsWith(url, FileScheme) && d.result.Success? ==>
      FileName(url).Some? && d.result.value == Join(tmp, FileName(url).value) && d.result.value in d.tree &&
      Fs.ReadToString(d.tree, d.result.value) == Success(net(url).value)
  {
    match StripPrefix(url, FileScheme)
    case Some(rest) => Download(t, Success(rest))
    case None =>
      match net(url)
      case Failure(e) => Download(t, Failure(Errors.Http(e)))
      case Success(body) =>
        match FileName(url)
        case None => Download(t, Failure(Errors.FetchIo(Fs.IoError(Fs.InvalidData, NoFileNameMessage))))
        case Some(name) =>
          var p := Join(tmp, name);
          match Fs.TreeWrite(t, p, body)
          case Failure(e) => Download(t, Failure(Errors.FetchIo(e)))
          case Success(t2) =>
            Fs.WriteThenRead(t, p, body);
            Download(t2, Success(p))
  }

  method DownloadPackage(fs: Fs.FileSystem, net: string -> Result<string, HttpError>, tmp: Path, url: string)
    returns (r: Result<Path, Errors.FetchError>)
    modifies fs
    ensures Download(fs.tree, r) == DownloadRun(old(fs.tree), net, tmp, url)
  {
    var stripped := StripPrefix(url, FileScheme);
    if stripped.Some? {
      return Success(stripped.value);
    }
    var resp := net(url);
    if resp.Failure? {
      return Failure(Errors.Http(resp.error));
    }
    var filename := FileName(url);
    if filename.None? {
      return Failure(Errors.FetchIo(Fs.IoError(Fs.InvalidData, NoFileNameMessage)));
    }
    var tmpPath := Join(tmp, filename.value);
    var o := fs.Write(tmpPath, resp.value);
    if o.Fail? {
      return Failure(Errors.FetchIo(o.error));
    }
    r := Success(tmpPath);
  }

  /** A batch of downloads: the file system and the url-to-path table of the successful ones. */
  datatype Batch = Batch(tree: Fs.Tree, results: map<string, Path>)

  /** The downloads of `urls`, one after the other, added to `acc`; failures are left out. */
  function FetchFrom(t: Fs.Tree, net: string -> Result<string, HttpError>, tmp: Path, acc: map<string, Path>, urls: seq<string>): Batch
    decreases |urls|
  {
    if urls == [] then Batch(t, acc)
    else
      var d := DownloadRun(t, net, tmp, urls[0]);
      FetchFrom(d.tree, net, tmp, if d.result.Success? then acc[urls[0] := d.result.value] else acc, urls[1..])
  }

  /** `fetch_packages(urls)`. */
  function FetchRun(t: Fs.Tree, net: string -> Result<string, HttpError>, tmp: Path, urls: seq<string>): Batch {
    FetchFrom(t, net, tmp, map[], urls)
  }

  /** `fetch_packages`, with the downloads completing in list order. */
  method FetchPackages(fs: Fs.FileSystem, net: string -> Result<string, HttpError>, tmp: Path, urls: seq<string>)
    returns (results: map<string, Path>)
    modifies fs
    ensures Batch(fs.tree, results) == FetchRun(old(fs.tree), net, tmp, urls)
  {
    results := map[];
    var i := 0;
    assert urls[0..] == urls;
    while i < |urls|
      invariant 0 <= i <= |urls|
      invariant FetchFrom(fs.tree, net, tmp, results, urls[i..]) == FetchRun(old(fs.tree), net, tmp, urls)
    {
      assert urls[i..][1..] == urls[i + 1..];
      var res := DownloadPackage(fs, net, tmp, urls[i]);
      if res.Success? {
        results := results[urls[i] := res.value];
      }
      i := i + 1;
    }
  }

  /** The path a url resolves to: the rest of a `file://` url, or the temporary file named after the url. */
  predicate Resolved(tmp: Path, url: string, p: Path) {
    if StartsWith(url, FileScheme) then FileScheme + p == url
    else FileName(url).Some? && p == Join(tmp, FileName(url).value)
  }

  /** The batch only adds urls of the list, never drops one, and maps each to where it resolves. */
  lemma {:induction false} FetchResults(t: Fs.Tree, net: string -> Result<string, HttpError>, tmp: Path, acc: map<string, Path>, urls: seq<string>)
    requires forall u :: u in acc ==> Resolved(tmp, u, acc[u])
    ensures forall u :: u in acc ==> u in FetchFrom(t, net, tmp, acc, urls).results
    ensures forall u :: u in FetchFrom(t, net, tmp, acc, urls).results ==> u in acc || u in urls
    ensures forall u :: u in FetchFrom(t, net, tmp, acc, urls).results ==> Resolved(tmp, u, FetchFrom(t, net, tmp, acc, urls).results[u])
    decreases |urls|
  {
    if urls != [] {
      var d := DownloadRun(t, net, tmp, urls[0]);
      var acc1 := if d.result.Success? then acc[urls[0] := d.result.value] else acc;
      FetchResults(d.tree, net, tmp, acc1, urls[1..]);
      forall u | u in FetchFrom(t, net, tmp, acc, urls).results
        ensures u in acc || u in urls
      {
        if u !in acc1 {
          assert u in urls[1..];
        }
      }
    }
  }

  /** A `file://` url never fails: it is in the batch, mapped to the rest of the url. */
  lemma {:induction false} FetchIncludesLocal(t: Fs.Tree, net: string -> Result<string, HttpError>, tmp: Path, urls: seq<string>, i: int)
    requires 0 <= i < |urls| && StartsWith(urls[i], FileScheme)
    ensures urls[i] in FetchRun(t, net, tmp, urls).results
    ensures FileScheme + FetchRun(t, net, tmp, urls).results[urls[i]] == urls[i]
  {
    FetchResults(t, net, tmp, map[], urls);
    FetchReaches(t, net, tmp, map[], urls, i);
  }

  lemma {:induction false} FetchReaches(t: Fs.Tree, net: string -> Result<string, HttpError>, tmp: Path, acc: map<string, Path>, urls: seq<string>, i: int)
    requires 0 <= i < |urls| && StartsWith(urls[i], FileScheme)
    ensures urls[i] in FetchFrom(t, net, tmp, acc, urls).results
    decreases i
  {
    var d := DownloadRun(t, net, tmp, urls[0]);
    var acc1 := if d.result.Success? then acc[urls[0] := d.result.value] else acc;
    if i == 0 {
      FetchKeeps(d.tree, net, tmp, acc1, urls[1..], urls[0]);
    } else {
      assert urls[1..][i - 1] == urls[i];
      FetchReaches(d.tree, net, tmp, acc1, urls[1..], i - 1);
    }
  }

  lemma {:induction false} FetchKeeps(t: Fs.Tree, net: string -> Result<string, HttpError>, tmp: Path, acc: map<string, Path>, urls: seq<string>, u: string)
    requires u in acc
    ensures u in FetchFrom(t, net, tmp, acc, urls).results
    decreases |urls|
  {
    if urls != [] {
      var d := DownloadRun(t, net, tmp, urls[0]);
      FetchKeeps(d.tree, net, tmp, if d.result.Success? then acc[urls[0] := d.result.value] else acc, urls[1..], u);
    }
  }

  /** A remote url whose request fails is left out of the batch; the rest of the batch goes on. */
  lemma {:induction false} FetchOmitsFailed(t: Fs.Tree, net: string -> Result<string, HttpError>, tmp: Path, acc: map<string, Path>, urls: seq<string>, u: string)
    requires !StartsWith(u, FileScheme) && net(u).Failure? && u !in acc
    ensures u !in FetchFrom(t, net, tmp, acc, urls).results
    decreases |urls|
  {
    if urls != [] {
      var d := DownloadRun(t, net, tmp, urls[0]);
      FetchOmitsFailed(d.tree, net, tmp, if d.result.Success? then acc[urls[0] := d.result.value] else acc, urls[1..], u);
    }
  }

  /** What installing a batch leaves behind. */
  datatype Delivery = Delivery(tree: Fs.Tree, tables: Catalog.Tables, result: Outcome<Errors.FetchError>)

  function FailureMessage(url: string, detail: string): string {
    "Installation failed for " + url + ": " + detail
  }

  /** `order` lists each downloaded url once: the order the table is iterated in. */
  ghost predicate Enumerates(order: seq<string>, m: map<string, Path>) {
    (forall u :: u in order <==> u in m) &&
    (forall i, j :: 0 <= i < j < |order| ==> order[i] != order[j])
  }

  /**
   * `install_fetched_packages`: install each archive in `order`, stopping at
   * the first failure; `describe` is the `Debug` rendering of the installer's error.
   */
  function InstallEach(t: Fs.Tree, s: Catalog.Tables, h: Host, packages: map<string, Path>, order: seq<string>,
                       describe: Installer.InstallError -> string): Delivery
    requires forall i :: 0 <= i < |order| ==> order[i] in packages
    decreases |order|
  {
    if order == [] then Delivery(t, s, Pass)
    else
      var run := Installer.InstallRun(t, s, h, packages[order[0]]);
      match run.result
      case Fail(e) => Delivery(run.tree, run.tables, Fail(Errors.Installer(FailureMessage(order[0], describe(e)))))
      case Pass => InstallEach(run.tree, run.tables, h, packages, order[1..], describe)
  }

  method InstallFetchedPackages(fs: Fs.FileSystem, db: Catalog.PackageDB, h: Host, packages: map<string, Path>, order: seq<string>,
                                describe: Installer.InstallError -> string)
    returns (r: Outcome<Errors.FetchError>)
    requires Enumerates(order, packages)
    modifies fs, db
    ensures Delivery(fs.tree, db.State(), r) == InstallEach(old(fs.tree), old(db.State()), h, packages, order, describe)
  {
    var i := 0;
    assert order[0..] == order;
    while i < |order|
      invariant 0 <= i <= |order|
      invariant InstallEach(fs.tree, db.State(), h, packages, order[i..], describe) ==
                InstallEach(old(fs.tree), old(db.State()), h, packages, order, describe)
    {
      var url := order[i];
      assert order[i..][0] == url && order[i..][1..] == order[i + 1..];
      ghost var run := Installer.InstallRun(fs.tree, db.State(), h, packages[url]);
      ghost var rest := InstallEach(fs.tree, db.State(), h, packages, order[i..], describe);
      var o := Installer.Install(fs, db, h, packages[url]);
      assert fs.tree == run.tree && db.State() == run.tables && o == run.result;
      if o.Fail? {
        assert rest == Delivery(run.tree, run.tables, Fail(Errors.Installer(FailureMessage(url, describe(o.error)))));
        return Fail(Errors.Installer(FailureMessage(url, describe(o.error))));
      }
      i := i + 1;
    }
    r := Pass;
  }

  /** Installing stops at the first failure: the entries after a failing prefix never run. */
  lemma {:induction false} InstallEachSplit(t: Fs.Tree, s: Catalog.Tables, h: Host, packages: map<string, Path>,
                                            o1: seq<string>, o2: seq<string>, describe: Installer.InstallError -> string)
    requires forall i :: 0 <= i < |o1| ==> o1[i] in packages
    requires forall i :: 0 <= i < |o2| ==> o2[i] in packages
    ensures forall i :: 0 <= i < |o1 + o2| ==> (o1 + o2)[i] in packages
    ensures InstallEach(t, s, h, packages, o1 + o2, describe) ==
      var first := InstallEach(t, s, h, packages, o1, describe);
      if first.result.Fail? then first else InstallEach(first.tree, first.tables, h, packages, o2, describe)
    decreases |o1|
  {
    if o1 == [] {
      assert o1 + o2 == o2;
    } else {
      assert (o1 + o2)[0] == o1[0];
      assert (o1 + o2)[1..] == o1[1..] + o2;
      var run := Installer.InstallRun(t, s, h, packages[o1[0]]);
      if run.result.Pass? {
        InstallEachSplit(run.tree, run.tables, h, packages, o1[1..], o2, describe);
      }
    }
  }

  /** A failed batch names one of its urls and the installer's error. */
  lemma {:induction false} InstallEachFailure(t: Fs.Tree, s: Catalog.Tables, h: Host, packages: map<string, Path>, order: seq<string>,
                                              describe: Installer.InstallError -> string)
    requires forall i :: 0 <= i < |order| ==> order[i] in packages
    ensures InstallEach(t, s, h, packages, order, describe).result.Fail? ==>
      exists i, e :: 0 <= i < |order| &&
        InstallEach(t, s, h, packages, order, describe).result.error == Errors.Installer(FailureMessage(order[i], describe(e)))
    decreases |order|
  {
    if order != [] {
      var run := Installer.InstallRun(t, s, h, packages[order[0]]);
      var whole := InstallEach(t, s, h, packages, order, describe);
      if run.result.Pass? {
        var rest := InstallEach(run.tree, run.tables, h, packages, order[1..], describe);
        assert whole == rest;
        InstallEachFailure(run.tree, run.tables, h, packages, order[1..], describe);
        if rest.result.Fail? {
          var i, e :| 0 <= i < |order[1..]| && rest.result.error == Errors.Installer(FailureMessage(order[1..][i], describe(e)));
          assert order[1..][i] == order[i + 1];
          assert whole.result.error == Errors.Installer(FailureMessage(order[i + 1], describe(e)));
        }
      } else {
        assert whole.result.error == Errors.Installer(FailureMessage(order[0], describe(run.result.error)));
      }
    }
  }

  /** A batch of one installs exactly that archive, with the installer's outcome. */
  lemma InstallEachSingle(t: Fs.Tree, s: Catalog.Tables, h: Host, packages: map<string, Path>, u: string,
                          describe: Installer.InstallError -> string)
    requires u in packages
    ensures var run := Installer.InstallRun(t, s, h, packages[u]);
      var d := InstallEach(t, s, h, packages, [u], describe);
      d.tree == run.tree && d.tables == run.tables && (d.result.Pass? <==> run.result.Pass?)
  {
    assert [u][1..] == [];
  }

  /** A table of at most the one key `u` is iterated as `[u]`, or not at all. */
  lemma EnumerateSingle(order: seq<string>, m: map<string, Path>, u: string)
    requires Enumerates(order, m) && forall k :: k in m ==> k == u
    ensures order == if u in m then [u] else []
  {
    if |order| >= 2 {
      OnlyKey(order, m, u, 0);
      OnlyKey(order, m, u, 1);
      assert false;
    }
    if |order| == 1 {
      OnlyKey(order, m, u, 0);
      assert order == [u];
    } else {
      assert order == [];
    }
  }

  lemma OnlyKey(order: seq<string>, m: map<string, Path>, u: string, i: int)
    requires (forall k :: k in order <==> k in m) && (forall k :: k in m ==> k == u) && 0 <= i < |order|
    ensures order[i] == u
  {
    assert order[i] in order;
  }

  /** The url table's keys, in whatever order a walk over them yields. */
  method KeysInSomeOrder(m: map<string, Path>) returns (order: seq<string>)
    ensures Enumerates(order, m)
  {
    order := [];
    var remaining := m.Keys;
    while remaining != {}
      invariant forall u :: u in order || u in remaining <==> u in m
      invariant forall u :: u in order ==> u !in remaining
      invariant forall i, j :: 0 <= i < j < |order| ==> order[i] != order[j]
      decreases remaining
    {
      var u :| u in remaining;
      order := order + [u];
      remaining := remaining - {u};
    }
  }

  /**
   * `fetch_and_install_parallel`: download the batch, then install what was
   * downloaded; `order` is the order the downloaded table was walked in.
   */
  method FetchAndInstall(fs: Fs.FileSystem, db: Catalog.PackageDB, h: Host, net: string -> Result<string, HttpError>, tmp: Path,
                         urls: seq<string>, describe: Installer.InstallError -> string)
    returns (r: Outcome<Errors.FetchError>, order: seq<string>)
    modifies fs, db
    ensures Enumerates(order, FetchRun(old(fs.tree), net, tmp, urls).results)
    ensures var b := FetchRun(old(fs.tree), net, tmp, urls);
      Delivery(fs.tree, db.State(), r) == InstallEach(b.tree, old(db.State()), h, b.results, order, describe)
  {
    var downloaded := FetchPackages(fs, net, tmp, urls);
    order := KeysInSomeOrder(downloaded);
    r := InstallFetchedPackages(fs, db, h, downloaded, order, describe);
  }
}
