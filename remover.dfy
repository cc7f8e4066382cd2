/**
 * `remove`: the package directory of the version the catalog reports is
 * deleted, then every file the catalog recorded for the package, then the
 * package's rows.  `RemoveRun` states what the source does; the method
 * `Remove` performs it one call at a time.
 *
 * The recorded files are the links `create_symlinks` made, and they point
 * into the package directory.  Because the directory goes first and the
 * loop asks `Path::exists`, which follows links, those links are dangling
 * at their turn and are never deleted (`DanglingLinkSurvives`).
 * `RemoveFilesFixed` asks `symlink_metadata` instead and deletes every
 * recorded path (`RemoveFixedClearsRecorded`).
 *
 * The source's own `DeleteError` has only an I/O and a database case; the
 * shared `RemoveError` used here adds `RemoveNotFound`, which `remove`
 * never produces: every failure below is a `RemoveIo`.
 */
module Remover {
  import opened Wrappers
  import opened Paths
  import Fs
  import Catalog
  import opened Errors
  import opened Machine
  import opened Installer

  /** One recorded path, removed when `present` says it is there: directories recursively, others as files. */
  function RemoveOne(t: Fs.Tree, f: Path, present: bool): Result<Fs.Tree, Fs.IoError> {
    if !present then Success(t)
    else if Fs.IsDir(t, f) then Fs.TreeRemoveDirAll(t, f)
    else Fs.TreeRemoveFile(t, f)
  }

  /** The loop over the recorded files as written: a path counts as there when `Path::exists` says so. */
  function RemoveFiles(t: Fs.Tree, files: seq<Path>): Step<()>
    decreases |files|
  {
    if files == [] then Step(t, Success(()))
    else
      match RemoveOne(t, files[0], Fs.Exists(t, files[0]))
      case Failure(e) => Step(t, Failure(e))
      case Success(t1) => RemoveFiles(t1, files[1..])
  }

  /** The loop with the test `symlink_metadata(path).is_ok()`, which also sees a dangling link. */
  function RemoveFilesFixed(t: Fs.Tree, files: seq<Path>): Step<()>
    decreases |files|
  {
    if files == [] then Step(t, Success(()))
    else
      match RemoveOne(t, files[0], Fs.Present(t, files[0]))
      case Failure(e) => Step(t, Failure(e))
      case Success(t1) => RemoveFilesFixed(t1, files[1..])
  }

  /** What a removal leaves behind. */
  datatype Removal = Removal(tree: Fs.Tree, tables: Catalog.Tables, result: Outcome<RemoveError>)

  /** The directory removed for `name` at the version text the catalog holds. */
  function RemovedDir(h: Host, name: string, version: string): Path {
    VersionDir(h.home, name, version)
  }

  /**
   * `remove(name)`, with `files` the order in which the catalog lists the
   * recorded files; `fixed` selects the corrected loop.
   */
  function RemoveWith(t: Fs.Tree, s: Catalog.Tables, h: Host, name: string, files: seq<Path>, fixed: bool): (r: Removal)
    ensures r.result.Fail? ==> r.result.error.RemoveIo?
  {
    match Catalog.PackageVersion(s, name)
    case None => Removal(t, s, Pass)
    case Some(version) =>
      var dir := RemovedDir(h, name, version);
      var removed := if Fs.Exists(t, dir) then Fs.TreeRemoveDirAll(t, dir) else Success(t);
      match removed
      case Failure(e) => Removal(t, s, Fail(RemoveIo(e)))
      case Success(t1) =>
        var swept := if fixed then RemoveFilesFixed(t1, files) else RemoveFiles(t1, files);
        match swept.result
        case Failure(e) => Removal(swept.tree, s, Fail(RemoveIo(e)))
        case Success(_) => Removal(swept.tree, Catalog.AfterRemove(s, name), Pass)
  }

  /** `remove` as written. */
  function RemoveRun(t: Fs.Tree, s: Catalog.Tables, h: Host, name: string, files: seq<Path>): Removal {
    RemoveWith(t, s, h, name, files, false)
  }

  /** `remove` with the corrected loop. */
  function RemoveFixedRun(t: Fs.Tree, s: Catalog.Tables, h: Host, name: string, files: seq<Path>): Removal {
    RemoveWith(t, s, h, name, files, true)
  }

  /** `files` lists the set `s` once per member. */
  ghost predicate Lists(files: seq<Path>, s: set<string>) {
    (forall f :: f in files <==> f in s) &&
    (forall i, j :: 0 <= i < j < |files| ==> files[i] != files[j])
  }

  /** The loop over the recorded files. */
  method RemoveAllFiles(fs: Fs.FileSystem, files: seq<Path>) returns (r: Outcome<Fs.IoError>)
    modifies fs
    ensures RemoveFiles(old(fs.tree), files) == Step(fs.tree, if r.Pass? then Success(()) else Failure(r.error))
  {
    var i := 0;
    assert files[0..] == files;
    while i < |files|
      invariant 0 <= i <= |files|
      invariant RemoveFiles(fs.tree, files[i..]) == RemoveFiles(old(fs.tree), files)
    {
      var f := files[i];
      assert files[i..][1..] == files[i + 1..];
      if Fs.Exists(fs.tree, f) {
        var o: Outcome<Fs.IoError>;
        if Fs.IsDir(fs.tree, f) {
          o := fs.RemoveDirAll(f);
        } else {
          o := fs.RemoveFile(f);
        }
        if o.Fail? {
          return o;
        }
      }
      i := i + 1;
    }
    r := Pass;
  }

  /**
   * `remove`.  The ghost `listed` is the order in which the catalog
   * returned the recorded files.
   */
  method Remove(fs: Fs.FileSystem, db: Catalog.PackageDB, h: Host, name: string)
    returns (r: Outcome<RemoveError>, ghost listed: seq<Path>)
    modifies fs, db
    ensures Catalog.PackageVersion(old(db.State()), name).Some? && r.Pass? ==> Lists(listed, Catalog.FilesOf(old(db.State()), name))
    ensures Removal(fs.tree, db.State(), r) == RemoveRun(old(fs.tree), old(db.State()), h, name, listed)
  {
    listed := [];
    var version := db.GetPackageVersion(name);
    if version.None? {
      return Pass, listed;
    }
    var dir := RemovedDir(h, name, version.value);
    if Fs.Exists(fs.tree, dir) {
      var o := fs.RemoveDirAll(dir);
      if o.Fail? {
        return Fail(RemoveIo(o.error)), listed;
      }
    }
    var files := db.GetInstalledFiles(name);
    listed := files;
    var o := RemoveAllFiles(fs, files);
    if o.Fail? {
      return Fail(RemoveIo(o.error)), listed;
    }
    db.RemovePackage(name);
    r := Pass;
  }

  /** Removing one recorded path deletes at most that path and what lies below it. */
  lemma RemoveOneOnlyRemoves(t: Fs.Tree, f: Path, present: bool)
    requires RemoveOne(t, f, present).Success?
    ensures forall k :: k in RemoveOne(t, f, present).value ==> k in t && RemoveOne(t, f, present).value[k] == t[k]
    ensures forall k :: k in t && !Fs.Within(k, f) ==> k in RemoveOne(t, f, present).value
  {
  }

  /** A recorded path that is there is removed, and the removal never fails. */
  lemma RemoveOnePresent(t: Fs.Tree, f: Path)
    requires f in t
    ensures RemoveOne(t, f, true).Success? && f !in RemoveOne(t, f, true).value
  {
    if Fs.IsDir(t, f) {
      assert !t[f].File?;
      assert Fs.Within(f, f);
    } else {
      assert !t[f].Dir?;
    }
  }

  /** The loop as written never fails, and only deletes. */
  lemma {:induction false} RemoveFilesSucceeds(t: Fs.Tree, files: seq<Path>)
    ensures RemoveFiles(t, files).result.Success?
    ensures forall k :: k in RemoveFiles(t, files).tree ==> k in t && RemoveFiles(t, files).tree[k] == t[k]
    decreases |files|
  {
    if files != [] {
      var f := files[0];
      if Fs.Exists(t, f) {
        RemoveOnePresent(t, f);
      }
      RemoveOneOnlyRemoves(t, f, Fs.Exists(t, f));
      RemoveFilesSucceeds(RemoveOne(t, f, Fs.Exists(t, f)).value, files[1..]);
    }
  }

  /** The corrected loop never fails, only deletes, and leaves no recorded path behind. */
  lemma {:induction false} RemoveFilesFixedClears(t: Fs.Tree, files: seq<Path>)
    ensures RemoveFilesFixed(t, files).result.Success?
    ensures forall k :: k in RemoveFilesFixed(t, files).tree ==> k in t && RemoveFilesFixed(t, files).tree[k] == t[k]
    ensures forall f :: f in files ==> f !in RemoveFilesFixed(t, files).tree
    decreases |files|
  {
    if files != [] {
      var f := files[0];
      if f in t {
        RemoveOnePresent(t, f);
      }
      RemoveOneOnlyRemoves(t, f, Fs.Present(t, f));
      var t1 := RemoveOne(t, f, Fs.Present(t, f)).value;
      RemoveFilesFixedClears(t1, files[1..]);
      forall g | g in files
        ensures g !in RemoveFilesFixed(t, files).tree
      {
        if g != f {
          assert g in files[1..];
        }
      }
    }
  }

  /**
   * A link whose target is gone is not removed by the loop as written:
   * `Path::exists` follows it, finds nothing, and skips it.
   */
  lemma {:induction false} RemoveFilesKeepsDangling(t: Fs.Tree, files: seq<Path>, f: Path, target: Path)
    requires f in t && t[f] == Fs.Symlink(target) && target !in t
    requires forall g :: g in files && g != f ==> !Fs.Within(f, g)
    ensures f in RemoveFiles(t, files).tree && RemoveFiles(t, files).tree[f] == Fs.Symlink(target)
    ensures target !in RemoveFiles(t, files).tree
    decreases |files|
  {
    if files != [] {
      var g := files[0];
      if Fs.Exists(t, g) {
        RemoveOnePresent(t, g);
        assert g != f;
      }
      RemoveOneOnlyRemoves(t, g, Fs.Exists(t, g));
      var t1 := RemoveOne(t, g, Fs.Exists(t, g)).value;
      assert f in t1;
      assert forall g :: g in files[1..] ==> g in files;
      RemoveFilesKeepsDangling(t1, files[1..], f, target);
    }
  }

  /** Without a version in the catalog, `remove` succeeds and changes nothing. */
  lemma RemoveNotInstalled(t: Fs.Tree, s: Catalog.Tables, h: Host, name: string, files: seq<Path>)
    requires Catalog.PackageVersion(s, name).None?
    ensures RemoveRun(t, s, h, name, files) == Removal(t, s, Pass)
  {
  }

  /**
   * `remove` fails only when the package directory can not be deleted, and
   * then leaves the file system and the catalog as they were; otherwise the
   * package's rows are gone.
   */
  lemma RemoveOutcome(t: Fs.Tree, s: Catalog.Tables, h: Host, name: string, files: seq<Path>)
    requires Catalog.PackageVersion(s, name).Some?
    ensures var r := RemoveRun(t, s, h, name, files);
      var dir := RemovedDir(h, name, Catalog.PackageVersion(s, name).value);
      r.result.Fail? <==> Fs.Exists(t, dir) && Fs.TreeRemoveDirAll(t, dir).Failure?
    ensures var r := RemoveRun(t, s, h, name, files);
      r.result.Fail? ==> r.tree == t && r.tables == s
    ensures var r := RemoveRun(t, s, h, name, files);
      r.result.Pass? ==>
        r.tables == Catalog.AfterRemove(s, name) &&
        Catalog.PackageVersion(r.tables, name).None? && Catalog.FilesOf(r.tables, name) == {}
  {
    var dir := RemovedDir(h, name, Catalog.PackageVersion(s, name).value);
    var removed := if Fs.Exists(t, dir) then Fs.TreeRemoveDirAll(t, dir) else Success(t);
    if removed.Success? {
      RemoveFilesSucceeds(removed.value, files);
    }
    Catalog.RemoveForgetsOnlyName(s, name, name);
  }

  /** A failed removal changes nothing. */
  lemma RemoveFailureKeeps(t: Fs.Tree, s: Catalog.Tables, h: Host, name: string, files: seq<Path>)
    requires RemoveRun(t, s, h, name, files).result.Fail?
    ensures RemoveRun(t, s, h, name, files).tree == t && RemoveRun(t, s, h, name, files).tables == s
  {
    if Catalog.PackageVersion(s, name).None? {
      RemoveNotInstalled(t, s, h, name, files);
    } else {
      RemoveOutcome(t, s, h, name, files);
    }
  }

  /**
   * The directory removal runs first: a recorded link that points into the
   * package directory is dangling by its turn, so it survives `remove`
   * while the catalog forgets it, and a later `symlink` onto it fails with
   * `AlreadyExists`.
   */
  lemma DanglingLinkSurvives(t: Fs.Tree, s: Catalog.Tables, h: Host, name: string, files: seq<Path>, f: Path, target: Path)
    requires Catalog.PackageVersion(s, name).Some?
    requires var dir := RemovedDir(h, name, Catalog.PackageVersion(s, name).value);
      dir in t && t[dir] == Fs.Dir && Fs.Within(target, dir) && !Fs.Within(f, dir)
    requires f in t && t[f] == Fs.Symlink(target)
    requires forall g :: g in files && g != f ==> !Fs.Within(f, g)
    ensures var r := RemoveRun(t, s, h, name, files);
      r.result.Pass? && f in r.tree && r.tree[f] == Fs.Symlink(target) && Catalog.FilesOf(r.tables, name) == {}
    ensures var r := RemoveRun(t, s, h, name, files);
      forall src :: ParentReady(r.tree, f) ==>
        LinkOne(r.tree, src, f).result.Failure? && LinkOne(r.tree, src, f).result.error.kind == Fs.AlreadyExists
  {
    var dir := RemovedDir(h, name, Catalog.PackageVersion(s, name).value);
    var t1 := t - Fs.Subtree(t, dir);
    assert Fs.Exists(t, dir);
    assert Fs.TreeRemoveDirAll(t, dir) == Success(t1);
    assert f in t1 && target !in t1;
    RemoveFilesKeepsDangling(t1, files, f, target);
    RemoveFilesSucceeds(t1, files);
    RemoveOutcome(t, s, h, name, files);
    var r := RemoveRun(t, s, h, name, files);
    assert r.tree == RemoveFiles(t1, files).tree;
    assert !Fs.Exists(r.tree, f);
    forall src | ParentReady(r.tree, f)
      ensures LinkOne(r.tree, src, f).result.Failure? && LinkOne(r.tree, src, f).result.error.kind == Fs.AlreadyExists
    {
      LinkOneOutcome(r.tree, src, f);
    }
  }

  /**
   * With the corrected loop, a successful `remove` leaves none of the
   * recorded files behind, and fails only when the package directory can
   * not be deleted.
   */
  lemma RemoveFixedClearsRecorded(t: Fs.Tree, s: Catalog.Tables, h: Host, name: string, files: seq<Path>)
    requires Catalog.PackageVersion(s, name).Some?
    ensures var r := RemoveFixedRun(t, s, h, name, files);
      var dir := RemovedDir(h, name, Catalog.PackageVersion(s, name).value);
      r.result.Fail? <==> Fs.Exists(t, dir) && Fs.TreeRemoveDirAll(t, dir).Failure?
    ensures var r := RemoveFixedRun(t, s, h, name, files);
      r.result.Pass? ==> (forall f :: f in files ==> f !in r.tree) && r.tables == Catalog.AfterRemove(s, name)
  {
    var dir := RemovedDir(h, name, Catalog.PackageVersion(s, name).value);
    var removed := if Fs.Exists(t, dir) then Fs.TreeRemoveDirAll(t, dir) else Success(t);
    if removed.Success? {
      RemoveFilesFixedClears(removed.value, files);
    }
  }
}
