/**
 * `switch_version`: the links the current version made are removed, but
 * only those that are still links to the file the current version
 * provides; then the links of the target version are made and the target
 * becomes current.  As for installing, a pure function states what a
 * switch does and the method performs it one call at a time.
 */
module Switcher {
  import opened Wrappers
  import opened Paths
  import opened SemVer
  import Fs
  import Symlist
  import Catalog
  import opened Errors
  import opened Machine
  import opened Installer

  /** The test that guards every removal: the target exists, is a link, and links to the source. */
  predicate Owned(t: Fs.Tree, src: Path, dst: Path) {
    Fs.Exists(t, dst) && Fs.Present(t, dst) && t[dst].Symlink? &&
    Fs.ReadLink(t, dst).Success? && Fs.ReadLink(t, dst).value == src
  }

  /** One entry of the deactivation loop; a failed removal is only logged. */
  function UnlinkOne(t: Fs.Tree, src: Path, dst: Path): Fs.Tree {
    if Owned(t, src, dst) then
      match Fs.TreeRemoveFile(t, dst)
      case Success(t1) => t1
      case Failure(_) => t
    else t
  }

  /** The deactivation loop over the current version's pairs `(source, target)`. */
  function Unlink(t: Fs.Tree, pairs: seq<(Path, Path)>): Fs.Tree
    decreases |pairs|
  {
    if pairs == [] then t else Unlink(UnlinkOne(t, pairs[0].0, pairs[0].1), pairs[1..])
  }

  /**
   * Deactivation: nothing when the current version's directory is missing
   * or its symlist is not found; any other symlist error ends the switch.
   */
  function Deactivate(t: Fs.Tree, h: Host, curDir: Path): Result<Fs.Tree, Symlist.SymlistError> {
    if !Fs.Exists(t, curDir) then Success(t)
    else
      match Symlist.LoadSymlist(t, SymlistPath(curDir), curDir, h.env, h.order, h.decodeSymlist)
      case Success(pairs) => Success(Unlink(t, pairs))
      case Failure(e) =>
        if e.Io? && e.io.kind == Fs.NotFound then Success(t) else Failure(e)
  }

  /** What a switch leaves behind. */
  datatype Switched = Switched(tree: Fs.Tree, tables: Catalog.Tables, result: Outcome<SwitchError>)

  /**
   * `switch_version(name, target)` when the catalog reports `current` as
   * the version of the current package.
   */
  function SwitchRun(t: Fs.Tree, s: Catalog.Tables, h: Host, name: string, target: Version, current: Version): Switched {
    match Deactivate(t, h, VersionDir(h.home, name, ToString(current)))
    case Failure(e) => Switched(t, s, Fail(SwitchSymlist(e)))
    case Success(t1) =>
      var newDir := VersionDir(h.home, name, ToString(target));
      if !Fs.Exists(t1, newDir) then Switched(t1, s, Fail(MissingPackageDir(newDir)))
      else
        var linked := CreateSymlinksRun(t1, h, newDir);
        match linked.result
        case Failure(e) => Switched(linked.tree, s, Fail(SwitchIo(e)))
        case Success(_) => Switched(linked.tree, Catalog.AfterSetCurrent(s, name, ToString(target)), Pass)
  }

  /** A row of the catalog holds this name and version text. */
  predicate HasVersionRow(s: Catalog.Tables, name: string, version: string) {
    exists i :: 0 <= i < |s.packages| && s.packages[i].name == name && s.packages[i].version == version
  }

  /** The body of the deactivation loop. */
  method UnlinkEntry(fs: Fs.FileSystem, src: Path, dst: Path)
    modifies fs
    ensures fs.tree == UnlinkOne(old(fs.tree), src, dst)
  {
    if Fs.Exists(fs.tree, dst) && Fs.Present(fs.tree, dst) && fs.tree[dst].Symlink? {
      var target := Fs.ReadLink(fs.tree, dst);
      if target.Success? && target.value == src {
        var o := fs.RemoveFile(dst);
      }
    }
  }

  /** The deactivation loop. */
  method UnlinkAll(fs: Fs.FileSystem, pairs: seq<(Path, Path)>)
    modifies fs
    ensures fs.tree == Unlink(old(fs.tree), pairs)
  {
    var i := 0;
    assert pairs[0..] == pairs;
    while i < |pairs|
      invariant 0 <= i <= |pairs|
      invariant Unlink(fs.tree, pairs[i..]) == Unlink(old(fs.tree), pairs)
    {
      assert pairs[i..][1..] == pairs[i + 1..];
      UnlinkEntry(fs, pairs[i].0, pairs[i].1);
      i := i + 1;
    }
  }

  /**
   * `switch_version`.  The two catalog lookups that the source unwraps are
   * preconditions: a row for the target version exists, and `current` is
   * the version of the current package.
   */
  method SwitchVersion(fs: Fs.FileSystem, db: Catalog.PackageDB, h: Host, name: string, target: Version, current: Version)
    returns (r: Outcome<SwitchError>)
    requires HasVersionRow(db.State(), name, ToString(target))
    modifies fs, db
    ensures Switched(fs.tree, db.State(), r) == SwitchRun(old(fs.tree), old(db.State()), h, name, target, current)
  {
    var curDir := VersionDir(h.home, name, ToString(current));
    if Fs.Exists(fs.tree, curDir) {
      var loaded := Symlist.LoadSymlist(fs.tree, SymlistPath(curDir), curDir, h.env, h.order, h.decodeSymlist);
      match loaded {
        case Success(pairs) =>
          UnlinkAll(fs, pairs);
        case Failure(e) =>
          if !(e.Io? && e.io.kind == Fs.NotFound) {
            return Fail(SwitchSymlist(e));
          }
      }
    }
    var newDir := VersionDir(h.home, name, ToString(target));
    if !Fs.Exists(fs.tree, newDir) {
      return Fail(MissingPackageDir(newDir));
    }
    var made := CreateSymlinks(fs, h, newDir);
    if made.Failure? {
      return Fail(SwitchIo(made.error));
    }
    db.SetCurrentVersion(name, ToString(target));
    r := Pass;
  }

  /** Deactivation only deletes: every path left was there before, holding the same node. */
  lemma {:induction false} UnlinkOnlyRemoves(t: Fs.Tree, pairs: seq<(Path, Path)>)
    ensures forall k :: k in Unlink(t, pairs) ==> k in t && Unlink(t, pairs)[k] == t[k]
    decreases |pairs|
  {
    if pairs != [] {
      UnlinkOnlyRemoves(UnlinkOne(t, pairs[0].0, pairs[0].1), pairs[1..]);
    }
  }

  /**
   * Every path deactivation deletes is the target of some entry and was a
   * link to that entry's source: files, directories and links pointing
   * elsewhere are left alone.
   */
  lemma {:induction false} UnlinkOnlyOwned(t: Fs.Tree, pairs: seq<(Path, Path)>, k: Path)
    requires k in t && k !in Unlink(t, pairs)
    ensures exists i :: 0 <= i < |pairs| && pairs[i].1 == k && t[k] == Fs.Symlink(pairs[i].0)
    decreases |pairs|
  {
    var t1 := UnlinkOne(t, pairs[0].0, pairs[0].1);
    if k in t1 {
      UnlinkOnlyOwned(t1, pairs[1..], k);
      var i :| 0 <= i < |pairs[1..]| && pairs[1..][i].1 == k && t1[k] == Fs.Symlink(pairs[1..][i].0);
      assert pairs[i + 1] == pairs[1..][i];
    } else {
      assert pairs[0].1 == k;
    }
  }

  /**
   * A link owned by an entry whose source is a real file or directory is
   * gone after deactivation.
   */
  lemma {:induction false} UnlinkRemovesOwned(t: Fs.Tree, pairs: seq<(Path, Path)>, i: int)
    requires 0 <= i < |pairs|
    requires pairs[i].1 in t && t[pairs[i].1] == Fs.Symlink(pairs[i].0)
    requires pairs[i].0 in t && !t[pairs[i].0].Symlink?
    ensures pairs[i].1 !in Unlink(t, pairs)
    decreases |pairs|
  {
    var src := pairs[i].0;
    var dst := pairs[i].1;
    var t1 := UnlinkOne(t, pairs[0].0, pairs[0].1);
    if i == 0 {
      assert Fs.Resolve(t, dst, Fs.MaxLinkHops) == Fs.Resolve(t, src, Fs.MaxLinkHops - 1);
      assert Owned(t, src, dst);
      assert dst !in t1;
      UnlinkOnlyRemoves(t1, pairs[1..]);
    } else {
      assert pairs[1..][i - 1] == pairs[i];
      if dst in t1 {
        UnlinkRemovesOwned(t1, pairs[1..], i - 1);
      } else {
        UnlinkOnlyRemoves(t1, pairs[1..]);
      }
    }
  }

  /** A symlist error other than a missing file ends the switch before anything changes. */
  lemma SwitchSymlistErrorAborts(t: Fs.Tree, s: Catalog.Tables, h: Host, name: string, target: Version, current: Version)
    requires var curDir := VersionDir(h.home, name, ToString(current));
      Fs.Exists(t, curDir) &&
      Symlist.LoadSymlist(t, SymlistPath(curDir), curDir, h.env, h.order, h.decodeSymlist).Failure?
    requires var curDir := VersionDir(h.home, name, ToString(current));
      var e := Symlist.LoadSymlist(t, SymlistPath(curDir), curDir, h.env, h.order, h.decodeSymlist).error;
      !(e.Io? && e.io.kind == Fs.NotFound)
    ensures SwitchRun(t, s, h, name, target, current).tree == t
    ensures SwitchRun(t, s, h, name, target, current).tables == s
    ensures SwitchRun(t, s, h, name, target, current).result.Fail?
    ensures SwitchRun(t, s, h, name, target, current).result.error.SwitchSymlist?
  {
  }

  /**
   * When the current version's directory is missing, or holds no symlist,
   * nothing is deactivated and the switch goes on to the target.
   */
  lemma SwitchSkipsDeactivation(t: Fs.Tree, h: Host, name: string, current: Version)
    requires var curDir := VersionDir(h.home, name, ToString(current));
      !Fs.Exists(t, curDir) || !Fs.Exists(t, SymlistPath(curDir))
    ensures Deactivate(t, h, VersionDir(h.home, name, ToString(current))) == Success(t)
  {
    var curDir := VersionDir(h.home, name, ToString(current));
    Symlist.LoadSymlistErrors(t, SymlistPath(curDir), curDir, h.env, h.order, h.decodeSymlist);
  }

  /** A missing target directory fails with its path, and the current version stays as it was. */
  lemma SwitchMissingDir(t: Fs.Tree, s: Catalog.Tables, h: Host, name: string, target: Version, current: Version)
    requires Deactivate(t, h, VersionDir(h.home, name, ToString(current))).Success?
    requires !Fs.Exists(Deactivate(t, h, VersionDir(h.home, name, ToString(current))).value,
      VersionDir(h.home, name, ToString(target)))
    ensures SwitchRun(t, s, h, name, target, current).result == Fail(MissingPackageDir(VersionDir(h.home, name, ToString(target))))
    ensures SwitchRun(t, s, h, name, target, current).tables == s
  {
  }

  /** Only a successful switch writes the catalog, and it writes exactly the target as current. */
  lemma SwitchWritesOnlyCurrent(t: Fs.Tree, s: Catalog.Tables, h: Host, name: string, target: Version, current: Version)
    ensures var w := SwitchRun(t, s, h, name, target, current);
      w.result.Fail? ==> w.tables == s
    ensures var w := SwitchRun(t, s, h, name, target, current);
      w.result.Pass? ==>
        w.tables == Catalog.AfterSetCurrent(s, name, ToString(target)) && w.tables.current[name] == ToString(target)
  {
  }

  /**
   * A successful switch ends with the links of the target version made:
   * the file system is the one `create_symlinks` leaves for the target
   * directory after deactivation.
   */
  lemma SwitchActivatesTarget(t: Fs.Tree, s: Catalog.Tables, h: Host, name: string, target: Version, current: Version)
    requires SwitchRun(t, s, h, name, target, current).result.Pass?
    ensures var d := Deactivate(t, h, VersionDir(h.home, name, ToString(current)));
      var newDir := VersionDir(h.home, name, ToString(target));
      d.Success? && Fs.Exists(d.value, newDir) &&
      CreateSymlinksRun(d.value, h, newDir).result.Success? &&
      SwitchRun(t, s, h, name, target, current).tree == CreateSymlinksRun(d.value, h, newDir).tree
  {
  }
}
