/**
 * Installing a `.uhp` archive: unpacking it into a scratch directory,
 * reading its manifest, moving it to its package directory, creating the
 * links its symlist names and recording it in the catalog.  Each step is
 * a function of the file system (and catalog) before it, and the methods
 * carry out those steps one call at a time.
 */
module Installer {
  import opened Wrappers
  import opened Strings
  import opened Paths
  import opened SemVer
  import Fs
  import Symlist
  import Errors
  import Packages
  import Catalog
  import opened Machine

  /** `InstallError`: a file-system failure or a manifest failure. */
  datatype InstallError = Io(io: Fs.IoError) | Meta(meta: Errors.MetaParseError)

  /** The file system after a sequence of calls, and what the sequence returned. */
  datatype Step<T> = Step(tree: Fs.Tree, result: Result<T, Fs.IoError>)

  /** The scratch directory archives are unpacked under. */
  function TmpDir(home: Path): Path {
    Join(home, ".uhpm/tmp")
  }

  /** The archive's file stem, or `unknown_package` when it has none. */
  function UnpackName(pkgPath: Path): string {
    match FileStem(pkgPath)
    case Some(stem) => stem
    case None => "unknown_package"
  }

  function UnpackDir(home: Path, pkgPath: Path): Path {
    Join(TmpDir(home), UnpackName(pkgPath))
  }

  const ExtensionMessage := "Package must have .uhp extension"

  /** Clearing the unpack directory: removed if it exists, then created afresh. */
  function ClearDir(t: Fs.Tree, dir: Path): (r: Step<Path>)
    ensures r.result.Success? ==> r.result.value == dir
  {
    var removed := if Fs.Exists(t, dir) then Fs.TreeRemoveDirAll(t, dir) else Success(t);
    match removed
    case Failure(e) => Step(t, Failure(e))
    case Success(t1) =>
      match Fs.TreeCreateDirAll(t1, dir)
      case Failure(e) => Step(t1, Failure(e))
      case Success(t2) => Step(t2, Success(dir))
  }

  /**
   * `unpack`: an archive without the `uhp` extension is refused before
   * anything is touched; otherwise the scratch directory is created, the
   * unpack directory cleared, the archive opened and extracted into it.
   */
  function UnpackRun(t: Fs.Tree, h: Host, pkgPath: Path): Step<Path> {
    if Extension(pkgPath) != Some("uhp") then
      Step(t, Failure(Fs.IoError(Fs.InvalidInput, ExtensionMessage)))
    else
      match Fs.TreeCreateDirAll(t, TmpDir(h.home))
      case Failure(e) => Step(t, Failure(e))
      case Success(t1) =>
        var dir := UnpackDir(h.home, pkgPath);
        var cleared := ClearDir(t1, dir);
        if cleared.result.Failure? then cleared
        else if !Fs.Exists(cleared.tree, pkgPath) then Step(cleared.tree, Failure(Fs.OsError(Fs.NotFound)))
        else
          match h.extract(cleared.tree, pkgPath, dir)
          case Failure(e) => Step(cleared.tree, Failure(e))
          case Success(t2) => Step(t2, Success(dir))
  }

  /** An archive not named `*.uhp` is refused with `InvalidInput` and the file system is untouched. */
  lemma UnpackRejectsExtension(t: Fs.Tree, h: Host, pkgPath: Path)
    requires Extension(pkgPath) != Some("uhp")
    ensures UnpackRun(t, h, pkgPath) == Step(t, Failure(Fs.IoError(Fs.InvalidInput, ExtensionMessage)))
  {
  }

  /**
   * Clearing leaves an empty directory at `dir`: a directory that was
   * there loses everything below it first.  (Paths below a non-directory
   * do not occur in a real file system and are excluded.)
   */
  lemma ClearDirEmpties(t: Fs.Tree, dir: Path)
    requires dir != ""
    requires (dir in t && t[dir].Dir?) || Fs.Subtree(t, dir) <= {dir}
    requires ClearDir(t, dir).result.Success?
    ensures ClearDir(t, dir).result == Success(dir)
    ensures Fs.IsEmptyDir(ClearDir(t, dir).tree, dir)
  {
    var removed := if Fs.Exists(t, dir) then Fs.TreeRemoveDirAll(t, dir) else Success(t);
    var t1 := removed.value;
    assert Fs.Subtree(t1, dir) <= {dir};
    var t2 := Fs.TreeCreateDirAll(t1, dir).value;
    forall k | k in Fs.Subtree(t2, dir)
      ensures k == dir
    {
      if k !in t1 {
        assert StartsWith(dir, k);
      }
    }
  }

  /**
   * A successful unpack yields `<home>/.uhpm/tmp/<stem>`, which is a
   * directory in the tree the archive is extracted into.
   */
  lemma UnpackTarget(t: Fs.Tree, h: Host, pkgPath: Path)
    requires UnpackRun(t, h, pkgPath).result.Success?
    ensures Extension(pkgPath) == Some("uhp")
    ensures UnpackRun(t, h, pkgPath).result.value == UnpackDir(h.home, pkgPath)
  {
    var t1 := Fs.TreeCreateDirAll(t, TmpDir(h.home)).value;
    var cleared := ClearDir(t1, UnpackDir(h.home, pkgPath));
    assert cleared.result.Success?;
  }

  /** `unpack`, one file-system call at a time. */
  method Unpack(fs: Fs.FileSystem, h: Host, pkgPath: Path) returns (r: Result<Path, Fs.IoError>)
    modifies fs
    ensures Step(fs.tree, r) == UnpackRun(old(fs.tree), h, pkgPath)
  {
    if Extension(pkgPath) != Some("uhp") {
      return Failure(Fs.IoError(Fs.InvalidInput, ExtensionMessage));
    }
    var o := fs.CreateDirAll(TmpDir(h.home));
    if o.Fail? {
      return Failure(o.error);
    }
    ghost var t1 := fs.tree;
    var dir := UnpackDir(h.home, pkgPath);
    if Fs.Exists(fs.tree, dir) {
      o := fs.RemoveDirAll(dir);
      if o.Fail? {
        return Failure(o.error);
      }
    }
    o := fs.CreateDirAll(dir);
    if o.Fail? {
      return Failure(o.error);
    }
    assert ClearDir(t1, dir) == Step(fs.tree, Success(dir));
    if !Fs.Exists(fs.tree, pkgPath) {
      return Failure(Fs.OsError(Fs.NotFound));
    }
    var extracted := h.extract(fs.tree, pkgPath, dir);
    o := fs.Apply(extracted);
    if o.Fail? {
      return Failure(o.error);
    }
    r := Success(dir);
  }

  /**
   * One symlist entry whose source exists: the link's parent directory is
   * created, an existing target is removed, and the link is made.
   */
  function LinkOne(t: Fs.Tree, src: Path, dst: Path): Step<Path> {
    match LinkParent(t, dst)
    case Failure(e) => Step(t, Failure(e))
    case Success(t1) =>
      var cleared := if Fs.Exists(t1, dst) then Fs.TreeRemoveFile(t1, dst) else Success(t1);
      match cleared
      case Failure(e) => Step(t1, Failure(e))
      case Success(t2) =>
        match Fs.TreeSymlink(t2, src, dst)
        case Failure(e) => Step(t2, Failure(e))
        case Success(t3) => Step(t3, Success(dst))
  }

  /** `links` put before whatever a later part of the loop returns. */
  function Prepend(links: seq<Path>, s: Step<seq<Path>>): Step<seq<Path>> {
    match s.result
    case Success(rest) => Step(s.tree, Success(links + rest))
    case Failure(e) => s
  }

  /**
   * The loop of `create_symlinks` over the pairs `(source, target)`: an
   * entry whose source does not exist is skipped, any failure ends the loop
   * with that error, and the targets linked are returned in order.
   */
  function LinkEach(t: Fs.Tree, root: Path, pairs: seq<(Path, Path)>): Step<seq<Path>>
    decreases |pairs|
  {
    if pairs == [] then Step(t, Success([]))
    else
      var src := Join(root, pairs[0].0);
      var dst := pairs[0].1;
      if !Fs.Exists(t, src) then LinkEach(t, root, pairs[1..])
      else
        var one := LinkOne(t, src, dst);
        if one.result.Failure? then Step(one.tree, Failure(one.result.error))
        else Prepend([dst], LinkEach(one.tree, root, pairs[1..]))
  }

  function SymlistPath(root: Path): Path {
    Join(root, "symlist.ron")
  }

  /** `create_symlinks`: a symlist that does not load gives no links and no error. */
  function CreateSymlinksRun(t: Fs.Tree, h: Host, root: Path): Step<seq<Path>> {
    match Symlist.LoadSymlist(t, SymlistPath(root), root, h.env, h.order, h.decodeSymlist)
    case Failure(_) => Step(t, Success([]))
    case Success(pairs) => LinkEach(t, root, pairs)
  }

  /** Putting `a` and then `b` in front is putting `a + b` in front. */
  lemma PrependTwice(a: seq<Path>, b: seq<Path>, s: Step<seq<Path>>)
    ensures Prepend(a, Prepend(b, s)) == Prepend(a + b, s)
  {
    if s.result.Success? {
      assert a + (b + s.result.value) == (a + b) + s.result.value;
    }
  }

  /** The body of the `create_symlinks` loop for an entry whose source exists. */
  method LinkEntry(fs: Fs.FileSystem, src: Path, dst: Path) returns (r: Outcome<Fs.IoError>)
    modifies fs
    ensures LinkOne(old(fs.tree), src, dst) == Step(fs.tree, if r.Pass? then Success(dst) else Failure(r.error))
  {
    match Parent(dst) {
      case Some(q) =>
        r := fs.CreateDirAll(q);
        if r.Fail? {
          return;
        }
      case None =>
    }
    if Fs.Exists(fs.tree, dst) {
      r := fs.RemoveFile(dst);
      if r.Fail? {
        return;
      }
    }
    r := fs.Symlink(src, dst);
  }

  /** `create_symlinks`, one file-system call at a time. */
  method CreateSymlinks(fs: Fs.FileSystem, h: Host, root: Path) returns (r: Result<seq<Path>, Fs.IoError>)
    modifies fs
    ensures Step(fs.tree, r) == CreateSymlinksRun(old(fs.tree), h, root)
  {
    var loaded := Symlist.LoadSymlist(fs.tree, SymlistPath(root), root, h.env, h.order, h.decodeSymlist);
    if loaded.Failure? {
      return Success([]);
    }
    var pairs := loaded.value;
    var links: seq<Path> := [];
    var i := 0;
    assert pairs[0..] == pairs;
    var whole := LinkEach(fs.tree, root, pairs);
    assert whole.result.Success? ==> [] + whole.result.value == whole.result.value;
    while i < |pairs|
      invariant 0 <= i <= |pairs|
      invariant Prepend(links, LinkEach(fs.tree, root, pairs[i..])) == whole
    {
      var src := Join(root, pairs[i].0);
      var dst := pairs[i].1;
      assert pairs[i..][1..] == pairs[i + 1..];
      if Fs.Exists(fs.tree, src) {
        var o := LinkEntry(fs, src, dst);
        if o.Fail? {
          return Failure(o.error);
        }
        PrependTwice(links, [dst], LinkEach(fs.tree, root, pairs[i + 1..]));
        links := links + [dst];
      }
      i := i + 1;
    }
    assert pairs[i..] == [];
    assert links + [] == links;
    r := Success(links);
  }

  /** A symlist that does not load creates nothing and reports no error. */
  lemma CreateSymlinksWithoutSymlist(t: Fs.Tree, h: Host, root: Path)
    requires Symlist.LoadSymlist(t, SymlistPath(root), root, h.env, h.order, h.decodeSymlist).Failure?
    ensures CreateSymlinksRun(t, h, root) == Step(t, Success([]))
  {
  }

  /** The directory a link goes in needs no creating. */
  predicate ParentReady(t: Fs.Tree, dst: Path) {
    match Parent(dst)
    case None => true
    case Some(q) => q == "" || (q in t && t[q] == Fs.Dir)
  }

  /**
   * With its directory in place, linking an existing source succeeds
   * exactly when nothing is at the target or an existing non-directory is
   * (and is replaced); a dangling link at the target makes `symlink` fail
   * with `AlreadyExists`, because `exists` follows it and finds nothing.
   */
  lemma LinkOneOutcome(t: Fs.Tree, src: Path, dst: Path)
    requires ParentReady(t, dst)
    ensures LinkOne(t, src, dst).result.Success? <==> dst !in t || (Fs.Exists(t, dst) && !t[dst].Dir?)
    ensures LinkOne(t, src, dst).result.Success? ==> LinkOne(t, src, dst).tree == t[dst := Fs.Symlink(src)]
    ensures dst in t && !Fs.Exists(t, dst) ==> LinkOne(t, src, dst).result.error.kind == Fs.AlreadyExists
  {
    match Parent(dst)
    case None =>
    case Some(q) =>
      if q != "" {
        assert Fs.IsDir(t, q);
      }
  }

  /**
   * A link whose directory is missing: `create_dir_all` makes the directory,
   * and the link is made in it.
   */
  lemma LinkOneMakesDirectory(t: Fs.Tree, src: Path, dst: Path, q: Path)
    requires Parent(dst) == Some(q) && q != "" && q !in t && dst !in t
    requires Fs.TreeCreateDirAll(t, q).Success?
    ensures LinkOne(t, src, dst).result == Success(dst)
    ensures LinkOne(t, src, dst).tree[q] == Fs.Dir && LinkOne(t, src, dst).tree[dst] == Fs.Symlink(src)
  {
    var t1 := Fs.TreeCreateDirAll(t, q).value;
    assert dst !in t1;
    assert q in t1 && t1[q] == Fs.Dir;
  }

  /** Every link returned is a symbolic link afterwards, and is the target of some entry. */
  lemma {:induction false} LinkEachLinks(t: Fs.Tree, root: Path, pairs: seq<(Path, Path)>)
    requires LinkEach(t, root, pairs).result.Success?
    ensures var links := LinkEach(t, root, pairs).result.value;
      |links| <= |pairs| &&
      (forall l :: l in links ==> Fs.IsSymlink(LinkEach(t, root, pairs).tree, l)) &&
      (forall l :: l in links ==> exists i :: 0 <= i < |pairs| && pairs[i].1 == l)
    decreases |pairs|
  {
    if pairs != [] {
      var src := Join(root, pairs[0].0);
      var dst := pairs[0].1;
      if !Fs.Exists(t, src) {
        LinkEachLinks(t, root, pairs[1..]);
        forall l | l in LinkEach(t, root, pairs).result.value
          ensures exists i :: 0 <= i < |pairs| && pairs[i].1 == l
        {
          var i :| 0 <= i < |pairs[1..]| && pairs[1..][i].1 == l;
          assert pairs[i + 1].1 == l;
        }
      } else {
        var one := LinkOne(t, src, dst);
        LinkOneFrame(t, src, dst);
        LinkEachLinks(one.tree, root, pairs[1..]);
        LinkEachKeepsLinks(one.tree, root, pairs[1..], dst);
        var rest := LinkEach(one.tree, root, pairs[1..]).result.value;
        forall l | l in [dst] + rest
          ensures exists i :: 0 <= i < |pairs| && pairs[i].1 == l
        {
          if l != dst {
            var i :| 0 <= i < |pairs[1..]| && pairs[1..][i].1 == l;
            assert pairs[i + 1].1 == l;
          } else {
            assert pairs[0].1 == l;
          }
        }
      }
    }
  }

  /** A successful `LinkOne` leaves a link to `src` at `dst`; it only adds directories elsewhere. */
  lemma LinkOneFrame(t: Fs.Tree, src: Path, dst: Path)
    ensures LinkOne(t, src, dst).result.Success? ==> LinkOne(t, src, dst).tree[dst] == Fs.Symlink(src)
    ensures forall k :: k in t && k != dst ==> k in LinkOne(t, src, dst).tree && LinkOne(t, src, dst).tree[k] == t[k]
  {
    var made := LinkParent(t, dst);
    if made.Success? {
      var t1 := made.value;
      var cleared := if Fs.Exists(t1, dst) then Fs.TreeRemoveFile(t1, dst) else Success(t1);
      if cleared.Success? {
        assert forall k :: k in t && k != dst ==> k in cleared.value && cleared.value[k] == t[k];
      }
    }
  }

  /** The first step of `LinkOne`: `create_dir_all` on the link's directory, if it has one. */
  function LinkParent(t: Fs.Tree, dst: Path): (r: Result<Fs.Tree, Fs.IoError>)
    ensures r.Success? ==> forall k :: k in t ==> k in r.value && r.value[k] == t[k]
    ensures r.Success? ==> forall k :: k in r.value && k !in t ==>
      r.value[k] == Fs.Dir && Parent(dst).Some? && StartsWith(Parent(dst).value, k)
  {
    match Parent(dst) case Some(q) => Fs.TreeCreateDirAll(t, q) case None => Success(t)
  }

  /** A link that exists before the loop is still a link (perhaps to another source) after it. */
  lemma {:induction false} LinkEachKeepsLinks(t: Fs.Tree, root: Path, pairs: seq<(Path, Path)>, l: Path)
    requires Fs.IsSymlink(t, l)
    ensures Fs.IsSymlink(LinkEach(t, root, pairs).tree, l)
    decreases |pairs|
  {
    if pairs != [] {
      var src := Join(root, pairs[0].0);
      var dst := pairs[0].1;
      if !Fs.Exists(t, src) {
        LinkEachKeepsLinks(t, root, pairs[1..], l);
      } else {
        var one := LinkOne(t, src, dst);
        LinkOneFrame(t, src, dst);
        if one.result.Success? {
          LinkEachKeepsLinks(one.tree, root, pairs[1..], l);
        }
      }
    }
  }

  /** The targets of the entries whose source exists in `t`, in symlist order. */
  function Kept(t: Fs.Tree, root: Path, pairs: seq<(Path, Path)>): (r: seq<Path>)
    ensures |r| <= |pairs|
  {
    if pairs == [] then []
    else if Fs.Exists(t, Join(root, pairs[0].0)) then [pairs[0].1] + Kept(t, root, pairs[1..])
    else Kept(t, root, pairs[1..])
  }

  predicate NotATarget(p: Path, pairs: seq<(Path, Path)>) {
    forall k :: 0 <= k < |pairs| ==> pairs[k].1 != p
  }

  /** `p` is none of the paths `create_dir_all` may add for a target's directory. */
  predicate OffTheWay(p: Path, pairs: seq<(Path, Path)>) {
    forall k :: 0 <= k < |pairs| && Parent(pairs[k].1).Some? ==> !StartsWith(Parent(pairs[k].1).value, p)
  }

  /**
   * The entries do not interfere: no source is a link, the target of an
   * entry, or a directory that creating a target's directory could add.
   */
  predicate Independent(t: Fs.Tree, root: Path, pairs: seq<(Path, Path)>) {
    forall i :: 0 <= i < |pairs| ==>
      NotATarget(Join(root, pairs[i].0), pairs) && OffTheWay(Join(root, pairs[i].0), pairs) &&
      (Join(root, pairs[i].0) in t ==> !t[Join(root, pairs[i].0)].Symlink?)
  }

  /** `p` holds the same node, or nothing, in both trees. */
  predicate SameAt(t: Fs.Tree, t1: Fs.Tree, p: Path) {
    (p in t1 <==> p in t) && (p in t ==> t1[p] == t[p])
  }

  /** A successful `LinkOne` adds, besides the link, only directories on the way to the link's directory. */
  lemma LinkOneAdds(t: Fs.Tree, src: Path, dst: Path)
    requires LinkOne(t, src, dst).result.Success?
    ensures forall k :: k in LinkOne(t, src, dst).tree && k !in t && k != dst ==>
      LinkOne(t, src, dst).tree[k] == Fs.Dir && Parent(dst).Some? && StartsWith(Parent(dst).value, k)
  {
    var t1 := LinkParent(t, dst).value;
    var t2 := if Fs.Exists(t1, dst) then Fs.TreeRemoveFile(t1, dst).value else t1;
    assert LinkOne(t, src, dst).tree == t2[dst := Fs.Symlink(src)];
    assert forall k :: k in t2 ==> k in t1;
  }

  /** Linking the first entry leaves every source as it was. */
  lemma LinkOneKeepsSources(t: Fs.Tree, root: Path, pairs: seq<(Path, Path)>)
    requires pairs != [] && Independent(t, root, pairs)
    requires LinkOne(t, Join(root, pairs[0].0), pairs[0].1).result.Success?
    ensures forall i :: 0 <= i < |pairs| ==> SameAt(t, LinkOne(t, Join(root, pairs[0].0), pairs[0].1).tree, Join(root, pairs[i].0))
  {
    var src, dst := Join(root, pairs[0].0), pairs[0].1;
    LinkOneFrame(t, src, dst);
    LinkOneAdds(t, src, dst);
    forall i | 0 <= i < |pairs|
      ensures SameAt(t, LinkOne(t, src, dst).tree, Join(root, pairs[i].0))
    {
      assert NotATarget(Join(root, pairs[i].0), pairs) && OffTheWay(Join(root, pairs[i].0), pairs);
      assert pairs[0].1 != Join(root, pairs[i].0);
    }
  }

  /** Dropping the first entry, with every source left as it was, keeps the entries independent. */
  lemma IndependentTail(t: Fs.Tree, root: Path, pairs: seq<(Path, Path)>, t1: Fs.Tree)
    requires pairs != [] && Independent(t, root, pairs)
    requires forall i :: 0 <= i < |pairs| ==> SameAt(t, t1, Join(root, pairs[i].0))
    ensures Independent(t1, root, pairs[1..])
  {
    var tail := pairs[1..];
    forall i | 0 <= i < |tail|
      ensures NotATarget(Join(root, tail[i].0), tail) && OffTheWay(Join(root, tail[i].0), tail)
      ensures Join(root, tail[i].0) in t1 ==> !t1[Join(root, tail[i].0)].Symlink?
    {
      assert tail[i] == pairs[i + 1];
      assert SameAt(t, t1, Join(root, pairs[i + 1].0));
      assert NotATarget(Join(root, pairs[i + 1].0), pairs) && OffTheWay(Join(root, pairs[i + 1].0), pairs);
      forall k | 0 <= k < |tail|
        ensures tail[k].1 != Join(root, tail[i].0)
        ensures Parent(tail[k].1).Some? ==> !StartsWith(Parent(tail[k].1).value, Join(root, tail[i].0))
      {
        assert tail[k] == pairs[k + 1];
      }
    }
  }

  /** A path that is no link and holds the same node in both trees exists in one exactly when in the other. */
  lemma SourceStable(t: Fs.Tree, t1: Fs.Tree, src: Path)
    requires SameAt(t, t1, src) && (src in t ==> !t[src].Symlink?)
    ensures Fs.Exists(t1, src) <==> Fs.Exists(t, src)
  {
  }

  /**
   * When the entries are independent and the loop succeeds, it returns
   * the targets of exactly the entries whose source exists, in order:
   * missing sources are skipped and nothing else is.
   */
  lemma {:induction false} LinkEachKept(t: Fs.Tree, root: Path, pairs: seq<(Path, Path)>)
    requires Independent(t, root, pairs)
    requires LinkEach(t, root, pairs).result.Success?
    ensures LinkEach(t, root, pairs).result.value == Kept(t, root, pairs)
    decreases |pairs|
  {
    if pairs != [] {
      var src := Join(root, pairs[0].0);
      var dst := pairs[0].1;
      if !Fs.Exists(t, src) {
        IndependentTail(t, root, pairs, t);
        LinkEachKept(t, root, pairs[1..]);
      } else {
        var t1 := LinkOne(t, src, dst).tree;
        LinkOneKeepsSources(t, root, pairs);
        IndependentTail(t, root, pairs, t1);
        LinkEachKept(t1, root, pairs[1..]);
        KeptStable(t, t1, root, pairs[1..]);
      }
    }
  }

  /** With every source as it was and no source a link, the same entries are kept. */
  lemma {:induction false} KeptStable(t: Fs.Tree, t1: Fs.Tree, root: Path, pairs: seq<(Path, Path)>)
    requires forall i :: 0 <= i < |pairs| ==>
      SameAt(t, t1, Join(root, pairs[i].0)) && (Join(root, pairs[i].0) in t ==> !t[Join(root, pairs[i].0)].Symlink?)
    ensures Kept(t1, root, pairs) == Kept(t, root, pairs)
    decreases |pairs|
  {
    if pairs != [] {
      SourceStable(t, t1, Join(root, pairs[0].0));
      assert forall i :: 0 <= i < |pairs[1..]| ==> pairs[1..][i] == pairs[i + 1];
      KeptStable(t, t1, root, pairs[1..]);
    }
  }

  predicate DistinctTargets(pairs: seq<(Path, Path)>) {
    forall i, j :: 0 <= i < j < |pairs| ==> pairs[i].1 != pairs[j].1
  }

  /**
   * When the entries are independent, have distinct targets and the loop
   * succeeds, each target of an existing source is a link to that source,
   * every path that is no entry's target is as it was, and the only paths
   * added besides the targets are directories on the way to a target's
   * directory.
   */
  lemma {:induction false} LinkEachTargets(t: Fs.Tree, root: Path, pairs: seq<(Path, Path)>)
    requires Independent(t, root, pairs) && DistinctTargets(pairs)
    requires LinkEach(t, root, pairs).result.Success?
    ensures forall i :: 0 <= i < |pairs| && Fs.Exists(t, Join(root, pairs[i].0)) ==>
      pairs[i].1 in LinkEach(t, root, pairs).tree &&
      LinkEach(t, root, pairs).tree[pairs[i].1] == Fs.Symlink(Join(root, pairs[i].0))
    ensures forall k :: k in t && NotATarget(k, pairs) ==>
      k in LinkEach(t, root, pairs).tree && LinkEach(t, root, pairs).tree[k] == t[k]
    ensures forall k :: k in LinkEach(t, root, pairs).tree && k !in t && NotATarget(k, pairs) ==>
      LinkEach(t, root, pairs).tree[k] == Fs.Dir &&
      exists i :: 0 <= i < |pairs| && Parent(pairs[i].1).Some? && StartsWith(Parent(pairs[i].1).value, k)
    decreases |pairs|
  {
    if pairs != [] {
      var src := Join(root, pairs[0].0);
      var dst := pairs[0].1;
      var tail := pairs[1..];
      assert forall i :: 0 <= i < |tail| ==> tail[i] == pairs[i + 1];
      assert DistinctTargets(tail);
      var t1 := if Fs.Exists(t, src) then LinkOne(t, src, dst).tree else t;
      if Fs.Exists(t, src) {
        LinkOneKeepsSources(t, root, pairs);
        LinkOneFrame(t, src, dst);
        LinkOneAdds(t, src, dst);
      }
      IndependentTail(t, root, pairs, t1);
      LinkEachTargets(t1, root, tail);
      var final := LinkEach(t, root, pairs).tree;
      assert final == LinkEach(t1, root, tail).tree;
      forall i | 0 <= i < |pairs| && Fs.Exists(t, Join(root, pairs[i].0))
        ensures pairs[i].1 in final && final[pairs[i].1] == Fs.Symlink(Join(root, pairs[i].0))
      {
        if i == 0 {
          assert NotATarget(dst, tail);
        } else {
          SourceStable(t, t1, Join(root, pairs[i].0));
          assert tail[i - 1] == pairs[i];
        }
      }
      forall k | k in t && NotATarget(k, pairs)
        ensures k in final && final[k] == t[k]
      {
        assert pairs[0].1 != k;
        assert NotATarget(k, tail);
      }
      forall k | k in final && k !in t && NotATarget(k, pairs)
        ensures final[k] == Fs.Dir
        ensures exists i :: 0 <= i < |pairs| && Parent(pairs[i].1).Some? && StartsWith(Parent(pairs[i].1).value, k)
      {
        assert pairs[0].1 != k;
        assert NotATarget(k, tail);
        if k in t1 {
          assert Parent(pairs[0].1).Some? && StartsWith(Parent(pairs[0].1).value, k);
        } else {
          var j :| 0 <= j < |tail| && Parent(tail[j].1).Some? && StartsWith(Parent(tail[j].1).value, k);
          assert tail[j] == pairs[j + 1];
        }
      }
    }
  }

  /** `<home>/.uhpm/packages/<name>-<version>`, with the version as text. */
  function VersionDir(home: Path, name: string, version: string): Path {
    Join(Join(home, ".uhpm/packages"), name + "-" + version)
  }

  /** The directory a package is installed in. */
  function PackageRoot(home: Path, pkg: Packages.Package): Path {
    VersionDir(home, pkg.name, ToString(pkg.version))
  }

  /** The installer's package directory is the one `get_pkg_path` names. */
  lemma PackageRootIsPkgPath(home: Path, pkg: Packages.Package)
    ensures PackageRoot(home, pkg) == Packages.PkgPath(home, pkg.name, pkg.version)
  {
    var dotDir := Join(home, ".uhpm");
    var packages := Join(home, ".uhpm/packages");
    assert Join(dotDir, "packages") == packages by {
      assert !IsAbsolute(".uhpm") && !IsAbsolute("packages") && !IsAbsolute(".uhpm/packages");
      if home == "" {
        assert dotDir == ".uhpm";
      } else if home[|home| - 1] == '/' {
        assert dotDir == home + ".uhpm";
        assert dotDir[|dotDir| - 1] == 'm';
        assert (home + ".uhpm") + "/" + "packages" == home + ".uhpm/packages";
      } else {
        assert dotDir == home + "/" + ".uhpm";
        assert dotDir[|dotDir| - 1] == 'm';
        assert (home + "/" + ".uhpm") + "/" + "packages" == home + "/" + ".uhpm/packages";
      }
    }
  }

  /**
   * Moving the unpacked tree into place: whatever is at the package
   * directory is removed, the directory is created and the unpacked
   * directory is renamed onto it.
   */
  function Place(t: Fs.Tree, unpacked: Path, root: Path): Step<Path> {
    var removed := if Fs.Exists(t, root) then Fs.TreeRemoveDirAll(t, root) else Success(t);
    match removed
    case Failure(e) => Step(t, Failure(e))
    case Success(t1) =>
      match Fs.TreeCreateDirAll(t1, root)
      case Failure(e) => Step(t1, Failure(e))
      case Success(t2) =>
        match Fs.TreeRename(t2, unpacked, root)
        case Failure(e) => Step(t2, Failure(e))
        case Success(t3) => Step(t3, Success(root))
  }

  /** What `install` leaves behind: the file system, the catalog and its result. */
  datatype Installation = Installation(tree: Fs.Tree, tables: Catalog.Tables, result: Outcome<InstallError>)

  /** The catalog writes that end a successful install: the package with its links, then its current version. */
  function Recorded(s: Catalog.Tables, pkg: Packages.Package, links: seq<Path>): Catalog.Tables {
    Catalog.AfterSetCurrent(Catalog.AfterAddFull(s, pkg, links), pkg.name, ToString(pkg.version))
  }

  /**
   * `install`: unpack, read `uhp.ron`, stop if this very version is already
   * installed, put the package in place, create links only if no version
   * was installed before, and record the package and its current version.
   */
  function InstallRun(t: Fs.Tree, s: Catalog.Tables, h: Host, pkgPath: Path): Installation {
    var u := UnpackRun(t, h, pkgPath);
    match u.result
    case Failure(e) => Installation(u.tree, s, Fail(Io(e)))
    case Success(unpacked) =>
      match Packages.MetaParser(u.tree, Join(unpacked, "uhp.ron"), h.decodeManifest)
      case Failure(e) => Installation(u.tree, s, Fail(Meta(e)))
      case Success(pkg) =>
        var already := Catalog.Installed(s, pkg.name);
        if already == Some(pkg.version) then Installation(u.tree, s, Pass)
        else
          var root := PackageRoot(h.home, pkg);
          var placed := Place(u.tree, unpacked, root);
          if placed.result.Failure? then Installation(placed.tree, s, Fail(Io(placed.result.error)))
          else
            var linked := if already.None? then CreateSymlinksRun(placed.tree, h, root) else Step(placed.tree, Success([]));
            match linked.result
            case Failure(e) => Installation(linked.tree, s, Fail(Io(e)))
            case Success(links) => Installation(linked.tree, Recorded(s, pkg, links), Pass)
  }

  /** `install`, one call at a time. */
  method Install(fs: Fs.FileSystem, db: Catalog.PackageDB, h: Host, pkgPath: Path) returns (r: Outcome<InstallError>)
    modifies fs, db
    ensures Installation(fs.tree, db.State(), r) == InstallRun(old(fs.tree), old(db.State()), h, pkgPath)
  {
    var u := Unpack(fs, h, pkgPath);
    if u.Failure? {
      return Fail(Io(u.error));
    }
    var unpacked := u.value;
    var meta := Packages.MetaParser(fs.tree, Join(unpacked, "uhp.ron"), h.decodeManifest);
    if meta.Failure? {
      return Fail(Meta(meta.error));
    }
    var pkg := meta.value;
    var already := db.IsInstalled(pkg.name);
    if already == Some(pkg.version) {
      return Pass;
    }
    var root := PackageRoot(h.home, pkg);
    ghost var t0 := fs.tree;
    var o: Outcome<Fs.IoError>;
    if Fs.Exists(fs.tree, root) {
      o := fs.RemoveDirAll(root);
      if o.Fail? {
        return Fail(Io(o.error));
      }
    }
    o := fs.CreateDirAll(root);
    if o.Fail? {
      return Fail(Io(o.error));
    }
    o := fs.Rename(unpacked, root);
    if o.Fail? {
      return Fail(Io(o.error));
    }
    assert Place(t0, unpacked, root) == Step(fs.tree, Success(root));
    var links: seq<Path> := [];
    if already.None? {
      var made := CreateSymlinks(fs, h, root);
      if made.Failure? {
        return Fail(Io(made.error));
      }
      links := made.value;
    }
    db.AddPackageFull(pkg, links);
    db.SetCurrentVersion(pkg.name, ToString(pkg.version));
    r := Pass;
  }

  /**
   * Reinstalling the version the catalog reports returns success after
   * unpacking, without moving anything, linking anything or writing the
   * catalog.
   */
  lemma InstallSameVersionSkips(t: Fs.Tree, s: Catalog.Tables, h: Host, pkgPath: Path, pkg: Packages.Package)
    requires UnpackRun(t, h, pkgPath).result.Success?
    requires Packages.MetaParser(UnpackRun(t, h, pkgPath).tree,
      Join(UnpackRun(t, h, pkgPath).result.value, "uhp.ron"), h.decodeManifest) == Success(pkg)
    requires Catalog.Installed(s, pkg.name) == Some(pkg.version)
    ensures InstallRun(t, s, h, pkgPath) == Installation(UnpackRun(t, h, pkgPath).tree, s, Pass)
  {
  }

  /** A failed install writes nothing to the catalog. */
  lemma InstallFailureKeepsCatalog(t: Fs.Tree, s: Catalog.Tables, h: Host, pkgPath: Path)
    requires InstallRun(t, s, h, pkgPath).result.Fail?
    ensures InstallRun(t, s, h, pkgPath).tables == s
  {
    var u := UnpackRun(t, h, pkgPath);
    if u.result.Success? {
      var meta := Packages.MetaParser(u.tree, Join(u.result.value, "uhp.ron"), h.decodeManifest);
      if meta.Success? && Catalog.Installed(s, meta.value.name) != Some(meta.value.version) {
        var pkg := meta.value;
        var root := PackageRoot(h.home, pkg);
        var placed := Place(u.tree, u.result.value, root);
        if placed.result.Success? {
          var linked := if Catalog.Installed(s, pkg.name).None? then CreateSymlinksRun(placed.tree, h, root)
            else Step(placed.tree, Success([]));
          assert linked.result.Failure?;
        }
      }
    }
  }

  /**
   * A successful install of a version the catalog does not report adds
   * one row for the package and makes its version current; on a version
   * change no file is recorded, on a fresh install the created links are.
   */
  lemma InstallRecords(t: Fs.Tree, s: Catalog.Tables, h: Host, pkgPath: Path, pkg: Packages.Package)
    requires UnpackRun(t, h, pkgPath).result.Success?
    requires Packages.MetaParser(UnpackRun(t, h, pkgPath).tree,
      Join(UnpackRun(t, h, pkgPath).result.value, "uhp.ron"), h.decodeManifest) == Success(pkg)
    requires Catalog.Installed(s, pkg.name) != Some(pkg.version)
    requires InstallRun(t, s, h, pkgPath).result.Pass?
    ensures var r := InstallRun(t, s, h, pkgPath).tables;
      |r.packages| == |s.packages| + 1 && r.packages[..|s.packages|] == s.packages &&
      r.packages[|s.packages|] == Catalog.RowOf(pkg) &&
      pkg.name in r.current && r.current[pkg.name] == ToString(pkg.version) &&
      Catalog.Installed(r, pkg.name).Some?
    ensures Catalog.Installed(s, pkg.name).Some? ==>
      forall n :: Catalog.FilesOf(InstallRun(t, s, h, pkgPath).tables, n) == Catalog.FilesOf(s, n)
    ensures Catalog.Installed(s, pkg.name).None? ==>
      var u := UnpackRun(t, h, pkgPath);
      var placed := Place(u.tree, u.result.value, PackageRoot(h.home, pkg));
      var links := CreateSymlinksRun(placed.tree, h, PackageRoot(h.home, pkg));
      links.result.Success? && InstallRun(t, s, h, pkgPath).tree == links.tree &&
      InstallRun(t, s, h, pkgPath).tables == Recorded(s, pkg, links.result.value)
  {
    var u := UnpackRun(t, h, pkgPath);
    var root := PackageRoot(h.home, pkg);
    var placed := Place(u.tree, u.result.value, root);
    assert placed.result.Success?;
    var linked := if Catalog.Installed(s, pkg.name).None? then CreateSymlinksRun(placed.tree, h, root) else Step(placed.tree, Success([]));
    assert linked.result.Success?;
    assert InstallRun(t, s, h, pkgPath) == Installation(linked.tree, Recorded(s, pkg, linked.result.value), Pass);
    RecordedFacts(s, pkg, linked.result.value);
  }

  /** What recording an install does to the catalog tables. */
  lemma RecordedFacts(s: Catalog.Tables, pkg: Packages.Package, links: seq<Path>)
    ensures var r := Recorded(s, pkg, links);
      |r.packages| == |s.packages| + 1 && r.packages[..|s.packages|] == s.packages &&
      r.packages[|s.packages|] == Catalog.RowOf(pkg) &&
      pkg.name in r.current && r.current[pkg.name] == ToString(pkg.version) &&
      Catalog.Installed(r, pkg.name).Some?
    ensures links == [] ==> forall n :: Catalog.FilesOf(Recorded(s, pkg, links), n) == Catalog.FilesOf(s, n)
  {
    var added := Catalog.AfterAddFull(s, pkg, links);
    Catalog.AddFullMakesInstalled(s, pkg, links);
    assert Recorded(s, pkg, links).packages == added.packages;
  }

  /** A key below both `a` and `b` means one of them is below the other. */
  lemma WithinBoth(k: Path, a: Path, b: Path)
    requires Fs.Within(k, a) && Fs.Within(k, b)
    ensures Fs.Within(a, b) || Fs.Within(b, a)
  {
    assert k[..|a|] == a && k[..|b|] == b;
    if |a| <= |b| {
      assert k[..|b|][..|a|] == k[..|a|];
      assert b[..|a|] == a;
      if k != b && |a| < |b| {
        assert b[..|a| + 1] == k[..|a| + 1];
      }
    } else {
      assert k[..|a|][..|b|] == k[..|b|];
      assert a[..|b|] == b;
      if k != a && |b| < |a| {
        assert a[..|b| + 1] == k[..|b| + 1];
      }
    }
  }

  /**
   * After a successful `Place`, the package directory holds exactly what
   * the unpacked directory held, path for path; nothing that was at the
   * package directory before survives.  (The two paths are assumed apart:
   * neither is a prefix of the other.)
   */
  lemma PlaceContents(t: Fs.Tree, unpacked: Path, root: Path, rest: Path)
    requires !StartsWith(root, unpacked) && !StartsWith(unpacked, root)
    requires rest == "" || rest[0] == '/'
    requires Place(t, unpacked, root).result.Success?
    ensures root + rest in Place(t, unpacked, root).tree <==> unpacked + rest in t
    ensures unpacked + rest in t ==> Place(t, unpacked, root).tree[root + rest] == t[unpacked + rest]
  {
    var removed := if Fs.Exists(t, root) then Fs.TreeRemoveDirAll(t, root) else Success(t);
    var t1 := removed.value;
    var t2 := Fs.TreeCreateDirAll(t1, root).value;
    var t3 := Fs.TreeRename(t2, unpacked, root).value;
    assert Place(t, unpacked, root).tree == t3;
    var k := unpacked + rest;
    assert Fs.Within(k, unpacked);
    assert k[..|unpacked|] == unpacked;
    // `k` is not below the package directory, so neither removal touches it.
    if StartsWith(k, root) {
      StartsWithComparable(k, unpacked, root);
    }
    // A directory `create_dir_all` adds is a prefix of the package directory, which `k` is not.
    if StartsWith(root, k) {
      StartsWithTransitive(root, k, unpacked);
    }
    ClearedKeeps(t, root, k);
    assert unpacked != root;
    RenameLands(t2, unpacked, root, rest);
  }

  /** Clearing and re-creating the package directory leaves a path beside it as it was. */
  lemma ClearedKeeps(t: Fs.Tree, root: Path, k: Path)
    requires !StartsWith(k, root) && !StartsWith(root, k)
    requires var removed := if Fs.Exists(t, root) then Fs.TreeRemoveDirAll(t, root) else Success(t);
      removed.Success? && Fs.TreeCreateDirAll(removed.value, root).Success?
    ensures var removed := if Fs.Exists(t, root) then Fs.TreeRemoveDirAll(t, root) else Success(t);
      var t2 := Fs.TreeCreateDirAll(removed.value, root).value;
      (k in t2 <==> k in t) && (k in t ==> t2[k] == t[k])
  {
    assert !Fs.Within(k, root);
    if Fs.Exists(t, root) {
      RemovedKeeps(t, root, k);
      CreatedKeeps(Fs.TreeRemoveDirAll(t, root).value, root, k);
    } else {
      CreatedKeeps(t, root, k);
    }
  }

  /** `remove_dir_all` leaves alone every path outside the removed one. */
  lemma RemovedKeeps(t: Fs.Tree, root: Path, k: Path)
    requires !Fs.Within(k, root) && Fs.TreeRemoveDirAll(t, root).Success?
    ensures var t1 := Fs.TreeRemoveDirAll(t, root).value;
      (k in t1 <==> k in t) && (k in t ==> t1[k] == t[k])
  {
    assert k != root;
    assert k !in Fs.Subtree(t, root);
  }

  /** `create_dir_all` adds only ancestors of the created path. */
  lemma CreatedKeeps(t: Fs.Tree, root: Path, k: Path)
    requires !StartsWith(root, k) && Fs.TreeCreateDirAll(t, root).Success?
    ensures var t2 := Fs.TreeCreateDirAll(t, root).value;
      (k in t2 <==> k in t) && (k in t ==> t2[k] == t[k])
  {
  }

  /** Renaming the unpacked directory onto the package directory moves each path below it across. */
  lemma RenameLands(t2: Fs.Tree, unpacked: Path, root: Path, rest: Path)
    requires unpacked != root && !StartsWith(root, unpacked) && !StartsWith(unpacked, root)
    requires rest == "" || rest[0] == '/'
    requires Fs.TreeRename(t2, unpacked, root).Success?
    ensures root + rest in Fs.TreeRename(t2, unpacked, root).value <==> unpacked + rest in t2
    ensures unpacked + rest in t2 ==> Fs.TreeRename(t2, unpacked, root).value[root + rest] == t2[unpacked + rest]
  {
    var t3 := Fs.TreeRename(t2, unpacked, root).value;
    var k := unpacked + rest;
    var key := root + rest;
    assert Fs.Within(k, unpacked) && Fs.Within(key, root);
    assert t3 == (t2 - Fs.Subtree(t2, unpacked) - Fs.Subtree(t2, root)) + Fs.Moved(t2, unpacked, root);
    if k in t2 {
      Fs.RenameMoves(t2, unpacked, root, k);
      assert Fs.Reroot(k, unpacked, root) == key by {
        var r := Fs.Reroot(k, unpacked, root);
        assert r[..|root|] == root && unpacked + r[|root|..] == k;
        assert k[|unpacked|..] == rest;
        assert r[|root|..] == rest;
        assert r == r[..|root|] + r[|root|..];
      }
    }
    if key in t3 {
      assert key !in t2 - Fs.Subtree(t2, unpacked) - Fs.Subtree(t2, root);
      assert key in Fs.Moved(t2, unpacked, root);
      var j :| j in t2 && Fs.Within(j, unpacked) && Fs.Reroot(j, unpacked, root) == key;
      var r := Fs.Reroot(j, unpacked, root);
      assert r[|root|..] == rest;
      assert j == k;
    }
  }
}
