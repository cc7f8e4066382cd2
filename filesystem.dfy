/**
 * The file system the package manager works on, as a map from absolute
 * paths to nodes.  Lookups that follow symbolic links (`Path::exists`,
 * `Path::is_dir`, `fs::read_to_string`) resolve a link's target path again,
 * up to the Linux limit of 40 hops; `symlink_metadata` and `read_link` look
 * at the link itself.  Each mutating `std::fs` call is a function from the
 * old tree to a new tree or an error, and `FileSystem` holds the tree that
 * the program's steps update in place.
 */
module Fs {
  import opened Wrappers
  import opened Strings
  import opened Paths

  datatype Node = Dir | File(content: string) | Symlink(target: Path)

  type Tree = map<Path, Node>

  /** The `std::io::ErrorKind`s the modelled calls produce. */
  datatype IoKind =
    | NotFound
    | AlreadyExists
    | InvalidInput
    | InvalidData
    | IsADirectory
    | NotADirectory
    | DirectoryNotEmpty
    | FilesystemLoop
    | Other

  datatype IoError = IoError(kind: IoKind, message: string)

  /** An error raised by the operating system, with its `strerror` text. */
  function OsError(kind: IoKind): (e: IoError)
    ensures e.kind == kind
  {
    var text :=
      match kind
      case NotFound => "No such file or directory"
      case AlreadyExists => "File exists"
      case InvalidInput => "Invalid argument"
      case InvalidData => "Invalid data"
      case IsADirectory => "Is a directory"
      case NotADirectory => "Not a directory"
      case DirectoryNotEmpty => "Directory not empty"
      case FilesystemLoop => "Too many levels of symbolic links"
      case Other => "Input/output error";
    IoError(kind, text)
  }

  /** Linux gives up with ELOOP after 40 symbolic links. */
  const MaxLinkHops := 40

  /** The node reached from `p` by following symbolic links, with `hops` links left to follow. */
  function Resolve(t: Tree, p: Path, hops: nat): (r: Option<Node>)
    ensures r.Some? ==> !r.value.Symlink?
    ensures p in t && !t[p].Symlink? ==> r == Some(t[p])
    ensures p !in t ==> r.None?
    decreases hops
  {
    if p !in t then None
    else
      match t[p]
      case Symlink(target) => if hops == 0 then None else Resolve(t, target, hops - 1)
      case n => Some(n)
  }

  /** `Path::exists`: follows links, so a dangling link does not exist. */
  predicate Exists(t: Tree, p: Path) {
    Resolve(t, p, MaxLinkHops).Some?
  }

  /** `Path::is_dir`, following links. */
  predicate IsDir(t: Tree, p: Path) {
    Resolve(t, p, MaxLinkHops) == Some(Dir)
  }

  /** `fs::symlink_metadata(p).is_ok()`: something, possibly a link, sits at `p`. */
  predicate Present(t: Tree, p: Path) {
    p in t
  }

  predicate IsSymlink(t: Tree, p: Path) {
    p in t && t[p].Symlink?
  }

  /** A dangling link is present but does not exist. */
  lemma DanglingLink(t: Tree, p: Path)
    requires p in t && t[p].Symlink? && t[p].target !in t
    ensures Present(t, p) && !Exists(t, p)
  {
  }

  /** `k` is `root` or lies below it. */
  predicate Within(k: Path, root: Path) {
    k == root || StartsWith(k, root + "/")
  }

  /** `fs::read_to_string`, following links. */
  function ReadToString(t: Tree, p: Path): (r: Result<string, IoError>)
    ensures r.Success? <==> Resolve(t, p, MaxLinkHops).Some? && Resolve(t, p, MaxLinkHops).value.File?
    ensures r.Success? ==> Resolve(t, p, MaxLinkHops) == Some(File(r.value))
  {
    match Resolve(t, p, MaxLinkHops)
    case None => Failure(OsError(NotFound))
    case Some(Dir) => Failure(OsError(IsADirectory))
    case Some(File(text)) => Success(text)
  }

  /** `fs::read_link`. */
  function ReadLink(t: Tree, p: Path): (r: Result<Path, IoError>)
    ensures r.Success? <==> IsSymlink(t, p)
    ensures r.Success? ==> t[p] == Symlink(r.value)
  {
    if p !in t then Failure(OsError(NotFound))
    else if t[p].Symlink? then Success(t[p].target)
    else Failure(OsError(InvalidInput))
  }

  /** `fs::remove_file`: unlinks a file or a link (never its target); refuses a directory. */
  function TreeRemoveFile(t: Tree, p: Path): (r: Result<Tree, IoError>)
    ensures r.Success? <==> p in t && !t[p].Dir?
    ensures r.Success? ==> r.value == t - {p}
  {
    if p !in t then Failure(OsError(NotFound))
    else if t[p].Dir? then Failure(OsError(IsADirectory))
    else Success(t - {p})
  }

  /** Everything at or below `root`. */
  function Subtree(t: Tree, root: Path): (s: set<Path>)
    ensures forall k :: k in s <==> k in t && Within(k, root)
  {
    set k | k in t && Within(k, root)
  }

  /**
   * `fs::remove_dir_all`: a link at `p` is removed as a link; a directory is
   * removed with everything below it, links inside it included but never
   * what they point to; a file is refused.
   */
  function TreeRemoveDirAll(t: Tree, p: Path): (r: Result<Tree, IoError>)
    ensures r.Success? <==> p in t && !t[p].File?
    ensures r.Success? && t[p].Symlink? ==> r.value == t - {p}
    ensures r.Success? && t[p].Dir? ==> r.value == t - Subtree(t, p)
  {
    if p !in t then Failure(OsError(NotFound))
    else
      match t[p]
      case Symlink(_) => Success(t - {p})
      case File(_) => Failure(OsError(NotADirectory))
      case Dir => Success(t - Subtree(t, p))
  }

  /**
   * The ancestor of `p` nearest the root that does not lead to a directory,
   * which is where the kernel's walk down to `p` stops: `mkdir` reports
   * ENOENT when that ancestor is missing and ENOTDIR when it is something
   * else.
   */
  function Blocker(t: Tree, p: Path): (r: Option<Path>)
    ensures r.Some? ==> r.value != "" && |r.value| < |p| && StartsWith(p, r.value) && !IsDir(t, r.value)
    decreases |p|
  {
    match Parent(p)
    case None => None
    case Some(q) =>
      if q == "" then None
      else
        match Blocker(t, q)
        case Some(b) =>
          assert StartsWith(p, b) by {
            assert p[..|q|][..|b|] == p[..|b|];
          }
          Some(b)
        case None => if IsDir(t, q) then None else Some(q)
  }

  /** `mkdir(p)` fails with ENOTDIR: the walk to `p` meets something that is not a directory. */
  predicate NotADirectoryOnTheWay(t: Tree, p: Path) {
    Blocker(t, p).Some? && Exists(t, Blocker(t, p).value)
  }

  /**
   * `fs::create_dir_all`: the empty path is accepted as it is; a directory
   * (also through a link) is left alone; anything else already at the path
   * is `AlreadyExists`; a path below something that is not a directory is
   * `NotADirectory`; a missing path is created after its ancestors.
   */
  function TreeCreateDirAll(t: Tree, p: Path): (r: Result<Tree, IoError>)
    ensures r.Success? && p != "" ==> IsDir(r.value, p)
    ensures r.Success? ==> forall k :: k in t ==> k in r.value && r.value[k] == t[k]
    ensures r.Success? ==> forall k :: k in r.value && k !in t ==> r.value[k] == Dir && StartsWith(p, k)
    ensures p == "" || IsDir(t, p) ==> r == Success(t)
    ensures p != "" && p in t && !IsDir(t, p) ==> r == Failure(OsError(AlreadyExists))
    ensures p != "" && p !in t && NotADirectoryOnTheWay(t, p) ==> r == Failure(OsError(NotADirectory))
    ensures r.Failure? ==> r.error.kind == AlreadyExists || r.error.kind == NotADirectory
    decreases |p|
  {
    if p == "" then Success(t)
    else if p in t then
      if IsDir(t, p) then Success(t) else Failure(OsError(AlreadyExists))
    else if NotADirectoryOnTheWay(t, p) then Failure(OsError(NotADirectory))
    else
      match Parent(p)
      case None => Success(t[p := Dir])
      case Some(q) =>
        match TreeCreateDirAll(t, q)
        case Failure(e) => Failure(e)
        case Success(t1) =>
          assert forall k :: StartsWith(q, k) ==> StartsWith(p, k) by {
            forall k | StartsWith(q, k) ensures StartsWith(p, k) {
              assert p[..|q|][..|k|] == p[..|k|];
            }
          }
          Success(t1[p := Dir])
  }

  /** Creating a directory inside a regular file fails with `NotADirectory`, not `AlreadyExists`. */
  lemma CreateUnderFile(t: Tree, f: Path, name: string)
    requires name != "" && name != "." && name != ".." && !HasChar(name, '/')
    requires f == "/" || (f != "" && Trimmed(f))
    requires f in t && t[f].File? && Blocker(t, f).None? && Join(f, name) !in t
    ensures TreeCreateDirAll(t, Join(f, name)) == Failure(OsError(NotADirectory))
  {
    ParentOfJoin(f, name);
    assert Blocker(t, Join(f, name)) == Some(f);
  }

  /** `std::os::unix::fs::symlink(target, link)`: anything at `link`, even a dangling link, is in the way. */
  function TreeSymlink(t: Tree, target: Path, link: Path): (r: Result<Tree, IoError>)
    ensures r.Success? <==> link !in t
    ensures r.Success? ==> r.value == t[link := Symlink(target)]
    ensures r.Failure? ==> r.error.kind == AlreadyExists
  {
    if link in t then Failure(OsError(AlreadyExists)) else Success(t[link := Symlink(target)])
  }

  /**
   * The path that opening `p` for writing reaches: `p` itself when nothing
   * or a non-link is there, otherwise the end of its chain of links (which
   * may be missing, for a dangling link); none after too many links.
   */
  function WriteTarget(t: Tree, p: Path, hops: nat): (r: Option<Path>)
    ensures r.Some? ==> r.value !in t || !t[r.value].Symlink?
    ensures p !in t || !t[p].Symlink? ==> r == Some(p)
    ensures r.Some? && r.value in t ==> Resolve(t, p, hops) == Some(t[r.value])
    decreases hops
  {
    if p !in t || !t[p].Symlink? then Some(p)
    else if hops == 0 then None
    else WriteTarget(t, t[p].target, hops - 1)
  }

  /**
   * `fs::write`: opens the path as `O_CREAT | O_TRUNC`, which follows a link
   * at the path, so the file at the end of the links is created or
   * truncated and the links stay; a directory there is `IsADirectory`.
   */
  function TreeWrite(t: Tree, p: Path, text: string): (r: Result<Tree, IoError>)
    ensures r.Success? <==>
      (WriteTarget(t, p, MaxLinkHops).Some? &&
       (WriteTarget(t, p, MaxLinkHops).value !in t || t[WriteTarget(t, p, MaxLinkHops).value].File?))
    ensures r.Success? ==> r.value == t[WriteTarget(t, p, MaxLinkHops).value := File(text)]
    ensures r.Success? ==> p in r.value
    ensures r.Success? && p in t && t[p].Symlink? ==> r.value[p] == t[p]
    ensures p !in t || t[p].File? ==> r == Success(t[p := File(text)])
    ensures p in t && t[p].Dir? ==> r == Failure(OsError(IsADirectory))
  {
    match WriteTarget(t, p, MaxLinkHops)
    case None => Failure(OsError(FilesystemLoop))
    case Some(q) => if q in t && t[q].Dir? then Failure(OsError(IsADirectory)) else Success(t[q := File(text)])
  }

  /** Following the same links after the write reaches the written node. */
  lemma {:induction false} ResolveWritten(t: Tree, p: Path, hops: nat, q: Path, n: Node)
    requires WriteTarget(t, p, hops) == Some(q) && !n.Symlink?
    ensures Resolve(t[q := n], p, hops) == Some(n)
    decreases hops
  {
    if p != q {
      ResolveWritten(t, t[p].target, hops - 1, q, n);
    }
  }

  /** Reading a path back after writing it, through any links, gives the text written. */
  lemma WriteThenRead(t: Tree, p: Path, text: string)
    requires TreeWrite(t, p, text).Success?
    ensures ReadToString(TreeWrite(t, p, text).value, p) == Success(text)
  {
    ResolveWritten(t, p, MaxLinkHops, WriteTarget(t, p, MaxLinkHops).value, File(text));
  }

  /** The name `k` below `from` takes when `from` is renamed to `to`. */
  function Reroot(k: Path, from: Path, to: Path): (r: Path)
    requires Within(k, from)
    ensures |to| <= |r| && from + r[|to|..] == k
    ensures r[..|to|] == to
  {
    var r := to + k[|from|..];
    assert r[|to|..] == k[|from|..];
    assert k == k[..|from|] + k[|from|..];
    r
  }

  /** The subtree at `from`, renamed to lie at `to`. */
  function Moved(t: Tree, from: Path, to: Path): (m: Tree)
  {
    var names := set k | k in t && Within(k, from) :: Reroot(k, from, to);
    assert forall n | n in names :: |to| <= |n| && from + n[|to|..] in t;
    map n | n in names :: t[from + n[|to|..]]
  }

  predicate IsEmptyDir(t: Tree, p: Path) {
    p in t && t[p].Dir? && Subtree(t, p) == {p}
  }

  /**
   * `fs::rename` (rename(2)): a directory replaces a missing path or an
   * empty directory; anything else replaces a missing path or a non-directory.
   */
  function TreeRename(t: Tree, from: Path, to: Path): (r: Result<Tree, IoError>)
    ensures r.Success? ==> from in t
    ensures r.Success? && from != to ==> r.value == (t - Subtree(t, from) - Subtree(t, to)) + Moved(t, from, to)
  {
    if from !in t then Failure(OsError(NotFound))
    else if from == to then Success(t)
    else if t[from].Dir? && Within(to, from) then Failure(OsError(InvalidInput))
    else if t[from].Dir? && to in t && !t[to].Dir? then Failure(OsError(NotADirectory))
    else if t[from].Dir? && to in t && !IsEmptyDir(t, to) then Failure(OsError(DirectoryNotEmpty))
    else if !t[from].Dir? && to in t && t[to].Dir? then Failure(OsError(IsADirectory))
    else Success((t - Subtree(t, from) - Subtree(t, to)) + Moved(t, from, to))
  }

  /** After a rename, the node that stood at `from + rest` stands at `to + rest`. */
  lemma RenameMoves(t: Tree, from: Path, to: Path, k: Path)
    requires TreeRename(t, from, to).Success? && from != to
    requires k in t && Within(k, from)
    ensures Reroot(k, from, to) in TreeRename(t, from, to).value
    ensures TreeRename(t, from, to).value[Reroot(k, from, to)] == t[k]
  {
    assert Reroot(k, from, to) in Moved(t, from, to);
  }

  /**
   * The state of the machine's file system, updated in place by the
   * program's `std::fs` calls.  Every method either applies its operation
   * or leaves the tree as it was and reports the error.
   */
  class FileSystem {
    var tree: Tree

    constructor(t: Tree)
      ensures tree == t
    {
      tree := t;
    }

    /** The tree is updated as `spec` says, or left alone on an error. */
    static predicate Stepped(before: Tree, after: Tree, r: Outcome<IoError>, spec: Result<Tree, IoError>) {
      match spec
      case Success(t) => r == Pass && after == t
      case Failure(e) => r == Fail(e) && after == before
    }

    method Apply(spec: Result<Tree, IoError>) returns (r: Outcome<IoError>)
      modifies this
      ensures Stepped(old(tree), tree, r, spec)
    {
      match spec
      case Success(t) =>
        tree := t;
        r := Pass;
      case Failure(e) =>
        r := Fail(e);
    }

    method RemoveFile(p: Path) returns (r: Outcome<IoError>)
      modifies this
      ensures Stepped(old(tree), tree, r, TreeRemoveFile(old(tree), p))
    {
      r := Apply(TreeRemoveFile(tree, p));
    }

    method RemoveDirAll(p: Path) returns (r: Outcome<IoError>)
      modifies this
      ensures Stepped(old(tree), tree, r, TreeRemoveDirAll(old(tree), p))
    {
      r := Apply(TreeRemoveDirAll(tree, p));
    }

    method CreateDirAll(p: Path) returns (r: Outcome<IoError>)
      modifies this
      ensures Stepped(old(tree), tree, r, TreeCreateDirAll(old(tree), p))
    {
      r := Apply(TreeCreateDirAll(tree, p));
    }

    method Symlink(target: Path, link: Path) returns (r: Outcome<IoError>)
      modifies this
      ensures Stepped(old(tree), tree, r, TreeSymlink(old(tree), target, link))
    {
      r := Apply(TreeSymlink(tree, target, link));
    }

    method Rename(from: Path, to: Path) returns (r: Outcome<IoError>)
      modifies this
      ensures Stepped(old(tree), tree, r, TreeRename(old(tree), from, to))
    {
      r := Apply(TreeRename(tree, from, to));
    }

    method Write(p: Path, text: string) returns (r: Outcome<IoError>)
      modifies this
      ensures Stepped(old(tree), tree, r, TreeWrite(old(tree), p, text))
    {
      r := Apply(TreeWrite(tree, p, text));
    }
  }
}
