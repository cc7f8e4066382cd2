/**
 * Paths as text, with the behaviour of `std::path` the program relies on:
 * `join` (an absolute right operand replaces the left), `parent`,
 * `file_name`, `file_stem` and `extension`.
 */
module Paths {
  import opened Wrappers
  import opened Strings

  type Path = string

  predicate IsAbsolute(p: Path) {
    |p| > 0 && p[0] == '/'
  }

  /** The position of the last `c` in `s`. */
  function LastIndex(s: string, c: char): (r: Option<nat>)
    ensures r.Some? ==> r.value < |s| && s[r.value] == c
    ensures r.Some? ==> forall j :: r.value < j < |s| ==> s[j] != c
    ensures r.None? ==> forall j :: 0 <= j < |s| ==> s[j] != c
    decreases |s|
  {
    if s == [] then None
    else if s[|s| - 1] == c then Some(|s| - 1)
    else LastIndex(s[..|s| - 1], c)
  }

  /** `Path::join`: an absolute `p` replaces `base`; otherwise one separator is put between them. */
  function Join(base: Path, p: Path): (r: Path)
    ensures IsAbsolute(p) ==> r == p
    ensures !IsAbsolute(p) && base != "" && base[|base| - 1] != '/' ==> r == base + "/" + p
    ensures !IsAbsolute(p) && base != "" && base[|base| - 1] == '/' ==> r == base + p
    ensures base == "" ==> r == p
  {
    if IsAbsolute(p) || base == "" then p
    else if base[|base| - 1] == '/' then base + p
    else base + "/" + p
  }

  /** The text after the last separator. */
  function LastComponent(p: Path): (r: string)
    ensures forall j :: 0 <= j < |r| ==> r[j] != '/'
  {
    match LastIndex(p, '/')
    case None => p
    case Some(i) => p[i + 1..]
  }

  /** Nothing left to trim: no trailing separator or `/.` after the first character. */
  predicate Trimmed(p: Path) {
    |p| < 2 || (p[|p| - 1] != '/' && p[|p| - 2..] != "/.")
  }

  /** The path without trailing separators and trailing `/.` parts, which `Path::components` drops. */
  function TrimTrailing(p: Path): (r: Path)
    ensures |r| <= |p| && StartsWith(p, r)
    ensures Trimmed(r)
    ensures r == "" ==> p == "" || p[0] == '/'
    decreases |p|
  {
    if |p| >= 2 && p[|p| - 1] == '/' then TrimTrailing(p[..|p| - 1])
    else if |p| >= 2 && p[|p| - 2..] == "/." then TrimTrailing(p[..|p| - 2])
    else p
  }

  /** `Path::file_name`: the last component, unless it is empty, `.` or `..`. */
  function FileName(p: Path): (r: Option<string>)
    ensures r.Some? ==> r.value != "" && r.value != "." && r.value != ".."
    ensures r.Some? ==> !HasChar(r.value, '/')
  {
    var name := LastComponent(TrimTrailing(p));
    if name == "" || name == "." || name == ".." then None else Some(name)
  }

  /**
   * `Path::extension`: the part of the file name after its last dot, when
   * that dot is not the first character of the name.
   */
  function Extension(p: Path): (r: Option<string>)
    ensures r.Some? ==> FileName(p).Some?
  {
    match FileName(p)
    case None => None
    case Some(name) =>
      match LastIndex(name, '.')
      case None => None
      case Some(i) => if i == 0 then None else Some(name[i + 1..])
  }

  /** `Path::file_stem`: the file name without its extension. */
  function FileStem(p: Path): (r: Option<string>)
    ensures r.Some? <==> FileName(p).Some?
    ensures Extension(p).None? ==> r == FileName(p)
    ensures Extension(p).Some? ==> r.value + "." + Extension(p).value == FileName(p).value
  {
    match FileName(p)
    case None => None
    case Some(name) =>
      match LastIndex(name, '.')
      case None => Some(name)
      case Some(i) =>
        if i == 0 then Some(name)
        else
          assert name == name[..i] + "." + name[i + 1..];
          Some(name[..i])
  }

  /**
   * `Path::parent`: the path without its last component, once trailing
   * separators and `/.` parts are trimmed, and with the separators and `/.`
   * parts before that component trimmed as well; none for the root and the
   * empty path.
   */
  function Parent(p: Path): (r: Option<Path>)
    ensures r.Some? ==> |r.value| < |p| && StartsWith(p, r.value)
    ensures r.Some? ==> r.value == "/" || Trimmed(r.value)
    ensures r.None? <==> TrimTrailing(p) == "" || TrimTrailing(p) == "/"
    ensures r.Some? && !HasChar(TrimTrailing(p), '/') ==> r.value == ""
  {
    var t := TrimTrailing(p);
    if t == "" || t == "/" then None
    else
      match LastIndex(t, '/')
      case None => Some("")
      case Some(i) =>
        var d := TrimTrailing(t[..i]);
        assert StartsWith(p, t[..i]) by {
          assert p[..|t|][..i] == p[..i];
        }
        assert StartsWith(p, d) by {
          assert p[..i][..|d|] == p[..|d|];
        }
        if d == "" then Some("/") else Some(d)
  }


  /** Joining a plain name onto a directory gives a path whose file name is that name. */
  lemma FileNameOfJoin(dir: Path, name: string)
    requires name != "" && name != "." && name != ".." && !HasChar(name, '/')
    ensures FileName(Join(dir, name)) == Some(name)
  {
    var r := Join(dir, name);
    assert r == if dir == "" then name else if dir[|dir| - 1] == '/' then dir + name else dir + "/" + name;
    var i := LastIndex(r, '/');
    assert r[|r| - |name|..] == name;
    assert r[|r| - 1] == name[|name| - 1];
    if |r| >= 2 {
      if |name| >= 2 {
        assert r[|r| - 2] == name[|name| - 2];
      } else {
        assert name == [name[0]];
      }
      assert r[|r| - 2..] != "/.";
    }
    assert TrimTrailing(r) == r;
    if dir != "" {
      assert r[|r| - |name| - 1] == '/';
      assert r[|r| - |name|..] == name;
      assert forall j :: |r| - |name| <= j < |r| ==> r[j] == name[j - (|r| - |name|)];
    }
  }

  /** A trimmed path is its own trimming. */
  lemma TrimmedFixed(p: Path)
    requires Trimmed(p)
    ensures TrimTrailing(p) == p
  {
  }

  /** Parent sees a path only through its trimming. */
  lemma ParentOfTrimming(a: Path, b: Path)
    requires TrimTrailing(a) == TrimTrailing(b)
    ensures Parent(a) == Parent(b)
  {
  }

  lemma TrimSeparator(p: Path)
    requires p != ""
    ensures TrimTrailing(p + "/") == TrimTrailing(p)
  {
    assert (p + "/")[..|p|] == p;
  }

  lemma TrimDot(p: Path)
    ensures TrimTrailing(p + "/.") == TrimTrailing(p)
  {
    assert (p + "/.")[..|p|] == p;
  }

  /** A trailing separator or `/.` does not change the parent. */
  lemma ParentIgnoresTrailing(p: Path)
    ensures Parent(p + "/") == Parent(p)
    ensures Parent(p + "/.") == Parent(p)
  {
    if p != "" {
      TrimSeparator(p);
      ParentOfTrimming(p + "/", p);
    }
    TrimDot(p);
    ParentOfTrimming(p + "/.", p);
  }

  /** The parent of a plain name joined onto a trimmed directory is that directory: Parent undoes Join. */
  lemma ParentOfJoin(dir: Path, name: string)
    requires name != "" && name != "." && name != ".." && !HasChar(name, '/')
    requires dir == "/" || (dir != "" && Trimmed(dir))
    ensures Parent(Join(dir, name)) == Some(dir)
  {
    var front := if dir == "/" then "" else dir;
    assert Join(dir, name) == front + "/" + name;
    SeparatedTrimmed(front, name);
    TrimmedFixed(front + "/" + name);
    LastSeparator(front, name);
    if dir != "/" {
      assert (front + "/" + name)[..|front|] == front;
      TrimmedFixed(dir);
    }
  }

  /** A plain name after a separator leaves nothing to trim. */
  lemma SeparatedTrimmed(front: Path, name: string)
    requires name != "" && name != "." && !HasChar(name, '/')
    ensures Trimmed(front + "/" + name)
  {
    var r := front + "/" + name;
    assert r[|r| - 1] == name[|name| - 1];
    if |name| >= 2 {
      assert r[|r| - 2] == name[|name| - 2];
    } else {
      assert r[|r| - 2..] == "/" + name;
    }
  }

  /** In `front/name`, with no separator in the name, the last separator is the one before it. */
  lemma LastSeparator(front: Path, name: string)
    requires !HasChar(name, '/')
    ensures LastIndex(front + "/" + name, '/') == Some(|front|)
  {
    var r := front + "/" + name;
    forall j | |front| < j < |r|
      ensures r[j] != '/'
    {
      assert r[j] == name[j - |front| - 1];
    }
    LastIndexIs(r, '/', |front|);
  }

  /** The last `c` is at `k` when `c` is there and nowhere after it. */
  lemma {:induction false} LastIndexIs(s: string, c: char, k: nat)
    requires k < |s| && s[k] == c && forall j :: k < j < |s| ==> s[j] != c
    ensures LastIndex(s, c) == Some(k)
    decreases |s|
  {
    if k < |s| - 1 {
      LastIndexIs(s[..|s| - 1], c, k);
    }
  }

  /** Joining onto an absolute base gives an absolute path, so joining it again changes nothing. */
  lemma JoinTwice(base: Path, p: Path)
    requires IsAbsolute(base)
    ensures IsAbsolute(Join(base, p))
    ensures Join(base, Join(base, p)) == Join(base, p)
  {
  }
}
