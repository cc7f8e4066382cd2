/**
 * Activation lists (`symlist.ron`): which files of an installed package are
 * linked to which places, with `$HOME` and the XDG directory variables
 * expanded in the link paths.
 */
module Symlist {
  import opened Wrappers
  import opened Strings
  import opened Paths
  import opened Fs
  import opened Foreign

  datatype SymlistError = Io(io: IoError) | Ron(ron: RonError)

  /** The `Display` text of a `SymlistError`. */
  function Display(e: SymlistError): string {
    match e
    case Io(io) => "I/O error: " + io.message
    case Ron(ron) => "RON parse error: " + ron.message
  }

  /** One entry of the list: a path inside the package and a link path with variables. */
  datatype SymlinkEntry = SymlinkEntry(source: string, target: string)

  /** The variables `expand_vars` knows. */
  datatype Var = Home | XdgDataHome | XdgConfigHome | XdgBinHome

  function Key(v: Var): string {
    match v
    case Home => "HOME"
    case XdgDataHome => "XDG_DATA_HOME"
    case XdgConfigHome => "XDG_CONFIG_HOME"
    case XdgBinHome => "XDG_BIN_HOME"
  }

  /** Every key is an upper-case name of at least four characters. */
  lemma KeyWithoutDollar(v: Var)
    ensures |Key(v)| >= 4 && !HasChar(Key(v), '$')
  {
    var k := Key(v);
    forall i | 0 <= i < |k|
      ensures k[i] != '$'
    {
      match v
      case Home => assert k == "HOME";
      case XdgDataHome => assert k == "XDG_DATA_HOME";
      case XdgConfigHome => assert k == "XDG_CONFIG_HOME";
      case XdgBinHome => assert k == "XDG_BIN_HOME";
    }
  }

  /** The text `$KEY` that is replaced. */
  function Token(v: Var): (r: string)
    ensures |r| >= 5 && r[0] == '$' && !HasChar(r[1..], '$')
  {
    var r := "$" + Key(v);
    KeyWithoutDollar(v);
    assert r[1..] == Key(v);
    r
  }

  /**
   * What the process sees: `dirs::home_dir()` and the XDG variables
   * (`std::env::var`, none when unset or not Unicode).
   */
  datatype Env = Env(
    home: Option<string>,
    xdgDataHome: Option<string>,
    xdgConfigHome: Option<string>,
    xdgBinHome: Option<string>)

  /** The value `expand_vars` stores for `v` once a home directory is known. */
  function Value(env: Env, v: Var): string
    requires env.home.Some?
  {
    var home := env.home.value;
    match v
    case Home => home
    case XdgDataHome => env.xdgDataHome.GetOr(home + "/.local/share")
    case XdgConfigHome => env.xdgConfigHome.GetOr(home + "/.config")
    case XdgBinHome => env.xdgBinHome.GetOr(home + "/.local/bin")
  }

  /** An order in which a `HashMap` holding all four variables can be iterated. */
  predicate IsEnumeration(order: seq<Var>) {
    |order| == 4 && forall v: Var :: v in order
  }

  /** The replacements of `order`, applied one after another from the left. */
  function ReplaceInOrder(s: string, env: Env, order: seq<Var>): string
    requires env.home.Some?
  {
    if order == [] then s
    else
      var last := order[|order| - 1];
      ReplaceAll(ReplaceInOrder(s, env, order[..|order| - 1]), Token(last), Value(env, last))
  }

  /** The text `expand_vars` returns when its table is iterated in `order`. */
  function Expanded(path: string, env: Env, order: seq<Var>): string {
    if env.home.None? then path else ReplaceInOrder(path, env, order)
  }

  /** `expand_vars`: builds the variable table, then replaces `$KEY` by each value in table order. */
  method ExpandVars(path: string, env: Env, order: seq<Var>) returns (expanded: string)
    requires IsEnumeration(order)
    ensures expanded == Expanded(path, env, order)
  {
    var vars: map<Var, string> := map[];
    if env.home.Some? {
      var home := env.home.value;
      vars := vars[Home := home];
      vars := vars[XdgDataHome := env.xdgDataHome.GetOr(home + "/.local/share")];
      vars := vars[XdgConfigHome := env.xdgConfigHome.GetOr(home + "/.config")];
      vars := vars[XdgBinHome := env.xdgBinHome.GetOr(home + "/.local/bin")];
      forall v: Var
        ensures v in vars && vars[v] == Value(env, v)
      {
        match v
        case Home =>
        case XdgDataHome =>
        case XdgConfigHome =>
        case XdgBinHome =>
      }
    }
    expanded := path;
    for i := 0 to |order|
      invariant expanded == if env.home.None? then path else ReplaceInOrder(path, env, order[..i])
    {
      var v := order[i];
      if v in vars {
        assert order[..i + 1][..i] == order[..i];
        expanded := ReplaceAll(expanded, Token(v), vars[v]);
      }
    }
    assert order[..|order|] == order;
  }

  /** Without a home directory the table is empty and nothing is replaced. */
  lemma ExpandWithoutHome(path: string, env: Env, order: seq<Var>)
    requires env.home.None?
    ensures Expanded(path, env, order) == path
  {
  }

  /** A path in which none of the four tokens occurs comes back unchanged. */
  lemma {:induction false} ExpandWithoutTokens(path: string, env: Env, order: seq<Var>)
    requires forall v: Var :: !Occurs(path, Token(v))
    ensures Expanded(path, env, order) == path
    decreases |order|
  {
    if env.home.Some? && order != [] {
      ExpandWithoutTokens(path, env, order[..|order| - 1]);
      var last := order[|order| - 1];
      ReplaceAllAbsent(path, Token(last), Value(env, last));
    }
  }

  /**
   * A path read as literal characters and variable tokens.  A well-formed
   * path has a `$` only where a token starts.
   */
  datatype Piece = Lit(c: char) | Tok(v: Var)

  function Render(ps: seq<Piece>): string {
    if ps == [] then ""
    else (match ps[0] case Lit(c) => [c] case Tok(v) => Token(v)) + Render(ps[1..])
  }

  predicate WellFormed(ps: seq<Piece>) {
    forall i :: 0 <= i < |ps| ==> ps[i] != Lit('$')
  }

  /** Every token replaced by its value at once: what the expansion means. */
  function Reference(ps: seq<Piece>, env: Env): string
    requires env.home.Some?
  {
    if ps == [] then ""
    else (match ps[0] case Lit(c) => [c] case Tok(v) => Value(env, v)) + Reference(ps[1..], env)
  }

  predicate DollarFree(env: Env)
    requires env.home.Some?
  {
    forall v: Var :: !HasChar(Value(env, v), '$')
  }

  function Lits(s: string): (ps: seq<Piece>)
    ensures |ps| == |s|
    ensures forall i :: 0 <= i < |s| ==> ps[i] == Lit(s[i])
  {
    if s == [] then [] else [Lit(s[0])] + Lits(s[1..])
  }

  /** The pieces after the tokens of `v` have been replaced by the characters of `val`. */
  function ReplacePieces(ps: seq<Piece>, v: Var, val: string): seq<Piece> {
    if ps == [] then []
    else (if ps[0] == Tok(v) then Lits(val) else [ps[0]]) + ReplacePieces(ps[1..], v, val)
  }

  lemma RenderCons(p: Piece, ps: seq<Piece>)
    ensures Render([p] + ps) == (match p case Lit(c) => [c] case Tok(v) => Token(v)) + Render(ps)
  {
    assert ([p] + ps)[1..] == ps;
  }

  lemma {:induction false} RenderAppend(a: seq<Piece>, b: seq<Piece>)
    ensures Render(a + b) == Render(a) + Render(b)
    decreases |a|
  {
    if a != [] {
      assert (a + b)[1..] == a[1..] + b;
      RenderAppend(a[1..], b);
    } else {
      assert a + b == b;
    }
  }

  lemma {:induction false} RenderLits(s: string)
    ensures Render(Lits(s)) == s
    decreases |s|
  {
    if s != [] {
      RenderCons(Lit(s[0]), Lits(s[1..]));
      RenderLits(s[1..]);
    }
  }

  lemma {:induction false} WellFormedLits(s: string)
    requires !HasChar(s, '$')
    ensures WellFormed(Lits(s))
  {
  }

  /** The characters that tell the tokens apart: the first letter, and for the XDG ones the fifth character. */
  lemma TokenMark(v: Var)
    ensures Token(v)[1] == (if v == Home then 'H' else 'X')
    ensures v != Home ==> |Token(v)| > 5 && Token(v)[5] == match v case XdgDataHome => 'D' case XdgConfigHome => 'C' case _ => 'B'
  {
    var k := Key(v);
    assert Token(v) == "$" + k;
    assert Token(v)[1] == k[0];
    if v != Home {
      assert Token(v)[5] == k[4];
    }
  }

  /** A token never starts where a different token stands. */
  lemma TokensDiffer(v: Var, w: Var, rest: string)
    requires v != w
    ensures !StartsWith(Token(w) + rest, Token(v))
  {
    var s := Token(w) + rest;
    var d := if v == Home || w == Home then 1 else 5;
    TokenMark(v);
    TokenMark(w);
    assert Token(v)[d] != Token(w)[d];
    if |Token(v)| <= |s| {
      assert s[..|Token(v)|][d] == Token(w)[d];
    }
  }

  /** The step of ReplaceRendered for a literal first piece. */
  lemma ReplaceRenderedLit(c: char, rest: seq<Piece>, v: Var, val: string)
    requires c != '$'
    requires ReplaceAll(Render(rest), Token(v), val) == Render(ReplacePieces(rest, v, val))
    ensures ReplaceAll(Render([Lit(c)] + rest), Token(v), val) == Render(ReplacePieces([Lit(c)] + rest, v, val))
  {
    var ps := [Lit(c)] + rest;
    var s := Render(ps);
    RenderCons(Lit(c), rest);
    assert s == [c] + Render(rest);
    if |Token(v)| <= |s| {
      assert s[..|Token(v)|][0] == c;
    }
    ReplaceAllMiss(s, Token(v), val);
    assert s[1..] == Render(rest);
    assert ps[1..] == rest;
    RenderCons(Lit(c), ReplacePieces(rest, v, val));
  }

  /** The step of ReplaceRendered for a first piece that is the replaced token. */
  lemma ReplaceRenderedHit(rest: seq<Piece>, v: Var, val: string)
    requires ReplaceAll(Render(rest), Token(v), val) == Render(ReplacePieces(rest, v, val))
    ensures ReplaceAll(Render([Tok(v)] + rest), Token(v), val) == Render(ReplacePieces([Tok(v)] + rest, v, val))
  {
    var ps := [Tok(v)] + rest;
    var s := Render(ps);
    RenderCons(Tok(v), rest);
    assert s[|Token(v)|..] == Render(rest);
    ReplaceAllHit(s, Token(v), val);
    assert ps[1..] == rest;
    RenderAppend(Lits(val), ReplacePieces(rest, v, val));
    RenderLits(val);
  }

  /** The step of ReplaceRendered for a first piece that is another token. */
  lemma ReplaceRenderedOther(w: Var, rest: seq<Piece>, v: Var, val: string)
    requires w != v
    requires ReplaceAll(Render(rest), Token(v), val) == Render(ReplacePieces(rest, v, val))
    ensures ReplaceAll(Render([Tok(w)] + rest), Token(v), val) == Render(ReplacePieces([Tok(w)] + rest, v, val))
  {
    var ps := [Tok(w)] + rest;
    var tail := Render(rest);
    var tw := Token(w);
    var s := tw + tail;
    RenderCons(Tok(w), rest);
    assert Render(ps) == s;
    TokensDiffer(v, w, tail);
    ReplaceAllPassText(tw, tail, Token(v), val);
    assert ps[1..] == rest;
    assert ReplacePieces(ps, v, val) == [Tok(w)] + ReplacePieces(rest, v, val);
    RenderCons(Tok(w), ReplacePieces(rest, v, val));
  }

  /** Replacing one token in the text is replacing it among the pieces. */
  lemma {:induction false} ReplaceRendered(ps: seq<Piece>, v: Var, val: string)
    requires WellFormed(ps) && !HasChar(val, '$')
    ensures ReplaceAll(Render(ps), Token(v), val) == Render(ReplacePieces(ps, v, val))
    decreases |ps|
  {
    if ps != [] {
      var rest := ps[1..];
      assert WellFormed(rest) by {
        forall i | 0 <= i < |rest|
          ensures rest[i] != Lit('$')
        {
          assert rest[i] == ps[i + 1];
        }
      }
      ReplaceRendered(rest, v, val);
      assert ps == [ps[0]] + rest;
      match ps[0]
      case Lit(c) =>
        ReplaceRenderedLit(c, rest, v, val);
      case Tok(w) =>
        if w == v {
          ReplaceRenderedHit(rest, v, val);
        } else {
          ReplaceRenderedOther(w, rest, v, val);
        }
    }
  }

  /** The replacements of `order` applied to the pieces, in the order ReplaceInOrder applies them. */
  function ReplacePiecesInOrder(ps: seq<Piece>, env: Env, order: seq<Var>): seq<Piece>
    requires env.home.Some?
  {
    if order == [] then ps
    else
      var last := order[|order| - 1];
      ReplacePieces(ReplacePiecesInOrder(ps, env, order[..|order| - 1]), last, Value(env, last))
  }

  /** Every token replaced by the characters of its value. */
  function Substituted(ps: seq<Piece>, env: Env): seq<Piece>
    requires env.home.Some?
  {
    if ps == [] then []
    else (match ps[0] case Lit(c) => [Lit(c)] case Tok(v) => Lits(Value(env, v))) + Substituted(ps[1..], env)
  }

  lemma {:induction false} WellFormedAppend(a: seq<Piece>, b: seq<Piece>)
    requires WellFormed(a) && WellFormed(b)
    ensures WellFormed(a + b)
  {
  }

  lemma {:induction false} WellFormedReplace(ps: seq<Piece>, v: Var, val: string)
    requires WellFormed(ps) && !HasChar(val, '$')
    ensures WellFormed(ReplacePieces(ps, v, val))
    decreases |ps|
  {
    if ps != [] {
      var rest := ps[1..];
      assert WellFormed(rest) by {
        forall i | 0 <= i < |rest|
          ensures rest[i] != Lit('$')
        {
          assert rest[i] == ps[i + 1];
        }
      }
      WellFormedReplace(rest, v, val);
      WellFormedLits(val);
      var head := if ps[0] == Tok(v) then Lits(val) else [ps[0]];
      WellFormedAppend(head, ReplacePieces(rest, v, val));
    }
  }

  /** Replacing each variable of `order` in the text is replacing it among the pieces. */
  lemma {:induction false} ReplaceInOrderRendered(ps: seq<Piece>, env: Env, order: seq<Var>)
    requires env.home.Some? && WellFormed(ps) && DollarFree(env)
    ensures WellFormed(ReplacePiecesInOrder(ps, env, order))
    ensures ReplaceInOrder(Render(ps), env, order) == Render(ReplacePiecesInOrder(ps, env, order))
    decreases |order|
  {
    if order != [] {
      var init := order[..|order| - 1];
      var last := order[|order| - 1];
      ReplaceInOrderRendered(ps, env, init);
      var qs := ReplacePiecesInOrder(ps, env, init);
      ReplaceRendered(qs, last, Value(env, last));
      WellFormedReplace(qs, last, Value(env, last));
    }
  }

  lemma {:induction false} ReplacePiecesAppend(a: seq<Piece>, b: seq<Piece>, v: Var, val: string)
    ensures ReplacePieces(a + b, v, val) == ReplacePieces(a, v, val) + ReplacePieces(b, v, val)
    decreases |a|
  {
    if a == [] {
      assert a + b == b;
    } else {
      assert (a + b)[0] == a[0];
      assert (a + b)[1..] == a[1..] + b;
      ReplacePiecesAppend(a[1..], b, v, val);
    }
  }

  lemma {:induction false} ReplacePiecesInOrderAppend(a: seq<Piece>, b: seq<Piece>, env: Env, order: seq<Var>)
    requires env.home.Some?
    ensures ReplacePiecesInOrder(a + b, env, order)
         == ReplacePiecesInOrder(a, env, order) + ReplacePiecesInOrder(b, env, order)
    decreases |order|
  {
    if order != [] {
      var init := order[..|order| - 1];
      var last := order[|order| - 1];
      ReplacePiecesInOrderAppend(a, b, env, init);
      ReplacePiecesAppend(ReplacePiecesInOrder(a, env, init), ReplacePiecesInOrder(b, env, init), last, Value(env, last));
    }
  }

  /** Pieces without tokens are left alone by every replacement. */
  lemma {:induction false} ReplacePiecesLits(s: string, v: Var, val: string)
    ensures ReplacePieces(Lits(s), v, val) == Lits(s)
    decreases |s|
  {
    if s != [] {
      assert Lits(s)[1..] == Lits(s[1..]);
      ReplacePiecesLits(s[1..], v, val);
    }
  }

  lemma {:induction false} ReplacePiecesInOrderLit(c: char, env: Env, order: seq<Var>)
    requires env.home.Some?
    ensures ReplacePiecesInOrder([Lit(c)], env, order) == [Lit(c)]
    decreases |order|
  {
    if order != [] {
      ReplacePiecesInOrderLit(c, env, order[..|order| - 1]);
      assert ReplacePieces([Lit(c)], order[|order| - 1], Value(env, order[|order| - 1])) == [Lit(c)];
    }
  }

  /** A token becomes its value once its variable has come up in the order, and stays so. */
  lemma {:induction false} ReplacePiecesInOrderTok(w: Var, env: Env, order: seq<Var>)
    requires env.home.Some?
    ensures w in order ==> ReplacePiecesInOrder([Tok(w)], env, order) == Lits(Value(env, w))
    ensures w !in order ==> ReplacePiecesInOrder([Tok(w)], env, order) == [Tok(w)]
    decreases |order|
  {
    if order != [] {
      var init := order[..|order| - 1];
      var last := order[|order| - 1];
      assert order == init + [last];
      ReplacePiecesInOrderTok(w, env, init);
      if w in init {
        ReplacePiecesLits(Value(env, w), last, Value(env, last));
      } else {
        assert ReplacePieces([Tok(w)], last, Value(env, last))
            == (if w == last then Lits(Value(env, last)) else [Tok(w)]) + ReplacePieces([], last, Value(env, last));
      }
    }
  }

  /** After all four replacements every token has been substituted. */
  lemma {:induction false} ReplacePiecesInOrderComplete(ps: seq<Piece>, env: Env, order: seq<Var>)
    requires env.home.Some? && IsEnumeration(order)
    ensures ReplacePiecesInOrder(ps, env, order) == Substituted(ps, env)
    decreases |ps|
  {
    if ps == [] {
      ReplacePiecesInOrderEmpty(env, order);
    } else {
      assert ps == [ps[0]] + ps[1..];
      ReplacePiecesInOrderAppend([ps[0]], ps[1..], env, order);
      ReplacePiecesInOrderComplete(ps[1..], env, order);
      match ps[0]
      case Lit(c) => ReplacePiecesInOrderLit(c, env, order);
      case Tok(w) => ReplacePiecesInOrderTok(w, env, order);
    }
  }

  lemma {:induction false} ReplacePiecesInOrderEmpty(env: Env, order: seq<Var>)
    requires env.home.Some?
    ensures ReplacePiecesInOrder([], env, order) == []
    decreases |order|
  {
    if order != [] {
      ReplacePiecesInOrderEmpty(env, order[..|order| - 1]);
    }
  }

  lemma {:induction false} ReferenceLits(s: string, env: Env)
    requires env.home.Some?
    ensures Reference(Lits(s), env) == s
    decreases |s|
  {
    if s != [] {
      assert Lits(s)[1..] == Lits(s[1..]);
      ReferenceLits(s[1..], env);
    }
  }

  lemma {:induction false} RenderSubstituted(ps: seq<Piece>, env: Env)
    requires env.home.Some?
    ensures Render(Substituted(ps, env)) == Reference(ps, env)
    decreases |ps|
  {
    if ps != [] {
      RenderSubstituted(ps[1..], env);
      match ps[0]
      case Lit(c) =>
        RenderCons(Lit(c), Substituted(ps[1..], env));
      case Tok(v) =>
        RenderAppend(Lits(Value(env, v)), Substituted(ps[1..], env));
        RenderLits(Value(env, v));
    }
  }

  /**
   * On a well-formed path, and with values that hold no `$`, expansion
   * replaces every token by its value, whatever order the table is
   * iterated in.
   */
  lemma ExpandMatchesReference(ps: seq<Piece>, env: Env, order: seq<Var>)
    requires env.home.Some? && IsEnumeration(order)
    requires WellFormed(ps) && DollarFree(env)
    ensures Expanded(Render(ps), env, order) == Reference(ps, env)
  {
    ReplaceInOrderRendered(ps, env, order);
    ReplacePiecesInOrderComplete(ps, env, order);
    RenderSubstituted(ps, env);
  }

  /** The nondeterministic iteration order of the table does not show in the result. */
  lemma ExpandOrderIrrelevant(ps: seq<Piece>, env: Env, order1: seq<Var>, order2: seq<Var>)
    requires IsEnumeration(order1) && IsEnumeration(order2)
    requires WellFormed(ps) && (env.home.Some? ==> DollarFree(env))
    ensures Expanded(Render(ps), env, order1) == Expanded(Render(ps), env, order2)
  {
    if env.home.Some? {
      ExpandMatchesReference(ps, env, order1);
      ExpandMatchesReference(ps, env, order2);
    }
  }

  /** A token followed by plain text becomes the token's value followed by that text. */
  lemma ExpandTokenThenText(v: Var, text: string, env: Env, order: seq<Var>)
    requires env.home.Some? && IsEnumeration(order) && DollarFree(env)
    requires !HasChar(text, '$')
    ensures Expanded(Token(v) + text, env, order) == Value(env, v) + text
  {
    var ps := [Tok(v)] + Lits(text);
    RenderCons(Tok(v), Lits(text));
    RenderLits(text);
    WellFormedLits(text);
    ExpandMatchesReference(ps, env, order);
    assert ps[1..] == Lits(text);
    ReferenceLits(text, env);
  }

  /** `$HOME/test_folder` becomes the home directory followed by `/test_folder`. */
  lemma ExpandHomeExample(env: Env, order: seq<Var>)
    requires env.home.Some? && IsEnumeration(order) && DollarFree(env)
    ensures Expanded("$HOME/test_folder", env, order) == env.home.value + "/test_folder"
  {
    assert Token(Home) == "$HOME";
    assert "$HOME/test_folder" == Token(Home) + "/test_folder";
    ExpandTokenThenText(Home, "/test_folder", env, order);
  }

  /** An unset `XDG_DATA_HOME` falls back to `<home>/.local/share`. */
  lemma ExpandDataHomeDefault(env: Env, order: seq<Var>)
    requires env.home.Some? && env.xdgDataHome.None? && IsEnumeration(order) && DollarFree(env)
    ensures Expanded("$XDG_DATA_HOME/some_dir", env, order) == env.home.value + "/.local/share/some_dir"
  {
    var text := "/some_dir";
    assert Token(XdgDataHome) == "$XDG_DATA_HOME";
    assert "$XDG_DATA_HOME/some_dir" == Token(XdgDataHome) + text;
    assert !HasChar(text, '$') by {
      forall i | 0 <= i < |text|
        ensures text[i] != '$'
      {
      }
    }
    ExpandTokenThenText(XdgDataHome, text, env, order);
    assert Value(env, XdgDataHome) == env.home.value + "/.local/share";
    assert (env.home.value + "/.local/share") + text == env.home.value + "/.local/share/some_dir";
  }

  /** The pairs `(package_root.join(source), expand_vars(target))`, one per entry, in file order. */
  function LinkPairs(entries: seq<SymlinkEntry>, packageRoot: Path, env: Env, order: nat -> seq<Var>): (r: seq<(Path, Path)>)
    ensures |r| == |entries|
    ensures forall i :: 0 <= i < |entries| ==>
      r[i] == (Join(packageRoot, entries[i].source), Expanded(entries[i].target, env, order(i)))
  {
    seq(|entries|, i requires 0 <= i < |entries| =>
      (Join(packageRoot, entries[i].source), Expanded(entries[i].target, env, order(i))))
  }

  /** Every table built while expanding entries is iterated over its four variables. */
  ghost predicate Enumerations(order: nat -> seq<Var>) {
    forall i: nat :: IsEnumeration(order(i))
  }

  /**
   * For targets made of text and tokens, the pairs do not depend on the
   * iteration orders of the tables.
   */
  lemma LinkPairsOrderFree(entries: seq<SymlinkEntry>, packageRoot: Path, env: Env, order1: nat -> seq<Var>,
                           order2: nat -> seq<Var>, pieces: seq<seq<Piece>>)
    requires Enumerations(order1) && Enumerations(order2)
    requires |pieces| == |entries| && (env.home.Some? ==> DollarFree(env))
    requires forall i :: 0 <= i < |entries| ==> WellFormed(pieces[i]) && entries[i].target == Render(pieces[i])
    ensures LinkPairs(entries, packageRoot, env, order1) == LinkPairs(entries, packageRoot, env, order2)
  {
    forall i | 0 <= i < |entries|
      ensures LinkPairs(entries, packageRoot, env, order1)[i] == LinkPairs(entries, packageRoot, env, order2)[i]
    {
      ExpandOrderIrrelevant(pieces[i], env, order1(i), order2(i));
    }
  }

  /**
   * `load_symlist`: an unreadable file is an `Io` error, content the RON
   * decoder rejects is a `Ron` error, and otherwise every entry gives one
   * pair.  `order(i)` is the iteration order of the table built while
   * expanding the i-th entry.
   */
  function LoadSymlist(
    t: Tree, path: Path, packageRoot: Path, env: Env, order: nat -> seq<Var>,
    decode: string -> Result<seq<SymlinkEntry>, RonError>): (r: Result<seq<(Path, Path)>, SymlistError>)
    ensures ReadToString(t, path).Failure? ==> r == Failure(Io(ReadToString(t, path).error))
    ensures ReadToString(t, path).Success? && decode(ReadToString(t, path).value).Failure? ==>
      r == Failure(Ron(decode(ReadToString(t, path).value).error))
    ensures ReadToString(t, path).Success? && decode(ReadToString(t, path).value).Success? ==>
      r == Success(LinkPairs(decode(ReadToString(t, path).value).value, packageRoot, env, order))
  {
    match ReadToString(t, path)
    case Failure(e) => Failure(Io(e))
    case Success(content) =>
      match decode(content)
      case Failure(e) => Failure(Ron(e))
      case Success(entries) => Success(LinkPairs(entries, packageRoot, env, order))
  }

  /** Only a missing or unreadable file gives an `Io` error. */
  lemma LoadSymlistErrors(
    t: Tree, path: Path, packageRoot: Path, env: Env, order: nat -> seq<Var>,
    decode: string -> Result<seq<SymlinkEntry>, RonError>)
    ensures LoadSymlist(t, path, packageRoot, env, order, decode).Failure? <==>
      ReadToString(t, path).Failure? || decode(ReadToString(t, path).value).Failure?
    ensures !Exists(t, path) ==>
      LoadSymlist(t, path, packageRoot, env, order, decode) == Failure(Io(OsError(NotFound)))
  {
  }
}
