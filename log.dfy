/**
 * `format_ordered`, the formatter behind the localized log macros: the
 * template is split at every `{}`, and each cut is filled with the next
 * argument, or with nothing once the arguments run out.
 */
module Log {
  import opened Strings

  const Placeholder := "{}"

  /** The pieces after the first, each after the next unused argument, if any. */
  function Fill(pieces: seq<string>, args: seq<string>): string
    decreases |pieces|
  {
    if pieces == [] then ""
    else
      (if args == [] then "" else args[0]) + pieces[0] +
      Fill(pieces[1..], if args == [] then [] else args[1..])
  }

  /** What `format_ordered(template, args)` returns. */
  function Formatted(template: string, args: seq<string>): string {
    var parts := Split(template, Placeholder);
    parts[0] + Fill(parts[1..], args)
  }

  /** `format_ordered`, pushing onto the result while advancing through the arguments. */
  method FormatOrdered(template: string, args: seq<string>) returns (result: string)
    ensures result == Formatted(template, args)
  {
    var parts := Split(template, Placeholder);
    result := "";
    result := result + parts[0];
    var i := 1;
    var next := 0;
    while i < |parts|
      invariant 1 <= i <= |parts| && 0 <= next <= |args|
      invariant result + Fill(parts[i..], args[next..]) == Formatted(template, args)
    {
      var piece := parts[i];
      assert parts[i..][1..] == parts[i + 1..];
      if next < |args| {
        result := result + args[next];
        assert args[next..][1..] == args[next + 1..];
        next := next + 1;
      }
      result := result + piece;
      i := i + 1;
    }
  }

  /** A text free of the pattern is a single piece. */
  lemma {:induction false} SplitAbsent(s: string, pat: string)
    requires pat != [] && !Occurs(s, pat)
    ensures Split(s, pat) == [s]
    decreases |s|
  {
    OccursAtZero(s, pat);
    assert OccursAt(s, pat, 0) ==> Occurs(s, pat);
    if s != [] {
      AbsentInTail(s, pat);
      SplitAbsent(s[1..], pat);
      SplitMiss(s, pat);
      assert s == [s[0]] + s[1..];
    }
  }

  /** A template without `{}` comes back unchanged, whatever the arguments. */
  lemma FormatWithoutPlaceholder(template: string, args: seq<string>)
    requires !Occurs(template, Placeholder)
    ensures Formatted(template, args) == template
  {
    SplitAbsent(template, Placeholder);
  }

  lemma {:induction false} FillIgnoresExtra(pieces: seq<string>, args: seq<string>, extra: seq<string>)
    requires |args| >= |pieces|
    ensures Fill(pieces, args + extra) == Fill(pieces, args)
    decreases |pieces|
  {
    if pieces != [] {
      assert (args + extra)[1..] == args[1..] + extra;
      FillIgnoresExtra(pieces[1..], args[1..], extra);
    }
  }

  /** Arguments beyond the number of placeholders are ignored. */
  lemma FormatIgnoresExtra(template: string, args: seq<string>, extra: seq<string>)
    requires |args| >= |Split(template, Placeholder)| - 1
    ensures Formatted(template, args + extra) == Formatted(template, args)
  {
    FillIgnoresExtra(Split(template, Placeholder)[1..], args, extra);
  }

  lemma {:induction false} FillNothing(parts: seq<string>)
    requires parts != []
    ensures parts[0] + Fill(parts[1..], []) == JoinParts(parts, "")
    decreases |parts|
  {
    if |parts| > 1 {
      FillNothing(parts[1..]);
      assert parts[1..][1..] == parts[2..];
    }
  }

  /** With no arguments every placeholder becomes empty: the template with each `{}` deleted. */
  lemma FormatMissingEmpty(template: string)
    ensures Formatted(template, []) == ReplaceAll(template, Placeholder, "")
  {
    FillNothing(Split(template, Placeholder));
    ReplaceAllIsJoinSplit(template, Placeholder, "");
  }

  /**
   * A first piece in which `{}` does not occur is cut off whole: no
   * occurrence can straddle its end, since `{}` starts with a character
   * that does not end it.
   */
  lemma {:induction false} SplitAtFirstCut(x: string, rest: string)
    requires !Occurs(x, Placeholder)
    ensures Split(x + Placeholder + rest, Placeholder) == [x] + Split(rest, Placeholder)
    decreases |x|
  {
    var s := x + Placeholder + rest;
    if x == [] {
      assert s == Placeholder + rest;
      assert s[2..] == rest;
      SplitHit(s, Placeholder);
    } else {
      if |x| >= 2 {
        assert s[..2] == x[..2];
        OccursAtZero(x, Placeholder);
        assert !OccursAt(x, Placeholder, 0);
      } else {
        assert s[1] == '{';
      }
      assert !StartsWith(s, Placeholder);
      SplitMiss(s, Placeholder);
      assert s[1..] == x[1..] + Placeholder + rest;
      AbsentInTail(x, Placeholder);
      SplitAtFirstCut(x[1..], rest);
      assert x == [x[0]] + x[1..];
    }
  }

  lemma {:induction false} SplitJoined(pieces: seq<string>)
    requires pieces != [] && forall i :: 0 <= i < |pieces| ==> !Occurs(pieces[i], Placeholder)
    ensures Split(JoinParts(pieces, Placeholder), Placeholder) == pieces
    decreases |pieces|
  {
    if |pieces| == 1 {
      SplitAbsent(pieces[0], Placeholder);
    } else {
      JoinPartsCons(pieces[0], pieces[1..], Placeholder);
      assert pieces == [pieces[0]] + pieces[1..];
      SplitAtFirstCut(pieces[0], JoinParts(pieces[1..], Placeholder));
      SplitJoined(pieces[1..]);
    }
  }

  /**
   * For a template made of pieces in which `{}` does not occur, the i-th
   * `{}` is replaced by the i-th argument: the output is the pieces
   * interleaved with the arguments, and nothing else.
   */
  lemma FormatFillsInOrder(pieces: seq<string>, args: seq<string>)
    requires pieces != [] && forall i :: 0 <= i < |pieces| ==> !Occurs(pieces[i], Placeholder)
    ensures Formatted(JoinParts(pieces, Placeholder), args) == pieces[0] + Fill(pieces[1..], args)
  {
    SplitJoined(pieces);
  }

  /** Once the arguments run out, the remaining pieces follow each other with nothing between them. */
  lemma {:induction false} FillRunsOut(pieces: seq<string>, args: seq<string>)
    requires |args| <= |pieces|
    ensures Fill(pieces, args) == Fill(pieces[..|args|], args) + JoinParts(pieces[|args|..], "")
    decreases |args|
  {
    if args == [] {
      if pieces != [] {
        FillNothing(pieces);
      }
      assert pieces[|args|..] == pieces;
    } else {
      FillRunsOut(pieces[1..], args[1..]);
      assert pieces[..|args|][1..] == pieces[1..][..|args| - 1];
      assert pieces[1..][|args| - 1..] == pieces[|args|..];
    }
  }

  /** FillRunsOut, for the pieces after the first. */
  lemma FillRunsOutAfterFirst(pieces: seq<string>, args: seq<string>)
    requires |args| < |pieces|
    ensures Fill(pieces[1..], args) == Fill(pieces[1..|args| + 1], args) + JoinParts(pieces[|args| + 1..], "")
  {
    TailSlices(pieces, |args|);
    FillRunsOut(pieces[1..], args);
  }

  /** The slices of a tail, as slices of the whole. */
  lemma TailSlices<T>(s: seq<T>, n: nat)
    requires n < |s|
    ensures s[1..][..n] == s[1..n + 1] && s[1..][n..] == s[n + 1..]
  {
  }

  /**
   * With fewer arguments than placeholders, the first placeholders take
   * the arguments in order and every later one becomes empty.
   */
  lemma FormatRunsOut(pieces: seq<string>, args: seq<string>)
    requires forall i :: 0 <= i < |pieces| ==> !Occurs(pieces[i], Placeholder)
    requires |args| < |pieces| - 1
    ensures Formatted(JoinParts(pieces, Placeholder), args)
         == pieces[0] + Fill(pieces[1..|args| + 1], args) + JoinParts(pieces[|args| + 1..], "")
  {
    FormatFillsInOrder(pieces, args);
    FillRunsOutAfterFirst(pieces, args);
    ConcatAssoc(pieces[0], Fill(pieces[1..|args| + 1], args), JoinParts(pieces[|args| + 1..], ""));
  }

  /** Concatenation is associative. */
  lemma ConcatAssoc<T>(a: seq<T>, b: seq<T>, c: seq<T>)
    ensures a + (b + c) == a + b + c
  {
  }


}
