/**
 * Text helpers with the semantics of the Rust standard library calls the
 * program relies on: `str::strip_prefix`, `str::replace` (leftmost,
 * non-overlapping), `str::split` with a string pattern, and the byte-wise
 * ordering SQLite uses for TEXT columns.  Decimal rendering and parsing of
 * natural numbers is shared by the version parser.
 */
module Strings {
  import opened Wrappers

  predicate StartsWith(s: string, p: string) {
    |p| <= |s| && s[..|p|] == p
  }

  /** A prefix of a prefix is a prefix. */
  lemma StartsWithTransitive(s: string, p: string, q: string)
    requires StartsWith(s, p) && StartsWith(p, q)
    ensures StartsWith(s, q)
  {
    assert s[..|p|][..|q|] == s[..|q|];
  }

  /** Two prefixes of one string are prefixes of each other, the shorter of the longer. */
  lemma StartsWithComparable(s: string, p: string, q: string)
    requires StartsWith(s, p) && StartsWith(s, q)
    ensures StartsWith(p, q) || StartsWith(q, p)
  {
    if |q| <= |p| {
      assert s[..|p|][..|q|] == s[..|q|];
    } else {
      assert s[..|q|][..|p|] == s[..|p|];
    }
  }

  /** `str::strip_prefix`. */
  function StripPrefix(s: string, p: string): (r: Option<string>)
    ensures r.Some? <==> StartsWith(s, p)
    ensures r.Some? ==> p + r.value == s
  {
    if StartsWith(s, p) then Some(s[|p|..]) else None
  }

  /** `s.strip_prefix(p).unwrap_or(s)`, the idiom used for `file://` URLs. */
  function StripPrefixOrSelf(s: string, p: string): (r: string)
    ensures StartsWith(s, p) ==> p + r == s
    ensures !StartsWith(s, p) ==> r == s
  {
    StripPrefix(s, p).GetOr(s)
  }

  /** `pat` occurs in `s` starting at index `i`. */
  predicate OccursAt(s: string, pat: string, i: nat) {
    i + |pat| <= |s| && s[i..i + |pat|] == pat
  }

  predicate Occurs(s: string, pat: string) {
    exists i: nat :: i <= |s| && OccursAt(s, pat, i)
  }

  predicate HasChar(s: string, c: char) {
    exists i :: 0 <= i < |s| && s[i] == c
  }

  lemma OccursAtZero(s: string, pat: string)
    ensures OccursAt(s, pat, 0) <==> StartsWith(s, pat)
  {
  }

  lemma OccursInTail(s: string, pat: string, i: nat)
    requires s != [] && OccursAt(s[1..], pat, i)
    ensures OccursAt(s, pat, i + 1)
  {
    assert s[i + 1..i + 1 + |pat|] == s[1..][i..i + |pat|];
  }

  lemma AbsentInTail(s: string, pat: string)
    requires s != [] && !Occurs(s, pat)
    ensures !Occurs(s[1..], pat)
  {
    if Occurs(s[1..], pat) {
      var i: nat :| i <= |s[1..]| && OccursAt(s[1..], pat, i);
      OccursInTail(s, pat, i);
    }
  }

  /**
   * `str::replace`: every leftmost, non-overlapping occurrence of `pat` is
   * replaced by `rep`, scanning from the left.
   */
  function ReplaceAll(s: string, pat: string, rep: string): string
    requires pat != []
    decreases |s|
  {
    if StartsWith(s, pat) then rep + ReplaceAll(s[|pat|..], pat, rep)
    else if s == [] then []
    else [s[0]] + ReplaceAll(s[1..], pat, rep)
  }

  /** A text in which the pattern does not occur is returned unchanged. */
  lemma {:induction false} ReplaceAllAbsent(s: string, pat: string, rep: string)
    requires pat != [] && !Occurs(s, pat)
    ensures ReplaceAll(s, pat, rep) == s
    decreases |s|
  {
    if s != [] {
      OccursAtZero(s, pat);
      AbsentInTail(s, pat);
      ReplaceAllAbsent(s[1..], pat, rep);
    }
  }

  lemma ReplaceAllHit(s: string, pat: string, rep: string)
    requires pat != [] && StartsWith(s, pat)
    ensures ReplaceAll(s, pat, rep) == rep + ReplaceAll(s[|pat|..], pat, rep)
  {
  }

  lemma ReplaceAllMiss(s: string, pat: string, rep: string)
    requires pat != [] && s != [] && !StartsWith(s, pat)
    ensures ReplaceAll(s, pat, rep) == [s[0]] + ReplaceAll(s[1..], pat, rep)
  {
  }

  /**
   * The first occurrence is replaced and scanning resumes after it: together
   * with ReplaceAllAbsent this characterises ReplaceAll completely.
   */
  lemma {:induction false} ReplaceAllFirst(a: string, pat: string, b: string, rep: string)
    requires pat != []
    requires forall i: nat :: i < |a| ==> !OccursAt(a + pat + b, pat, i)
    ensures ReplaceAll(a + pat + b, pat, rep) == a + rep + ReplaceAll(b, pat, rep)
    decreases |a|
  {
    var s := a + pat + b;
    if a == [] {
      assert s == pat + b;
      assert s[|pat|..] == b;
      ReplaceAllHit(s, pat, rep);
    } else {
      assert !OccursAt(s, pat, 0);
      OccursAtZero(s, pat);
      ReplaceAllMiss(s, pat, rep);
      var t := a[1..] + pat + b;
      assert s[1..] == t;
      NoEarlierInTail(s, pat, |a|);
      ReplaceAllFirst(a[1..], pat, b, rep);
      assert a == [a[0]] + a[1..];
      assert s[0] == a[0];
    }
  }

  /** No occurrence before position `n` of `s` means none before `n - 1` of its tail. */
  lemma NoEarlierInTail(s: string, pat: string, n: nat)
    requires s != [] && 0 < n
    requires forall i: nat :: i < n ==> !OccursAt(s, pat, i)
    ensures forall i: nat :: i < n - 1 ==> !OccursAt(s[1..], pat, i)
  {
    forall i: nat | i < n - 1
      ensures !OccursAt(s[1..], pat, i)
    {
      if OccursAt(s[1..], pat, i) {
        OccursInTail(s, pat, i);
      }
    }
  }

  /** Replacing a pattern by itself changes nothing. */
  lemma {:induction false} ReplaceAllSelf(s: string, pat: string)
    requires pat != []
    ensures ReplaceAll(s, pat, pat) == s
    decreases |s|
  {
    if StartsWith(s, pat) {
      ReplaceAllSelf(s[|pat|..], pat);
      assert s == pat + s[|pat|..];
    } else if s != [] {
      ReplaceAllSelf(s[1..], pat);
      assert s == [s[0]] + s[1..];
    }
  }

  /** A prefix without the pattern's first character passes through unchanged. */
  lemma {:induction false} ReplaceAllPassPrefix(a: string, b: string, pat: string, rep: string)
    requires pat != [] && !HasChar(a, pat[0])
    ensures ReplaceAll(a + b, pat, rep) == a + ReplaceAll(b, pat, rep)
    decreases |a|
  {
    if a != [] {
      var s := a + b;
      assert s[0] == a[0] && a[0] != pat[0];
      if |pat| <= |s| {
        assert s[..|pat|][0] != pat[0];
      }
      ReplaceAllMiss(s, pat, rep);
      assert s[1..] == a[1..] + b;
      forall i | 0 <= i < |a[1..]|
        ensures a[1..][i] != pat[0]
      {
        assert a[1..][i] == a[i + 1];
      }
      ReplaceAllPassPrefix(a[1..], b, pat, rep);
      calc {
        ReplaceAll(s, pat, rep);
        [a[0]] + ReplaceAll(a[1..] + b, pat, rep);
        [a[0]] + (a[1..] + ReplaceAll(b, pat, rep));
        { assert a == [a[0]] + a[1..]; }
        a + ReplaceAll(b, pat, rep);
      }
    } else {
      assert a + b == b;
    }
  }

  /** A first character that does not start the pattern, then a prefix without its first character, pass through. */
  lemma ReplaceAllPassSplit(c: char, mid: string, rest: string, pat: string, rep: string)
    requires pat != [] && !StartsWith([c] + (mid + rest), pat) && !HasChar(mid, pat[0])
    ensures ReplaceAll([c] + (mid + rest), pat, rep) == [c] + (mid + ReplaceAll(rest, pat, rep))
  {
    ReplaceAllMiss([c] + (mid + rest), pat, rep);
    assert ([c] + (mid + rest))[1..] == mid + rest;
    ReplaceAllPassPrefix(mid, rest, pat, rep);
  }

  /** A text that does not start with the pattern, and whose rest lacks its first character, passes through. */
  lemma ReplaceAllPassText(x: string, rest: string, pat: string, rep: string)
    requires pat != [] && x != [] && !StartsWith(x + rest, pat) && !HasChar(x[1..], pat[0])
    ensures ReplaceAll(x + rest, pat, rep) == x + ReplaceAll(rest, pat, rep)
  {
    var c, mid := x[0], x[1..];
    assert x == [c] + mid;
    assert x + rest == [c] + (mid + rest);
    ReplaceAllPassSplit(c, mid, rest, pat, rep);
  }

  /** `str::split` with a string pattern: always at least one piece. */
  function Split(s: string, pat: string): (r: seq<string>)
    requires pat != []
    ensures |r| >= 1
    decreases |s|
  {
    if StartsWith(s, pat) then [""] + Split(s[|pat|..], pat)
    else if s == [] then [""]
    else
      var t := Split(s[1..], pat);
      [[s[0]] + t[0]] + t[1..]
  }

  /** The pieces separated by `sep`; the inverse of Split. */
  function JoinParts(parts: seq<string>, sep: string): string {
    if parts == [] then ""
    else if |parts| == 1 then parts[0]
    else parts[0] + sep + JoinParts(parts[1..], sep)
  }

  lemma JoinPartsCons(x: string, rest: seq<string>, sep: string)
    ensures JoinParts([x] + rest, sep) == if rest == [] then x else x + sep + JoinParts(rest, sep)
  {
    assert ([x] + rest)[1..] == rest;
  }

  lemma SplitHit(s: string, pat: string)
    requires pat != [] && StartsWith(s, pat)
    ensures Split(s, pat) == [""] + Split(s[|pat|..], pat)
  {
  }

  lemma SplitMiss(s: string, pat: string)
    requires pat != [] && s != [] && !StartsWith(s, pat)
    ensures Split(s, pat) == [[s[0]] + Split(s[1..], pat)[0]] + Split(s[1..], pat)[1..]
  {
  }

  /** Gluing the pieces of a split back together at each cut gives `s` back. */
  lemma {:induction false} JoinSplit(s: string, pat: string)
    requires pat != []
    ensures JoinParts(Split(s, pat), pat) == s
    decreases |s|
  {
    if StartsWith(s, pat) {
      JoinSplit(s[|pat|..], pat);
      JoinSplitHit(s, pat);
    } else if s != [] {
      JoinSplit(s[1..], pat);
      JoinSplitMiss(s, pat);
    }
  }

  /** The step of JoinSplit at a cut. */
  lemma JoinSplitHit(s: string, pat: string)
    requires pat != [] && StartsWith(s, pat)
    requires JoinParts(Split(s[|pat|..], pat), pat) == s[|pat|..]
    ensures JoinParts(Split(s, pat), pat) == s
  {
    var rest := s[|pat|..];
    var t := Split(rest, pat);
    SplitHit(s, pat);
    assert Split(s, pat) == [""] + t;
    JoinPartsCons("", t, pat);
    assert JoinParts([""] + t, pat) == "" + pat + rest;
    assert "" + pat + rest == pat + rest;
    assert s == s[..|pat|] + s[|pat|..];
  }

  /** The step of JoinSplit past a character that does not start a cut. */
  lemma JoinSplitMiss(s: string, pat: string)
    requires pat != [] && s != [] && !StartsWith(s, pat)
    requires JoinParts(Split(s[1..], pat), pat) == s[1..]
    ensures JoinParts(Split(s, pat), pat) == s
  {
    SplitMiss(s, pat);
    JoinHead(s[0], Split(s[1..], pat), pat);
    assert s == [s[0]] + s[1..];
  }

  /** Prefixing the first piece prefixes the joined text. */
  lemma JoinHead(c: char, t: seq<string>, sep: string)
    requires t != []
    ensures JoinParts([[c] + t[0]] + t[1..], sep) == [c] + JoinParts(t, sep)
  {
    JoinPartsCons([c] + t[0], t[1..], sep);
    JoinPartsCons(t[0], t[1..], sep);
    assert t == [t[0]] + t[1..];
  }

  /** A first piece free of the pattern's first character is cut off whole. */
  lemma {:induction false} SplitAtFirst(x: string, pat: string, rest: string)
    requires pat != [] && !HasChar(x, pat[0])
    ensures Split(x + pat + rest, pat) == [x] + Split(rest, pat)
    decreases |x|
  {
    var s := x + pat + rest;
    if x == [] {
      assert s == pat + rest;
      assert s[|pat|..] == rest;
      SplitHit(s, pat);
    } else {
      assert s[0] == x[0];
      assert s[..|pat|][0] == s[0];
      SplitMiss(s, pat);
      assert s[1..] == x[1..] + pat + rest;
      forall i | 0 <= i < |x[1..]|
        ensures x[1..][i] != pat[0]
      {
        assert x[1..][i] == x[i + 1];
      }
      SplitAtFirst(x[1..], pat, rest);
      assert x == [x[0]] + x[1..];
    }
  }

  /** A text free of the pattern's first character is a single piece. */
  lemma {:induction false} SplitWhole(x: string, pat: string)
    requires pat != [] && !HasChar(x, pat[0])
    ensures Split(x, pat) == [x]
    decreases |x|
  {
    if x != [] {
      if |pat| <= |x| {
        assert x[..|pat|][0] == x[0];
      }
      SplitMiss(x, pat);
      forall i | 0 <= i < |x[1..]|
        ensures x[1..][i] != pat[0]
      {
        assert x[1..][i] == x[i + 1];
      }
      SplitWhole(x[1..], pat);
      assert x == [x[0]] + x[1..];
    }
  }

  /** Replacing every occurrence is the same as splitting and joining with the replacement. */
  lemma {:induction false} ReplaceAllIsJoinSplit(s: string, pat: string, rep: string)
    requires pat != []
    ensures ReplaceAll(s, pat, rep) == JoinParts(Split(s, pat), rep)
    decreases |s|
  {
    if StartsWith(s, pat) {
      ReplaceAllIsJoinSplit(s[|pat|..], pat, rep);
      ReplaceJoinHit(s, pat, rep);
    } else if s != [] {
      ReplaceAllIsJoinSplit(s[1..], pat, rep);
      ReplaceJoinMiss(s, pat, rep);
    }
  }

  /** The step of ReplaceAllIsJoinSplit at a cut. */
  lemma ReplaceJoinHit(s: string, pat: string, rep: string)
    requires pat != [] && StartsWith(s, pat)
    requires ReplaceAll(s[|pat|..], pat, rep) == JoinParts(Split(s[|pat|..], pat), rep)
    ensures ReplaceAll(s, pat, rep) == JoinParts(Split(s, pat), rep)
  {
    var t := Split(s[|pat|..], pat);
    SplitHit(s, pat);
    ReplaceAllHit(s, pat, rep);
    JoinPartsCons("", t, rep);
    assert JoinParts([""] + t, rep) == "" + rep + JoinParts(t, rep);
    assert "" + rep == rep;
  }

  /** The step of ReplaceAllIsJoinSplit past a character that does not start a cut. */
  lemma ReplaceJoinMiss(s: string, pat: string, rep: string)
    requires pat != [] && s != [] && !StartsWith(s, pat)
    requires ReplaceAll(s[1..], pat, rep) == JoinParts(Split(s[1..], pat), rep)
    ensures ReplaceAll(s, pat, rep) == JoinParts(Split(s, pat), rep)
  {
    SplitMiss(s, pat);
    ReplaceAllMiss(s, pat, rep);
    JoinHead(s[0], Split(s[1..], pat), rep);
  }

  /**
   * The order SQLite's default BINARY collation gives TEXT values: the first
   * differing character decides, and a proper prefix sorts first.
   */
  predicate LexLess(a: string, b: string) {
    if a == [] then b != []
    else if b == [] then false
    else if a[0] != b[0] then a[0] < b[0]
    else LexLess(a[1..], b[1..])
  }

  lemma {:induction false} LexLessIrreflexive(a: string)
    ensures !LexLess(a, a)
  {
    if a != [] {
      LexLessIrreflexive(a[1..]);
    }
  }

  lemma {:induction false} LexLessTransitive(a: string, b: string, c: string)
    requires LexLess(a, b) && LexLess(b, c)
    ensures LexLess(a, c)
  {
    if a != [] && b != [] && c != [] && a[0] == b[0] && b[0] == c[0] {
      LexLessTransitive(a[1..], b[1..], c[1..]);
    }
  }

  lemma {:induction false} LexLessTotal(a: string, b: string)
    requires a != b
    ensures LexLess(a, b) || LexLess(b, a)
  {
    if a != [] && b != [] && a[0] == b[0] {
      assert a == [a[0]] + a[1..] && b == [b[0]] + b[1..];
      LexLessTotal(a[1..], b[1..]);
    }
  }

  predicate IsDigit(c: char) {
    '0' <= c <= '9'
  }

  predicate AllDigits(s: string) {
    forall i :: 0 <= i < |s| ==> IsDigit(s[i])
  }

  function DigitChar(d: nat): (c: char)
    requires d < 10
    ensures IsDigit(c)
  {
    ('0' as int + d) as char
  }

  function DigitValue(c: char): (d: nat)
    requires IsDigit(c)
    ensures d < 10 && DigitChar(d) == c
  {
    c as int - '0' as int
  }

  /** Decimal rendering without leading zeros (`u64::to_string`). */
  function NatToString(n: nat): string
    decreases n
  {
    if n < 10 then [DigitChar(n)] else NatToString(n / 10) + [DigitChar(n % 10)]
  }

  lemma DigitsHaveNoDot(s: string)
    requires AllDigits(s)
    ensures !HasChar(s, '.')
  {
  }

  function DigitsValue(s: string): nat
    requires AllDigits(s)
  {
    if s == [] then 0 else DigitsValue(s[..|s| - 1]) * 10 + DigitValue(s[|s| - 1])
  }

  /** A decimal numeral: non-empty, digits only, and no leading zero unless it is "0". */
  function ParseNat(s: string): Option<nat> {
    if s == [] || !AllDigits(s) || (|s| > 1 && s[0] == '0') then None
    else Some(DigitsValue(s))
  }

  lemma {:induction false} NatToStringShape(n: nat)
    ensures NatToString(n) != [] && AllDigits(NatToString(n))
    ensures DigitsValue(NatToString(n)) == n
    ensures |NatToString(n)| > 1 ==> NatToString(n)[0] != '0'
    ensures n > 0 ==> NatToString(n)[0] != '0'
    decreases n
  {
    if n >= 10 {
      NatToStringShape(n / 10);
      var s := NatToString(n);
      assert s[..|s| - 1] == NatToString(n / 10);
      assert s[0] == NatToString(n / 10)[0];
    }
  }

  /** Rendering then parsing gives the number back. */
  lemma ParseNatToString(n: nat)
    ensures ParseNat(NatToString(n)) == Some(n)
  {
    NatToStringShape(n);
  }

  lemma {:induction false} DigitsValuePositive(s: string)
    requires s != [] && AllDigits(s) && s[0] != '0'
    ensures DigitsValue(s) >= 1
    decreases |s|
  {
    if |s| > 1 {
      DigitsValuePositive(s[..|s| - 1]);
    }
  }

  /** Parsing accepts only canonical numerals: rendering the result gives the text back. */
  lemma {:induction false} NatToStringParse(s: string)
    requires ParseNat(s).Some?
    ensures NatToString(ParseNat(s).value) == s
    decreases |s|
  {
    var n := DigitsValue(s);
    if |s| == 1 {
      assert s[..0] == [];
      assert DigitsValue(s[..0]) == 0;
      assert n == DigitsValue(s[..0]) * 10 + DigitValue(s[0]);
      assert NatToString(n) == [DigitChar(n)];
      assert s == [s[0]];
    } else {
      var init := s[..|s| - 1];
      var m := DigitsValue(init);
      assert init[0] == s[0];
      assert ParseNat(init) == Some(m);
      NatToStringParse(init);
      DigitsValuePositive(init);
      assert n / 10 == m && n % 10 == DigitValue(s[|s| - 1]);
      assert s == init + [s[|s| - 1]];
    }
  }
}
