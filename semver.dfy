/**
 * Release versions MAJOR.MINOR.PATCH as in Semantic Versioning 2.0.0:
 * each component is an unsigned 64-bit integer written in decimal without
 * leading zeros, and precedence (section 11 of the standard) compares the
 * components numerically from left to right.
 */
module SemVer {
  import opened Wrappers
  import opened Strings

  newtype u64 = x: int | 0 <= x < 0x1_0000_0000_0000_0000

  datatype Version = Version(major: u64, minor: u64, patch: u64)

  /** `Version::new(0, 0, 0)`, the fallback the program uses for unparsable text. */
  const Zero := Version(0, 0, 0)

  /** Precedence: the first differing component decides, compared numerically. */
  predicate Less(a: Version, b: Version) {
    a.major < b.major
    || (a.major == b.major && a.minor < b.minor)
    || (a.major == b.major && a.minor == b.minor && a.patch < b.patch)
  }

  lemma LessIrreflexive(a: Version)
    ensures !Less(a, a)
  {
  }

  lemma LessTransitive(a: Version, b: Version, c: Version)
    requires Less(a, b) && Less(b, c)
    ensures Less(a, c)
  {
  }

  /** Two distinct versions are always ordered one way or the other. */
  lemma LessTotal(a: Version, b: Version)
    ensures a == b || Less(a, b) || Less(b, a)
  {
  }

  /** `Version`'s `Display`: the three numbers joined by dots. */
  function ToString(v: Version): string {
    NatToString(v.major as nat) + "." + NatToString(v.minor as nat) + "." + NatToString(v.patch as nat)
  }

  /** One numeric component: a canonical decimal numeral that fits in 64 bits. */
  function ParseComponent(s: string): (r: Option<u64>)
    ensures r.Some? <==> ParseNat(s).Some? && ParseNat(s).value < 0x1_0000_0000_0000_0000
    ensures r.Some? ==> r.value as nat == ParseNat(s).value
  {
    match ParseNat(s)
    case None => None
    case Some(n) => if n < 0x1_0000_0000_0000_0000 then Some(n as u64) else None
  }

  /** `Version::parse` restricted to release versions. */
  function Parse(s: string): Option<Version> {
    var parts := Split(s, ".");
    if |parts| != 3 then None
    else
      match (ParseComponent(parts[0]), ParseComponent(parts[1]), ParseComponent(parts[2]))
      case (Some(a), Some(b), Some(c)) => Some(Version(a, b, c))
      case _ => None
  }

  /** `Version::parse(s).unwrap_or(Version::new(0, 0, 0))`. */
  function ParseOrZero(s: string): (v: Version)
    ensures Parse(s).Some? ==> v == Parse(s).value
    ensures Parse(s).None? ==> v == Zero
  {
    Parse(s).GetOr(Zero)
  }

  lemma ComponentRoundTrip(n: u64)
    ensures ParseComponent(NatToString(n as nat)) == Some(n)
    ensures !HasChar(NatToString(n as nat), '.')
  {
    ParseNatToString(n as nat);
    NatToStringShape(n as nat);
    DigitsHaveNoDot(NatToString(n as nat));
  }

  /** Rendering a version and parsing the text gives the version back. */
  lemma ParseToString(v: Version)
    ensures Parse(ToString(v)) == Some(v)
  {
    var a, b, c := NatToString(v.major as nat), NatToString(v.minor as nat), NatToString(v.patch as nat);
    ComponentRoundTrip(v.major);
    ComponentRoundTrip(v.minor);
    ComponentRoundTrip(v.patch);
    SplitWhole(c, ".");
    SplitAtFirst(b, ".", c);
    assert ToString(v) == a + "." + (b + "." + c);
    SplitAtFirst(a, ".", b + "." + c);
  }

  /** Only canonical text is accepted: re-rendering a parsed version gives the text back. */
  lemma ToStringParse(s: string)
    requires Parse(s).Some?
    ensures ToString(Parse(s).value) == s
  {
    var parts := Split(s, ".");
    var v := Parse(s).value;
    JoinSplit(s, ".");
    NatToStringParse(parts[0]);
    NatToStringParse(parts[1]);
    NatToStringParse(parts[2]);
    assert parts == [parts[0]] + ([parts[1]] + [parts[2]]);
    JoinPartsCons(parts[0], [parts[1]] + [parts[2]], ".");
    JoinPartsCons(parts[1], [parts[2]], ".");
  }

  /** Text is parsed to a version exactly when it is the rendering of that version. */
  lemma ParseIffToString(s: string, v: Version)
    ensures Parse(s) == Some(v) <==> s == ToString(v)
  {
    if Parse(s) == Some(v) {
      ToStringParse(s);
    }
    if s == ToString(v) {
      ParseToString(v);
    }
  }
}
