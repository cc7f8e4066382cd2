/**
 * The package record read from a package's manifest: name, author,
 * version, where it came from, checksum and declared dependencies.
 */
module Packages {
  import opened Wrappers
  import opened SemVer
  import opened Paths
  import Fs
  import Errors

  /** Where a package comes from; each variant wraps its text. */
  datatype Source = Url(url: string) | LocalPath(path: string) | Raw(raw: string)

  /** `Source::as_str`. */
  function AsStr(s: Source): string {
    match s
    case Url(u) => u
    case LocalPath(p) => p
    case Raw(r) => r
  }

  /** `as_str` returns exactly the wrapped text, so it and the variant determine the source. */
  lemma AsStrPayload(text: string)
    ensures AsStr(Url(text)) == text && AsStr(LocalPath(text)) == text && AsStr(Raw(text)) == text
  {
  }

  lemma AsStrDetermines(a: Source, b: Source)
    requires a.Url? == b.Url? && a.LocalPath? == b.LocalPath?
    requires AsStr(a) == AsStr(b)
    ensures a == b
  {
  }

  datatype Dependency = Dependency(name: string, version: Version)

  datatype Package = Package(
    name: string,
    author: string,
    version: Version,
    src: Source,
    checksum: string,
    dependencies: seq<Dependency>)

  /** The `map(|(name, version)| Dependency { name, version })` of `Package::new`. */
  function ToDependencies(pairs: seq<(string, Version)>): (ds: seq<Dependency>)
    ensures |ds| == |pairs|
  {
    if pairs == [] then [] else [Dependency(pairs[0].0, pairs[0].1)] + ToDependencies(pairs[1..])
  }

  /** `Package::dependencies`: the dependency list as (name, version) pairs. */
  function DependencyPairs(ds: seq<Dependency>): (pairs: seq<(string, Version)>)
    ensures |pairs| == |ds|
  {
    if ds == [] then [] else [(ds[0].name, ds[0].version)] + DependencyPairs(ds[1..])
  }

  /** The i-th pair is the i-th dependency's name and version. */
  lemma {:induction false} DependencyPairsAt(ds: seq<Dependency>, i: int)
    requires 0 <= i < |ds|
    ensures DependencyPairs(ds)[i] == (ds[i].name, ds[i].version)
    decreases |ds|
  {
    if i > 0 {
      DependencyPairsAt(ds[1..], i - 1);
    }
  }

  /** `Package::new`; note that the version comes before the author. */
  function New(
    name: string, version: Version, author: string, src: Source, checksum: string,
    dependencies: seq<(string, Version)>): Package
  {
    Package(name, author, version, src, checksum, ToDependencies(dependencies))
  }

  /** The accessors return exactly what the package was built from. */
  lemma NewAccessors(
    name: string, version: Version, author: string, src: Source, checksum: string,
    dependencies: seq<(string, Version)>)
    ensures var p := New(name, version, author, src, checksum, dependencies);
      p.name == name && p.author == author && p.version == version && p.src == src && p.checksum == checksum
  {
  }

  /** `dependencies()` of `Package::new(.., deps)` is `deps`: same names, versions and order. */
  lemma {:induction false} DependenciesRoundTrip(pairs: seq<(string, Version)>)
    ensures DependencyPairs(ToDependencies(pairs)) == pairs
    decreases |pairs|
  {
    if pairs != [] {
      DependenciesRoundTrip(pairs[1..]);
      assert ToDependencies(pairs)[1..] == ToDependencies(pairs[1..]);
    }
  }

  lemma NewDependencies(
    name: string, version: Version, author: string, src: Source, checksum: string,
    dependencies: seq<(string, Version)>)
    ensures DependencyPairs(New(name, version, author, src, checksum, dependencies).dependencies) == dependencies
  {
    DependenciesRoundTrip(dependencies);
  }

  /** `Package::template`. */
  function Template(): (p: Package)
    ensures p.name == "my_package" && p.author == "YourName"
    ensures Parse("0.1.0") == Some(p.version)
    ensures p.src == Raw("TODO") && p.checksum == "TODO" && p.dependencies == []
  {
    var v := Version(0, 1, 0);
    ParseToString(v);
    assert ToString(v) == "0.1.0";
    Package("my_package", "YourName", v, Raw("TODO"), "TODO", [])
  }

  /**
   * What the TOML decoder yields for a manifest.  `dependencies` carries
   * `#[serde(default)]`, so a manifest without that key decodes to none.
   */
  datatype Manifest = Manifest(
    name: string,
    author: string,
    version: Version,
    src: Source,
    checksum: string,
    dependencies: Option<seq<Dependency>>)

  function FromManifest(m: Manifest): (p: Package)
    ensures p.name == m.name && p.author == m.author && p.version == m.version
    ensures p.src == m.src && p.checksum == m.checksum
    ensures m.dependencies.None? ==> p.dependencies == []
    ensures m.dependencies.Some? ==> p.dependencies == m.dependencies.value
  {
    Package(m.name, m.author, m.version, m.src, m.checksum, m.dependencies.GetOr([]))
  }

  /**
   * `meta_parser`: a read failure is passed on as `Io`; a TOML decoding
   * failure is also reported as `Io`, of kind `InvalidData`.
   */
  function MetaParser(t: Fs.Tree, metaPath: Path, decode: string -> Result<Manifest, string>): (r: Result<Package, Errors.MetaParseError>)
    ensures Fs.ReadToString(t, metaPath).Failure? ==> r == Failure(Errors.MetaIo(Fs.ReadToString(t, metaPath).error))
    ensures Fs.ReadToString(t, metaPath).Success? ==>
      var content := Fs.ReadToString(t, metaPath).value;
      match decode(content)
      case Failure(msg) => r == Failure(Errors.MetaIo(Fs.IoError(Fs.InvalidData, "TOML parse error: " + msg)))
      case Success(m) => r == Success(FromManifest(m))
  {
    match Fs.ReadToString(t, metaPath)
    case Failure(e) => Failure(Errors.MetaIo(e))
    case Success(content) =>
      match decode(content)
      case Failure(msg) => Failure(Errors.MetaIo(Fs.IoError(Fs.InvalidData, "TOML parse error: " + msg)))
      case Success(m) => Success(FromManifest(m))
  }

  /** `meta_parser` never reports a `Ron` error, and a decoding failure is always `InvalidData`. */
  lemma MetaParserErrors(t: Fs.Tree, metaPath: Path, decode: string -> Result<Manifest, string>)
    ensures MetaParser(t, metaPath, decode).Failure? ==> MetaParser(t, metaPath, decode).error.MetaIo?
    ensures Fs.ReadToString(t, metaPath).Success? && decode(Fs.ReadToString(t, metaPath).value).Failure? ==>
      MetaParser(t, metaPath, decode).error.io.kind == Fs.InvalidData
  {
  }

  /** The three joins of `get_pkg_path` below an absolute home without a trailing separator. */
  lemma PackagesDirJoin(home: Path, leaf: Path)
    requires IsAbsolute(home) && home[|home| - 1] != '/' && !IsAbsolute(leaf)
    ensures Join(Join(Join(home, ".uhpm"), "packages"), leaf) == home + "/.uhpm/packages/" + leaf
  {
    assert !IsAbsolute(".uhpm") && !IsAbsolute("packages");
    var dotDir := home + "/.uhpm";
    assert Join(home, ".uhpm") == dotDir;
    var packages := dotDir + "/packages";
    assert Join(dotDir, "packages") == packages;
    assert packages[|packages| - 1] == 's';
    assert packages + "/" == home + "/.uhpm/packages/";
  }

  /** `get_pkg_path`: `<home>/.uhpm/packages/<name>-<version>`. */
  function PkgPath(home: Path, name: string, version: Version): (r: Path)
    ensures IsAbsolute(home) && home[|home| - 1] != '/' && !IsAbsolute(name) ==>
      r == home + "/.uhpm/packages/" + name + "-" + ToString(version)
    ensures IsAbsolute(name) ==> r == name + "-" + ToString(version)
  {
    var leaf := name + "-" + ToString(version);
    assert IsAbsolute(leaf) <==> IsAbsolute(name) by {
      if name != [] { assert leaf[0] == name[0]; }
    }
    assert IsAbsolute(home) && home[|home| - 1] != '/' && !IsAbsolute(name) ==>
      Join(Join(Join(home, ".uhpm"), "packages"), leaf) == home + "/.uhpm/packages/" + name + "-" + ToString(version) by {
      if IsAbsolute(home) && home[|home| - 1] != '/' && !IsAbsolute(name) {
        PackagesDirJoin(home, leaf);
      }
    }
    Join(Join(Join(home, ".uhpm"), "packages"), leaf)
  }
}
