/**
 * The in-memory stand-ins used by the tests: a catalog that is a single
 * name-to-version table, an unpacker that always yields one directory and
 * a link creator that always reports the same files.
 */
module Mocks {
  import opened Wrappers
  import opened SemVer
  import opened Paths
  import Fs
  import opened Packages

  /** `MockDB`: one version text per package name. */
  class MockDB {
    var versions: map<string, string>

    constructor()
      ensures versions == map[]
    {
      versions := map[];
    }

    /**
     * `is_installed`: the stored version for `name`, parsed; none when the
     * name is absent.  Parsing is unwrapped, so a stored text must parse.
     */
    function IsInstalled(name: string): (r: Option<Version>)
      requires name in versions ==> Parse(versions[name]).Some?
      reads this
      ensures r.None? <==> name !in versions
      ensures r.Some? ==> ToString(r.value) == versions[name]
    {
      if name in versions then
        ToStringParse(versions[name]);
        Some(Parse(versions[name]).value)
      else None
    }

    /** `add_package_full`: stores the package's version under its name; the file list is ignored. */
    method AddPackageFull(p: Package, files: seq<string>)
      modifies this
      ensures versions == old(versions)[p.name := ToString(p.version)]
      ensures Parse(versions[p.name]) == Some(p.version) && IsInstalled(p.name) == Some(p.version)
    {
      versions := versions[p.name := ToString(p.version)];
      ParseToString(p.version);
    }

    /** `set_current_version`: stores `version` under `name`, other names untouched. */
    method SetCurrentVersion(name: string, version: string)
      modifies this
      ensures versions == old(versions)[name := version]
    {
      versions := versions[name := version];
    }

    /** `get_installed_files`: always empty. */
    method GetInstalledFiles(name: string) returns (files: seq<string>)
      ensures files == []
    {
      files := [];
    }
  }

  /** `MockUnpacker`: yields its configured directory for any archive. */
  class MockUnpacker {
    var path: Path

    constructor(p: Path)
      ensures path == p
    {
      path := p;
    }

    method Unpack(pkgPath: Path) returns (r: Result<Path, Fs.IoError>)
      ensures r == Success(path)
    {
      r := Success(path);
    }
  }

  /** `MockSymlink`: reports its configured files for any package directory. */
  class MockSymlink {
    var files: seq<Path>

    constructor(fs: seq<Path>)
      ensures files == fs
    {
      files := fs;
    }

    method CreateSymlinks(packageRoot: Path) returns (r: Result<seq<Path>, Fs.IoError>)
      ensures r == Success(files)
    {
      r := Success(files);
    }
  }
}
