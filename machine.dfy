/**
 * What the package manager takes from the machine it runs on besides the
 * file system: the home directory, the environment the link targets are
 * expanded in, and the library code it calls on file contents (archive
 * extraction and the manifest and symlist decoders).
 */
module Machine {
  import opened Wrappers
  import opened Paths
  import Fs
  import Symlist
  import Packages
  import Foreign

  datatype Host = Host(
    /** `dirs::home_dir()`, which the program unwraps. */
    home: Path,
    /** The variables `expand_vars` reads. */
    env: Symlist.Env,
    /** The iteration order of the table `expand_vars` builds for the i-th symlist entry. */
    order: nat -> seq<Symlist.Var>,
    /** Gzip-decompressing and untarring an archive into a directory (the `tar` and `flate2` crates). */
    extract: (Fs.Tree, Path, Path) -> Result<Fs.Tree, Fs.IoError>,
    /** The manifest decoder: a package record or the decoder's message. */
    decodeManifest: string -> Result<Packages.Manifest, string>,
    /** The RON decoder for `symlist.ron`. */
    decodeSymlist: string -> Result<seq<Symlist.SymlinkEntry>, Foreign.RonError>)

  /**
   * `expand_vars` and the installer read the same home directory, and each
   * table `expand_vars` builds is iterated over its four variables.
   */
  ghost predicate Valid(h: Host) {
    h.env.home == Some(h.home) && Symlist.Enumerations(h.order)
  }
}
