/**
 * The error taxonomy: the per-subsystem error enums and their conversions
 * into the top-level `UhpmError` (and of text into `ConfigError`), with the
 * `Display` messages the enums are declared with.
 */
module Errors {
  import opened Paths
  import Fs
  import opened Foreign
  import opened SemVer
  import Symlist

  datatype RepoError = RepoIo(io: Fs.IoError) | RepoDb(db: DbError) | RepoNotFound(what: string)

  datatype ConfigError = ConfigIo(io: Fs.IoError) | ConfigRon(ron: RonError) | ConfigNotFound(what: string)

  datatype FetchError = Http(http: HttpError) | FetchIo(io: Fs.IoError) | Installer(message: string)

  datatype MetaParseError = MetaIo(io: Fs.IoError) | MetaRon(ron: RonError)

  datatype RemoveError = RemoveNotFound(name: string) | RemoveDb(db: DbError) | RemoveIo(io: Fs.IoError)

  datatype SwitchError =
    | SwitchIo(io: Fs.IoError)
    | SwitchDb(db: DbError)
    | MissingPackageDir(path: Path)
    | SwitchSymlist(symlist: Symlist.SymlistError)
    | PackageNotFound(name: string, version: Version)

  datatype UpdaterError =
    | UpdaterNotFound(name: string)
    | UpdaterIo(io: Fs.IoError)
    | UpdaterRepo(repo: RepoError)
    | UpdaterDb(db: DbError)
    | UpdaterFetch(fetch: FetchError)
    | UpdaterNoNewVersion(name: string)

  datatype UhpmError =
    | Config(config: ConfigError)
    | Database(db: DbError)
    | Repository(repo: RepoError)
    | Package(message: string)
    | Network(http: HttpError)
    | Io(io: Fs.IoError)
    | Parse(message: string)
    | NotFound(message: string)
    | NoNewVersion(name: string)
    | Validation(message: string)

  function RepoDisplay(e: RepoError): string {
    match e
    case RepoIo(io) => "IO error: " + io.message
    case RepoDb(db) => "Database error: " + db.message
    case RepoNotFound(what) => "Package not found: " + what
  }

  function ConfigDisplay(e: ConfigError): string {
    match e
    case ConfigIo(io) => "IO error: " + io.message
    case ConfigRon(ron) => "RON parse error: " + ron.message
    case ConfigNotFound(what) => "Configuration file not found: " + what
  }

  function FetchDisplay(e: FetchError): string {
    match e
    case Http(http) => "HTTP error: " + http.message
    case FetchIo(io) => "IO error: " + io.message
    case Installer(message) => "Installer error: " + message
  }

  function RemoveDisplay(e: RemoveError): string {
    match e
    case RemoveNotFound(name) => "Package not found: " + name
    case RemoveDb(db) => "Database error: " + db.message
    case RemoveIo(io) => "IO error: " + io.message
  }

  function SwitchDisplay(e: SwitchError): string {
    match e
    case SwitchIo(io) => "IO error: " + io.message
    case SwitchDb(db) => "Database error: " + db.message
    case MissingPackageDir(path) => "Package directory not found: " + path
    case SwitchSymlist(s) => "Symlist error: " + Symlist.Display(s)
    case PackageNotFound(name, version) => "Package not found: " + name + " version " + ToString(version)
  }

  function UpdaterDisplay(e: UpdaterError): string {
    match e
    case UpdaterNotFound(name) => "Package not found: " + name
    case UpdaterIo(io) => "IO error: " + io.message
    case UpdaterRepo(repo) => "Repository error: " + RepoDisplay(repo)
    case UpdaterDb(db) => "Database error: " + db.message
    case UpdaterFetch(fetch) => "Fetch error: " + FetchDisplay(fetch)
    case UpdaterNoNewVersion(name) => "No newer version available for package: " + name
  }

  function Display(e: UhpmError): string {
    match e
    case Config(c) => "Configuration error: " + ConfigDisplay(c)
    case Database(db) => "Database error: " + db.message
    case Repository(repo) => "Repository error: " + RepoDisplay(repo)
    case Package(message) => "Package error: " + message
    case Network(http) => "Network error: " + http.message
    case Io(io) => "I/O error: " + io.message
    case Parse(message) => "Parse error: " + message
    case NotFound(message) => "Package not found: " + message
    case NoNewVersion(name) => "No newer version available for package: " + name
    case Validation(message) => "Validation error: " + message
  }

  /** `From<SwitchError> for UhpmError`. */
  function FromSwitch(e: SwitchError): (r: UhpmError)
    ensures r.NotFound? <==> e.MissingPackageDir? || e.PackageNotFound?
    ensures r.Parse? <==> e.SwitchSymlist?
    ensures r.Io? <==> e.SwitchIo?
    ensures r.Database? <==> e.SwitchDb?
    ensures e.SwitchIo? ==> r.io == e.io
    ensures e.SwitchDb? ==> r.db == e.db
  {
    match e
    case SwitchIo(io) => Io(io)
    case SwitchDb(db) => Database(db)
    case MissingPackageDir(path) => NotFound("Package directory not found: " + path)
    case SwitchSymlist(s) => Parse(Symlist.Display(s))
    case PackageNotFound(name, version) => NotFound("Package " + name + " version " + ToString(version) + " not found")
  }

  /** `From<FetchError> for UhpmError`. */
  function FromFetch(e: FetchError): (r: UhpmError)
    ensures r.Network? <==> e.Http?
    ensures r.Io? <==> e.FetchIo?
    ensures r.Package? <==> e.Installer?
    ensures e.Http? ==> r.http == e.http
    ensures e.FetchIo? ==> r.io == e.io
    ensures e.Installer? ==> r.message == e.message
  {
    match e
    case Http(http) => Network(http)
    case FetchIo(io) => Io(io)
    case Installer(message) => Package(message)
  }

  /** `From<UpdaterError> for UhpmError`. */
  function FromUpdater(e: UpdaterError): (r: UhpmError)
    ensures e.UpdaterNotFound? <==> r.NotFound? && !e.UpdaterFetch?
    ensures e.UpdaterNoNewVersion? <==> r.NoNewVersion?
    ensures e.UpdaterNotFound? ==> r.message == e.name
    ensures e.UpdaterNoNewVersion? ==> r.name == e.name
    ensures e.UpdaterRepo? <==> r.Repository?
    ensures e.UpdaterDb? <==> r.Database?
    ensures e.UpdaterFetch? ==> r == FromFetch(e.fetch)
    ensures r.Io? <==> e.UpdaterIo? || (e.UpdaterFetch? && e.fetch.FetchIo?)
    ensures e.UpdaterIo? ==> r == Io(e.io)
    ensures e.UpdaterRepo? ==> r == Repository(e.repo)
    ensures e.UpdaterDb? ==> r == Database(e.db)
  {
    match e
    case UpdaterNotFound(name) => NotFound(name)
    case UpdaterIo(io) => Io(io)
    case UpdaterRepo(repo) => Repository(repo)
    case UpdaterDb(db) => Database(db)
    case UpdaterFetch(fetch) => FromFetch(fetch)
    case UpdaterNoNewVersion(name) => NoNewVersion(name)
  }

  /** `From<MetaParseError> for UhpmError`. */
  function FromMetaParse(e: MetaParseError): (r: UhpmError)
    ensures r.Io? <==> e.MetaIo?
    ensures r.Parse? <==> e.MetaRon?
    ensures e.MetaIo? ==> r.io == e.io
    ensures e.MetaRon? ==> r.message == e.ron.message
  {
    match e
    case MetaIo(io) => Io(io)
    case MetaRon(ron) => Parse(ron.message)
  }

  /** `From<RemoveError> for UhpmError`. */
  function FromRemove(e: RemoveError): (r: UhpmError)
    ensures r.NotFound? <==> e.RemoveNotFound?
    ensures r.Database? <==> e.RemoveDb?
    ensures r.Io? <==> e.RemoveIo?
    ensures e.RemoveNotFound? ==> r.message == e.name
    ensures e.RemoveDb? ==> r.db == e.db
    ensures e.RemoveIo? ==> r.io == e.io
  {
    match e
    case RemoveNotFound(name) => NotFound(name)
    case RemoveDb(db) => Database(db)
    case RemoveIo(io) => Io(io)
  }

  /** `From<String> for UhpmError`. */
  function FromString(s: string): (r: UhpmError)
    ensures r.Package? && Display(r) == "Package error: " + s
  {
    Package(s)
  }

  /** `From<&str> for ConfigError`. */
  function ConfigFromStr(s: string): (r: ConfigError)
    ensures r.ConfigNotFound? && ConfigDisplay(r) == "Configuration file not found: " + s
  {
    ConfigNotFound(s)
  }

  /**
   * Converting a removal error keeps its message, except that an I/O error
   * is announced as "I/O error" instead of "IO error".
   */
  lemma RemoveMessageKept(e: RemoveError)
    ensures !e.RemoveIo? ==> Display(FromRemove(e)) == RemoveDisplay(e)
    ensures e.RemoveIo? ==> Display(FromRemove(e)) == "I/O error: " + e.io.message
    ensures e.RemoveIo? ==> RemoveDisplay(e) == "IO error: " + e.io.message
  {
  }

  /** The same holds for updater errors that are not fetch errors. */
  lemma UpdaterMessageKept(e: UpdaterError)
    requires !e.UpdaterIo? && !e.UpdaterFetch?
    ensures Display(FromUpdater(e)) == UpdaterDisplay(e)
  {
  }

  /** A fetch error inside an updater error loses the "Fetch error: " wrapper. */
  lemma UpdaterFetchUnwrapped(f: FetchError)
    ensures FromUpdater(UpdaterFetch(f)) == FromFetch(f)
    ensures UpdaterDisplay(UpdaterFetch(f)) == "Fetch error: " + FetchDisplay(f)
  {
  }

  /**
   * Both "not found" switch errors become `NotFound`; a missing directory
   * keeps its own message inside the new one.
   */
  lemma SwitchNotFoundMessages(path: Path, name: string, v: Version)
    ensures Display(FromSwitch(MissingPackageDir(path))) == "Package not found: " + SwitchDisplay(MissingPackageDir(path))
    ensures Display(FromSwitch(PackageNotFound(name, v)))
         == "Package not found: Package " + name + " version " + ToString(v) + " not found"
  {
    var m := "Package " + name + " version " + ToString(v) + " not found";
    assert FromSwitch(PackageNotFound(name, v)) == NotFound(m);
    assert "Package not found: " + m == "Package not found: Package " + name + " version " + ToString(v) + " not found";
    var d := "Package directory not found: " + path;
    assert FromSwitch(MissingPackageDir(path)) == NotFound(d);
    assert SwitchDisplay(MissingPackageDir(path)) == d;
  }

  /** A symlist failure becomes a parse error carrying the symlist error's message. */
  lemma SwitchSymlistMessage(s: Symlist.SymlistError)
    ensures Display(FromSwitch(SwitchSymlist(s))) == "Parse error: " + Symlist.Display(s)
    ensures SwitchDisplay(SwitchSymlist(s)) == "Symlist error: " + Symlist.Display(s)
  {
  }
}
