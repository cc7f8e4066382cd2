# UHPM in Dafny

This project models the core of UHPM, a user-space package manager. UHPM
installs `.uhp` archives below `~/.uhpm/packages/<name>-<version>`. It
activates a package by creating the symbolic links its `symlist.ron` lists.
It records packages, their dependencies and their links in a catalog
database. It can switch, remove and update packages, and it looks packages
up in repository indexes.

The model works over two abstract stores:

- A file system, `Fs.FileSystem`. Its tree maps paths to nodes, each a
  directory, a file or a symbolic link. `Path::exists` follows links, so a
  dangling link "does not exist" (`Fs.Exists`) even though it is present
  (`Fs.Present`).
- The catalog, `Catalog.PackageDB`. It holds:
  - a `packages` row sequence, keyed only by row id;
  - a `dependencies` map keyed by (package, dependency);
  - an `installed_files` set of (package, path) pairs;
  - the "current version" map.

Each operation that changes state is two things:

- a pure function that says what it does, for example `Installer.InstallRun`,
  `Switcher.SwitchRun`, `Remover.RemoveRun` or `Updater.CheckRun`;
- an imperative method that makes the calls one at a time and is proved to
  match that function, for example `Installer.Install`,
  `Switcher.SwitchVersion` or `Remover.Remove`.

Lemmas then state what the source promises about the functions.

Several things outside the program are parameters (`Machine.Host` and
function-valued arguments):

- the home directory;
- the environment variables `expand_vars` reads;
- archive extraction;
- the TOML and RON decoders;
- the HTTP client;
- opening a repository index;
- the iteration orders of hash maps.

Versions (`SemVer.Version`) are MAJOR.MINOR.PATCH triples of 64-bit
numbers. They are ordered by precedence as in section 11 of Semantic
Versioning 2.0.0. Parsing accepts only canonical text, and
`ParseOrZero` is the code's fallback to 0.0.0.

The source mixes revisions. The model follows each file as written:

- `src/cli.rs` and `src/package/updater.rs` read `(name, version)` pairs from
  the index and call `get_package`. `src/repo.rs` lists triples and
  provides `get_package_url`. Both calls are modelled as the same lookup,
  `Repo.PackageUrl`.
- `src/service.rs` passes a `direct` flag to the installer, the remover and
  the fetcher. None of their signatures in this model takes it, so it is
  dropped.
- The catalog operations `set_current_version`, `get_current_package` and
  `get_package_by_version` are called but not defined in `src/db.rs`.
  - `set_current_version` follows `MockDB`: it stores name ↦ version.
  - `get_package_by_version` becomes a precondition of `Switcher.SwitchVersion`: a row of the target version exists.
  - `get_current_package` becomes its `current` parameter, which nothing else constrains.
- `list_packages` in `src/db.rs` returns `(name, version)` pairs. `src/cli.rs` and `src/service.rs`
  read `(name, version, current)` triples from it. `Cli.ListOutput` and `Cli.RenderList` therefore
  take their rows as a parameter, not linked to `Catalog.PackageDB.ListPackages` or to the
  current-version table.

## Model

| member | source | states |
|---|---|---|
| Catalog.RowOf | src/db.rs:105-114 | the inserted row holds the name, the version text (which parses back to the version), the author, `src.as_str()` and the checksum |
| Catalog.RecordDepsSpec | src/db.rs:116-125 | each declared dependency is recorded under (package, dependency) with the version of its last declaration; every other key keeps its value |
| Catalog.LastVersionOfDeclared | src/db.rs:116-125 | a dependency that is declared at all has a last declaration, so it is recorded |
| Catalog.RowsWithout | src/db.rs:169-174 | `DELETE FROM packages WHERE name = ?` keeps exactly the rows with other names, and no row of the name is left |
| Catalog.FirstVersion | src/db.rs:178-184 | none iff no row has the name; otherwise the version text of a row with that name |
| Catalog.MaxVersionText | src/db.rs:203-207 | `ORDER BY version DESC LIMIT 1`: none iff no row has the name; otherwise a version of the name that no other version of the name sorts after as text |
| Catalog.TextualOrderExample | src/db.rs:204 | with rows 10.0.0 and 9.0.0 the text order picks 9.0.0, although 9.0.0 precedes 10.0.0 in version order |
| Catalog.FilePairs | src/db.rs:127-135 | the pairs inserted into `installed_files` are exactly (name, f) for the given paths f |
| Catalog.AfterAdd | src/db.rs:88-98 | `add_package` appends exactly one row and changes no other table |
| Catalog.AfterAddFull | src/db.rs:100-138 | `add_package_full` appends one row, keeps earlier rows, and records the given paths under the name next to the paths already recorded; current is untouched |
| Catalog.AfterRemove | src/db.rs:154-177 | `remove_package` removes every row, dependency and recorded path of the name, and keeps everything of other names |
| Catalog.AfterSetCurrent | src/package/mocks.rs:37-41 | `set_current_version` makes the version current for the name, and other names and tables are unchanged |
| Catalog.PackageVersion | src/db.rs:178-184 | `get_package_version` is none iff no row has the name; otherwise it is the version text of such a row |
| Catalog.Installed | src/db.rs:203-216 | `is_installed` is none iff no row has the name; otherwise it is the textually greatest version of the name, parsed, or 0.0.0 when it does not parse |
| Catalog.AddFullMakesInstalled | src/db.rs:100-138 | after `add_package_full` the package has a row, and both `get_package_version` and `is_installed` report a version |
| Catalog.AddFullTwiceAppendsTwice | src/db.rs:105-114 | adding the same package twice leaves two identical new rows, because only the row id is a key |
| Catalog.AddFullRecordsDependencies | src/db.rs:116-125 | after `add_package_full` every declared dependency is recorded with its last declared version |
| Catalog.FirstVersionWithout | src/db.rs:169-184 | deleting one name's rows leaves the version lookup of every other name unchanged |
| Catalog.RemovedNameIsGone | src/db.rs:154-177 | after deleting a name neither version lookup finds it |
| Catalog.RemoveForgetsOnlyName | src/db.rs:154-184 | after `remove_package(name)` the name has no version, and every other name keeps its version |
| Catalog.PackageDB.constructor | src/db.rs:42-85 | a fresh catalog has empty tables |
| Catalog.PackageDB.AddPackage | src/db.rs:88-98 | the new tables are `AfterAdd` of the old ones |
| Catalog.PackageDB.AddPackageFull | src/db.rs:100-138 | the two insertion loops leave exactly `AfterAddFull` of the old tables |
| Catalog.PackageDB.GetInstalledFiles | src/db.rs:139-152 | returns exactly the paths recorded for the name, each once |
| Catalog.PackageDB.RemovePackage | src/db.rs:154-177 | the new tables are `AfterRemove` of the old ones |
| Catalog.PackageDB.GetPackageVersion | src/db.rs:178-184 | returns `PackageVersion` of the tables |
| Catalog.PackageDB.ListPackages | src/db.rs:186-199 | returns one (name, version) pair per row, in table order |
| Catalog.PackageDB.IsInstalled | src/db.rs:203-216 | returns `Installed` of the tables |
| Catalog.PackageDB.SetCurrentVersion | src/package/mocks.rs:37-41 | the new tables are `AfterSetCurrent` of the old ones |
| Mocks.MockDB.constructor | src/package/mocks.rs:19-22 | the default mock holds no versions |
| Mocks.MockDB.IsInstalled | src/package/mocks.rs:26-29 | none iff the name is absent; otherwise the stored text, parsed |
| Mocks.MockDB.AddPackageFull | src/package/mocks.rs:31-35 | stores name ↦ version text, replacing any earlier entry, so `is_installed` then reports that version; the file list is ignored |
| Mocks.MockDB.SetCurrentVersion | src/package/mocks.rs:37-41 | stores name ↦ version and leaves other names alone |
| Mocks.MockDB.GetInstalledFiles | src/package/mocks.rs:43-45 | always returns the empty list |
| Mocks.MockUnpacker.Unpack | src/package/mocks.rs:57-60 | returns the configured path for any archive |
| Mocks.MockSymlink.CreateSymlinks | src/package/mocks.rs:71-74 | returns the configured files for any package root |
| Packages.AsStrPayload | src/package.rs:22-28 | `as_str` returns the wrapped text for `Url`, `LocalPath` and `Raw` |
| Packages.AsStrDetermines | src/package.rs:22-28 | the variant and its `as_str` text determine the source |
| Packages.ToDependencies | src/package.rs:59-62 | one dependency per (name, version) pair |
| Packages.DependencyPairs | src/package.rs:94-99 | one pair per dependency |
| Packages.DependencyPairsAt | src/package.rs:94-99 | the i-th pair is the i-th dependency's name and version |
| Packages.NewAccessors | src/package.rs:51-92 | the accessors return exactly the constructor's arguments |
| Packages.DependenciesRoundTrip | src/package.rs:59-99 | `dependencies()` gives back the pairs the dependency list was built from: same names, versions and order |
| Packages.NewDependencies | src/package.rs:51-99 | `dependencies()` of `Package::new(.., deps)` is `deps` |
| Packages.Template | src/package.rs:107-116 | the template is my_package by YourName, version 0.1.0, source `Raw("TODO")`, checksum TODO, no dependencies |
| Packages.FromManifest | src/package.rs:39-48 | the fields are taken from the manifest, and a missing `dependencies` key gives an empty list |
| Packages.MetaParser | src/package.rs:125-134 | a read failure is passed on as `Io`; a decoding failure becomes `Io` of kind `InvalidData`; otherwise the decoded package |
| Packages.MetaParserErrors | src/package.rs:125-134 | `meta_parser` never reports `Ron`, and a decoding failure is always `InvalidData` |
| Packages.PkgPath | src/package.rs:136-139 | the path is `<home>/.uhpm/packages/<name>-<version>` |
| Symlist.Token | src/symlist.rs:80-81 | each token is `$` followed by a key without `$` |
| Symlist.ExpandVars | src/symlist.rs:57-85 | the loop builds the variable table and replaces each `$KEY` in table order, giving `Expanded` |
| Symlist.ExpandWithoutHome | src/symlist.rs:57-84 | without a home directory the table is empty and the path comes back unchanged |
| Symlist.ExpandWithoutTokens | src/symlist.rs:79-84 | a path without any of the four tokens comes back unchanged |
| Symlist.ExpandMatchesReference | src/symlist.rs:60-82 | on a path in which every `$` starts one of the four tokens, each token is replaced by its value (the environment value, or the home-based default), whatever the table order |
| Symlist.ExpandOrderIrrelevant | src/symlist.rs:79-82 | the hash-map iteration order does not show in the result |
| Symlist.ExpandTokenThenText | src/symlist.rs:60-82 | a token followed by plain text becomes the token's value followed by that text |
| Symlist.ExpandHomeExample | src/symlist.rs:160-164 | `$HOME/test_folder` becomes the home directory followed by `/test_folder` |
| Symlist.ExpandDataHomeDefault | src/symlist.rs:65-68 | an unset `XDG_DATA_HOME` becomes `<home>/.local/share` |
| Symlist.LinkPairs | src/symlist.rs:142-149 | one pair per entry, in file order, each `(package_root.join(source), expand_vars(target))` |
| Symlist.LinkPairsOrderFree | src/symlist.rs:142-149 | for targets made of text and `$KEY` tokens, the pairs are the same whatever order each entry's table is iterated in |
| Symlist.LoadSymlist | src/symlist.rs:135-150 | an unreadable file is `Io`, content the decoder rejects is `Ron`, and otherwise the result is `LinkPairs` of the entries |
| Symlist.LoadSymlistErrors | src/symlist.rs:139-140 | the result is a failure iff reading or decoding fails, and a missing file gives `Io` of kind `NotFound` |
| Installer.UnpackRejectsExtension | src/package/installer.rs:221-226 | an archive whose extension is not `uhp` is refused with `InvalidInput`, and the file system is untouched |
| Installer.ClearDirEmpties | src/package/installer.rs:237-240 | clearing leaves an empty directory at the unpack path |
| Installer.UnpackTarget | src/package/installer.rs:228-240 | a successful unpack had the `uhp` extension and yields `<home>/.uhpm/tmp/<stem>` |
| Installer.Unpack | src/package/installer.rs:220-251 | the calls one at a time give `UnpackRun` |
| Installer.LinkEntry | src/package/installer.rs:177-193 | the loop body: create the parent directory, remove an existing target, then link |
| Installer.CreateSymlinks | src/package/installer.rs:156-203 | the loop gives `CreateSymlinksRun` |
| Installer.CreateSymlinksWithoutSymlist | src/package/installer.rs:196-199 | a symlist that does not load gives no links, no error and no change |
| Installer.LinkOneOutcome | src/package/installer.rs:182-187 | once the parent directory exists, linking succeeds iff the target is absent or an existing non-directory (which is replaced); a dangling link at the target fails with `AlreadyExists` |
| Installer.LinkEachLinks | src/package/installer.rs:164-194 | every returned path is a link afterwards and is the target of some entry |
| Installer.LinkEachKeepsLinks | src/package/installer.rs:164-194 | a link that existed before the loop is still a link after it |
| Installer.LinkOneMakesDirectory | src/package/installer.rs:177-187 | a link whose directory is missing is made after `create_dir_all` creates that directory |
| Installer.LinkOneAdds | src/package/installer.rs:177-187 | one loop step adds only the link and directories on the way to the link's directory |
| Installer.LinkEachKept | src/package/installer.rs:164-194 | for independent entries (no source is a link, an entry's target, or a directory the loop may create), a successful loop returns the targets of exactly the entries whose source exists, in symlist order, whether or not the links' directories exist beforehand |
| Installer.LinkEachTargets | src/package/installer.rs:164-194 | for independent entries with distinct targets, each target of an existing source links to that source, every other existing path is unchanged, and every other new path is a directory on the way to some target's directory |
| Installer.PackageRootIsPkgPath | src/package/installer.rs:94-97 | the installer's package directory is the one `get_pkg_path` names |
| Installer.Install | src/package/installer.rs:64-139 | the calls one at a time give `InstallRun` on the file system and the catalog |
| Installer.InstallSameVersionSkips | src/package/installer.rs:82-92 | reinstalling the version `is_installed` reports succeeds after unpacking, with no move, no links and no catalog write |
| Installer.InstallFailureKeepsCatalog | src/package/installer.rs:64-139 | a failed install writes nothing to the catalog |
| Installer.InstallRecords | src/package/installer.rs:110-135 | a successful install adds one row and makes the version current; on a version change no path is recorded, and on a fresh install the links created are recorded |
| Installer.RecordedFacts | src/package/installer.rs:121-135 | `add_package_full` and then `set_current_version`: one row more, the version current, and nothing recorded when no links were made |
| Installer.PlaceContents | src/package/installer.rs:100-108 | after placing, the package directory holds exactly what the unpacked directory held, path for path |
| Installer.ClearedKeeps | src/package/installer.rs:100-104 | removing and re-creating the package directory leaves paths outside it as they were |
| Installer.RenameLands | src/package/installer.rs:107 | the rename moves each path below the unpacked directory to the same place below the package directory |
| Switcher.UnlinkEntry | src/package/switcher.rs:55-94 | the loop body deletes the target only when it is a link to the entry's source |
| Switcher.UnlinkAll | src/package/switcher.rs:53-95 | the deactivation loop gives `Unlink` |
| Switcher.SwitchVersion | src/package/switcher.rs:36-138 | the calls one at a time give `SwitchRun` on the file system and the catalog |
| Switcher.UnlinkOnlyRemoves | src/package/switcher.rs:53-95 | deactivation only deletes: every path left holds the node it held |
| Switcher.UnlinkOnlyOwned | src/package/switcher.rs:55-64 | every path deactivation deletes is an entry's target and was a link to that entry's source |
| Switcher.UnlinkRemovesOwned | src/package/switcher.rs:55-64 | a link owned by an entry whose source is a real file or directory is gone afterwards |
| Switcher.SwitchSymlistErrorAborts | src/package/switcher.rs:101-104 | a symlist error other than a missing file fails with `Symlist` before any change to the file system or the catalog |
| Switcher.SwitchSkipsDeactivation | src/package/switcher.rs:97-111 | a missing current-version directory or symlist skips deactivation |
| Switcher.SwitchMissingDir | src/package/switcher.rs:117-124 | a missing target directory fails with `MissingPackageDir(path)`, and current is not written |
| Switcher.SwitchWritesOnlyCurrent | src/package/switcher.rs:122-130 | only a successful switch writes the catalog, and it writes exactly the target as current |
| Switcher.SwitchActivatesTarget | src/package/switcher.rs:127-130 | a successful switch leaves the file system `create_symlinks` gives for the target directory after deactivation |
| Remover.RemoveAllFiles | src/package/remover.rs:88-99 | the loop gives `RemoveFiles` |
| Remover.Remove | src/package/remover.rs:59-106 | the calls one at a time give `RemoveRun`, and the files listed are the catalog's recorded paths |
| Remover.RemoveOneOnlyRemoves | src/package/remover.rs:90-98 | one recorded path removes at most that path and what lies below it |
| Remover.RemoveOnePresent | src/package/remover.rs:90-98 | a present recorded path is removed without error |
| Remover.RemoveFilesSucceeds | src/package/remover.rs:89-99 | the loop as written never fails, and only deletes |
| Remover.RemoveFilesKeepsDangling | src/package/remover.rs:91 | a dangling recorded link is skipped by the loop as written |
| Remover.RemoveFilesFixedClears | src/package/remover.rs:89-99 | the corrected loop never fails, only deletes, and leaves no recorded path behind |
| Remover.RemoveWith | src/package/remover.rs:59-106 | `remove`, as written or corrected, fails only with an I/O error (`DeleteError::Io` in the source) |
| Remover.RemoveNotInstalled | src/package/remover.rs:61-65 | without a version in the catalog, `remove` succeeds and changes nothing |
| Remover.RemoveOutcome | src/package/remover.rs:59-106 | `remove` fails iff the package directory exists and cannot be deleted; on success the name's rows are gone |
| Remover.RemoveFailureKeeps | src/package/remover.rs:76-102 | a failed removal changes neither the file system nor the catalog |
| Remover.DanglingLinkSurvives | src/package/remover.rs:76-99 | as written: a recorded link into the package directory survives a successful `remove`, the catalog forgets it, and linking onto it while its target is missing fails with `AlreadyExists` |
| Remover.RemoveFixedClearsRecorded | src/package/remover.rs:76-102 | corrected: a successful `remove` leaves no recorded path, and fails only when the directory cannot be deleted |
| Updater.RowUrl | src/package/updater.rs:63 | the url is what `get_package(name, version)` returns for the row |
| Updater.CheckRun | src/package/updater.rs:17-71 | `NotFound` when the catalog has no version of the package (the other outcomes are stated by `CheckFindsNewer`) |
| Updater.ScanRows | src/package/updater.rs:57-66 | the inner loop gives `RowsLatest` |
| Updater.FindLatest | src/package/updater.rs:42-67 | the loop over repositories gives `ReposLatest` |
| Updater.CheckForUpdate | src/package/updater.rs:17-71 | the method gives `CheckRun` |
| Updater.RowsLatestIsLast | src/package/updater.rs:61-64 | the scan of one index ends with the url of the last qualifying row |
| Updater.RowsLatestSource | src/package/updater.rs:57-66 | without a qualifying row the scan keeps what it had; otherwise it ends with the url of some qualifying row |
| Updater.ReposLatestSound | src/package/updater.rs:42-70 | when the scan finds nothing, no readable repository offers a row of the name newer than the installed version; a url it finds comes from such a row |
| Updater.MissingRepoIgnored | src/package/updater.rs:43-52 | a repository without `packages.db` changes nothing, wherever it stands |
| Updater.CheckFindsNewer | src/package/updater.rs:57-70 | a successful check names a row with a strictly newer version; `NoNewVersion` means no such row |
| Updater.LastRowWinsOverNewest | src/package/updater.rs:61-64 | as written: with rows v2 then v1 and installed < v1 < v2, `check_for_update` returns v1's url |
| Updater.LastRowWins | src/package/updater.rs:61-64 | the same over version texts as stored in the index |
| Updater.RowsNewestDominates | src/package/updater.rs:57-66 | corrected: the kept version is at least every version of the name among the rows scanned |
| Updater.CheckNewestIsNewest | src/package/updater.rs:38-70 | corrected: a successful check returns the url of a newer row whose version no row of the name in any readable repository exceeds |
| Updater.CheckNewestAgrees | src/package/updater.rs:38-70 | the corrected `check_for_update` fails exactly where the one as written fails, with the same error |
| Updater.InstallFoundEffect | src/package/updater.rs:96 | a downloaded url is installed with the installer's outcome; a failed download installs nothing |
| Updater.UpdateRun | src/package/updater.rs:91-100 | a check error is returned unchanged, with no change |
| Updater.SingleOrder | src/package/updater.rs:96 | a batch of one url is walked as that url when it was downloaded |
| Updater.UpdatePackage | src/package/updater.rs:91-100 | the method gives `UpdateRun` |
| Updater.UpdateFromFileInstalls | src/package/updater.rs:74-88 | updating from a file installs that very file, with nothing downloaded |
| Updater.UpdateFromFile | src/package/updater.rs:74-88 | the method gives `UpdateFromFileRun` |
| LegacyUpdater.LegacyUpdateRun | src/updater.rs:27-79 | `NotFound` when the catalog has no version of the package; a repository list that does not parse is a `Repo` error; `NoNewVersion`, which the older error type lacks, is never returned |
| LegacyUpdater.LegacyMatchesUpdate | src/updater.rs:42-77 | the older entry point does what the package updater does, except that finding nothing newer is a success with no change |
| LegacyUpdater.UpdatePackage | src/updater.rs:27-79 | the method gives `LegacyUpdateRun` |
| Repo.FirstMatch | src/repo.rs:134-138 | the earliest row with the name and version, or none when no row matches |
| Repo.LookupUrl | src/repo.rs:133-157 | fails with `NotFound(text)` iff no row matches; otherwise the url of the first match |
| Repo.ListRows | src/repo.rs:161-198 | one (name, version, url) triple per row, in table order |
| Repo.Search | src/repo.rs:201-224 | at most one result per row |
| Repo.SearchMembers | src/repo.rs:201-224 | a triple is found iff a row whose name contains the query produced it |
| Repo.SearchAppend | src/repo.rs:201-224 | search splits over concatenated tables, so results come in table order |
| Repo.SearchEverything | src/repo.rs:205 | the empty query lists the whole table |
| Repo.FirstMatchAppend | src/repo.rs:227-240 | appending a row changes the first match only when there was none |
| Repo.AddKeepsFirstUrl | src/repo.rs:227-240 | re-adding an existing (name, version) leaves the url returned unchanged; adding a missing one makes its url the answer |
| Repo.ListAfterAdd | src/repo.rs:227-240 | an added row appears once more at the end of the listing |
| Repo.RepoDB.constructor | src/repo.rs:73-130 | a new index has both tables empty |
| Repo.RepoDB.AddPackage | src/repo.rs:227-240 | appends a row to `packages`; `sources` is unchanged |
| Repo.RepoDB.AddSource | src/repo.rs:243-256 | appends a row to `sources`; `packages` is unchanged |
| Repo.LocalDir | src/package/updater.rs:43-46 | a leading `file://` is stripped, and any other url is kept |
| Repo.FromRepoPath | src/repo.rs:59-70 | a missing `<repo>/repository.db` is a configuration error; otherwise the index is opened |
| Repo.CachePathInjective | src/repo.rs:269-273 | distinct repository names get distinct cache paths |
| Repo.CachePaths | src/repo.rs:266-279 | one path per configured repository, `<home>/.uhpm/cache/repo/<name>/repository.db` |
| Repo.CacheRepo | src/repo.rs:266-279 | returns `CachePaths`, and the file system after each download from `<url>/repository.db` |
| Fetcher.DownloadRun | src/fetcher.rs:59-78 | a `file://` url resolves to the rest of the url with nothing written; a request failure is `Http`; a url without a file name is `Io`; a successful download is `<temp dir>/<file name>`, and reading it back gives the response body |
| Fetcher.DownloadPackage | src/fetcher.rs:59-78 | the method gives `DownloadRun` |
| Fetcher.FetchPackages | src/fetcher.rs:84-118 | the collection loop gives `FetchRun` |
| Fetcher.FetchResults | src/fetcher.rs:102-116 | the batch only adds urls of the list, never drops one, and maps each url to where it resolves |
| Fetcher.FetchIncludesLocal | src/fetcher.rs:60-61 | a `file://` url is always in the batch, mapped to the rest of the url |
| Fetcher.FetchOmitsFailed | src/fetcher.rs:110-113 | a remote url whose request fails is left out, and the batch goes on |
| Fetcher.InstallFetchedPackages | src/fetcher.rs:124-135 | the loop gives `InstallEach` |
| Fetcher.InstallEachSplit | src/fetcher.rs:128-134 | installing stops at the first failure: entries after a failing prefix never run |
| Fetcher.InstallEachFailure | src/fetcher.rs:130-132 | a failure names one of the urls and the installer's error |
| Fetcher.InstallEachSingle | src/fetcher.rs:128-134 | a batch of one installs exactly that archive, with the installer's outcome |
| Fetcher.EnumerateSingle | src/fetcher.rs:128 | a table with at most one key is walked as that key, or not at all |
| Fetcher.KeysInSomeOrder | src/fetcher.rs:128 | yields every key of the table, each once |
| Fetcher.FetchAndInstall | src/fetcher.rs:144-151 | `fetch_packages`, then `install_fetched_packages` on the downloaded table |
| Service.NameUrls | src/service.rs:51-56 | at most one url per row |
| Service.SelectionRun | src/service.rs:32-74 | a missing home directory is a `Config` error; a repository list that does not parse is a `Repository` error; a success is never an empty selection; the repository indexes are cached first |
| Service.RepoDbPath | src/service.rs:141-148 | a leading `file://` is dropped and `repository.db` appended |
| Service.RepoDbPathScheme | src/service.rs:141-148 | `file://<dir>` and `<dir>` name the same index |
| Service.PackageService.constructor | src/service.rs:15-17 | the service holds the given catalog |
| Service.PackageService.InstallFromRepo | src/service.rs:32-79 | an empty selection fails with `NotFound` and fetches nothing; otherwise the selected urls are fetched and installed |
| Service.PickRows | src/service.rs:51-62 | the inner loop gives `SelectRows` |
| Service.CollectUrls | src/service.rs:42-67 | the loop with its `found` flag gives `SelectFrom` |
| Service.SelectRowsWithVersion | src/service.rs:53-59 | with a version an index contributes exactly the url `get_package_url` gives, if any |
| Service.NameUrlsMembers | src/service.rs:51-56 | without a version an index contributes the url of every row of the name |
| Service.MissingIndexSkipped | src/service.rs:42-46 | a missing cached index changes nothing, wherever it stands |
| Service.SelectAllMembers | src/service.rs:42-67 | without a version a successful scan collects exactly the urls of the name's rows in the indexes that exist |
| Service.SelectVersionFirst | src/service.rs:53-66 | with a version a successful scan collects at most one url, from the first index holding the row |
| Cli.ParseTarget | src/cli.rs:220-229 | a target is accepted only as `name@version` with the second part a version; a bad version is reported with its text |
| Cli.TargetRoundTrip | src/cli.rs:220-229 | a name without `@` and any version come back from `name@version` |
| Cli.TargetNeedsOneAt | src/cli.rs:220-224 | a target without `@`, or with two, is a format error |
| Cli.ListOutput | src/cli.rs:194-203 | "No installed packages" for no rows; otherwise the header and then one line per row |
| Cli.RenderList | src/cli.rs:194-203 | the printing loop gives `ListOutput` |
| Cli.ListLineReadsBack | src/cli.rs:199-202 | for names and versions without spaces, each line gives back its row, current marker included |
| Cli.CollectPackageUrls | src/cli.rs:134-166 | the nested loops give `CliUrls` |
| Cli.CliFailurePersists | src/cli.rs:150-151 | an index error ends the command with that error |
| Cli.CliUrlsMembers | src/cli.rs:136-166 | a successful collection holds exactly the urls of the wanted rows of the readable repositories |
| Cli.VersionedUrlsAgree | src/cli.rs:153-163 | with `--version` every url collected from an index is the one `get_package` gives for that version |
| Cli.CliVersionedUrls | src/cli.rs:130-163 | with `--version v`, every collected url is the answer of `get_package(pkg, v)` in some repository whose `packages.db` exists and opens |
| Cli.MissingRepoSkipped | src/cli.rs:144-148 | a repository without `packages.db` contributes nothing, wherever it stands |
| Cli.RemoveAll | src/cli.rs:184-189 | the loop gives `RemoveEach`: each name is removed in turn |
| Cli.RemoveEachStep | src/cli.rs:184-189 | each name's removal runs on the state the earlier names left |
| Cli.RemoveFailureChangesNothing | src/cli.rs:186-188 | a failed removal does not stop the loop and changes nothing |
| Cli.RemoveEachNotInstalled | src/cli.rs:184-189 | names that are not installed are passed over without change |
| Cli.RemoveEachForgets | src/cli.rs:184-189 | after a name's removal succeeds the name has no version |
| Log.FormatOrdered | src/log.rs:10-27 | the loop gives `Formatted` |
| Log.FormatWithoutPlaceholder | src/log.rs:10-27 | a template without `{}` comes back unchanged |
| Log.FormatIgnoresExtra | src/log.rs:19-24 | arguments beyond the placeholders are ignored |
| Log.FormatMissingEmpty | src/log.rs:19-24 | with no arguments every `{}` is deleted |
| Log.FormatFillsInOrder | src/log.rs:11-26 | for pieces in which `{}` does not occur, the output is the pieces interleaved with the arguments in order, and nothing else |
| Log.FillRunsOut | src/log.rs:19-24 | once the arguments run out, the remaining pieces follow each other with nothing between them |
| Log.FormatRunsOut | src/log.rs:11-26 | with fewer arguments than placeholders, the first placeholders take the arguments in order and every later one becomes empty |
| Locale.FlattenOnlyLeaves | src/locale.rs:53-76 | flattening adds only keys that are dotted paths to string leaves |
| Locale.FlattenKeeps | src/locale.rs:53-76 | flattening never drops a key already stored |
| Locale.FlattenStoresLeaves | src/locale.rs:58-73 | every string leaf is stored under the dot-joined path of its string keys |
| Locale.FlattenKeys | src/locale.rs:53-76 | the keys after flattening are exactly the old keys and the dotted paths of the string leaves |
| Locale.FlattenValuesFromLeaves | src/locale.rs:58-73 | every stored text is the one already there or the text of a string leaf at that dotted path |
| Locale.FlattenStoresText | src/locale.rs:58-73 | a new key whose leaves all hold one text is stored with exactly that text |
| Locale.FlattenExamples | src/locale.rs:58-73 | a top-level string is stored under its key, and a nested one under `outer.inner` |
| Locale.Lang | src/locale.rs:16-18 | the first two characters of the locale (all of it when shorter), "en" when there is none |
| Locale.Locale.Initialize | src/locale.rs:16-47 | sets `lang`; the messages are the decoded document flattened into an empty table, or none when loading failed |
| Locale.Locale.Msg | src/locale.rs:79-84 | the stored message, or the key itself |
| Locale.Locale.FlattenValue | src/locale.rs:53-76 | the recursive walk inserts what `FlattenInto` gives and keeps `lang` |
| Errors.FromSwitch | src/error.rs:108-122 | both missing-package errors become `NotFound`, `Symlist` becomes `Parse`, and `Io`/`Db` keep their payload |
| Errors.FromUpdater | src/error.rs:124-135 | `NotFound` and `NoNewVersion` keep their names; `Io`, `Repo` and `Db` become `Io`, `Repository` and `Database` with the same payload; `Fetch` goes through the fetch conversion; the result is `Io` exactly for an updater or fetch I/O error |
| Errors.FromFetch | src/error.rs:137-145 | `Http`, `Io` and `Installer` become `Network`, `Io` and `Package` with the same payload |
| Errors.FromMetaParse | src/error.rs:147-154 | `Io` stays `Io`, and `Ron` becomes `Parse` with its message |
| Errors.FromRemove | src/error.rs:156-164 | `NotFound`, `Db` and `Io` become `NotFound`, `Database` and `Io` with the same payload |
| Errors.FromString | src/error.rs:166-170 | a string becomes `Package`, displayed as "Package error: " followed by the string |
| Errors.ConfigFromStr | src/error.rs:172-176 | a `&str` becomes `ConfigError::NotFound` |
| Errors.RemoveMessageKept | src/error.rs:156-164 | conversion keeps a removal error's message, except that "IO error" is shown as "I/O error" |
| Errors.UpdaterMessageKept | src/error.rs:124-135 | conversion keeps an updater error's message, except for `Io` and `Fetch` |
| Errors.UpdaterFetchUnwrapped | src/error.rs:131 | a fetch error inside an updater error loses the "Fetch error: " wrapper |
| Errors.SwitchNotFoundMessages | src/error.rs:113-119 | the messages the two `NotFound` conversions produce |
| Errors.SwitchSymlistMessage | src/error.rs:116 | a symlist failure becomes a parse error carrying the symlist error's message |
| Fs.Resolve | src/package/installer.rs:172 | `Path::exists` follows links: a resolved node is never a link, and a missing path resolves to nothing |
| Fs.DanglingLink | src/package/remover.rs:91 | a link whose target is missing is present but does not exist |
| Fs.ReadToString | src/package.rs:126 | reading succeeds iff the path resolves to a file, and gives its content |
| Fs.ReadLink | src/package/switcher.rs:59 | succeeds iff the path is a link, and gives its target |
| Fs.TreeRemoveFile | src/package/installer.rs:183 | removes a file or link, never a directory, and nothing else |
| Fs.TreeRemoveDirAll | src/package/installer.rs:102 | removes a directory with everything below it, or a link as a link |
| Fs.TreeCreateDirAll | src/package/installer.rs:104 | afterwards the path is a directory and only ancestor directories are added; an existing directory is left alone; a non-directory at the path is `AlreadyExists`; a path below an existing non-directory is `NotADirectory` |
| Fs.Blocker | src/package/installer.rs:177-180 | the ancestor nearest the root that is not a directory, where `mkdir` stops with ENOENT or ENOTDIR |
| Fs.CreateUnderFile | src/package/installer.rs:177-180 | `create_dir_all` below a regular file fails with `NotADirectory` |
| Fs.TreeSymlink | src/package/installer.rs:187 | succeeds iff nothing is at the link path, otherwise `AlreadyExists` |
| Fs.TreeWrite | src/fetcher.rs:75 | `fs::write` opens through links: it succeeds iff the chain of links ends at a missing path or a file, creates or truncates that file and keeps the links; a directory there is `IsADirectory` and too many links is ELOOP |
| Fs.WriteTarget | src/fetcher.rs:75 | the path a write reaches is never a link, is the path itself when no link is there, and holds the node `Path::exists` resolves to |
| Fs.WriteThenRead | src/fetcher.rs:75 | after a successful write, `fs::read_to_string` of the same path, through any links, gives the text written |
| Fs.TreeRename | src/package/installer.rs:107 | the source subtree replaces whatever was at the destination |
| Fs.RenameMoves | src/package/installer.rs:107 | the node at `from + rest` stands at `to + rest` afterwards |
| Fs.FileSystem.RemoveFile | src/package/installer.rs:183 | the tree changes as `TreeRemoveFile` says, or not at all on error |
| Fs.FileSystem.RemoveDirAll | src/package/installer.rs:102 | the tree changes as `TreeRemoveDirAll` says, or not at all on error |
| Fs.FileSystem.CreateDirAll | src/package/installer.rs:104 | the tree changes as `TreeCreateDirAll` says, or not at all on error |
| Fs.FileSystem.Symlink | src/package/installer.rs:187 | the tree changes as `TreeSymlink` says, or not at all on error |
| Fs.FileSystem.Rename | src/package/installer.rs:107 | the tree changes as `TreeRename` says, or not at all on error |
| Fs.FileSystem.Write | src/fetcher.rs:75 | the tree changes as `TreeWrite` says (the file at the end of any links is written, and the links stay), or not at all on error |
| Paths.Join | src/package/installer.rs:165 | an absolute right operand replaces the base; otherwise one separator goes between |
| Paths.JoinTwice | src/package/installer.rs:165 | joining an already-rooted source onto the package root again changes nothing |
| Paths.FileName | src/fetcher.rs:65-67 | the last component, never empty, `.`, `..` or containing `/` |
| Paths.FileNameOfJoin | src/package/installer.rs:235 | joining a plain name onto a directory gives a path with that file name |
| Paths.Extension | src/package/installer.rs:221 | an extension exists only for a path with a file name |
| Paths.FileStem | src/package/installer.rs:231-234 | the stem followed by `.` and the extension is the file name |
| Paths.Parent | src/package/installer.rs:177 | trailing separators and `/.` are trimmed first; a parent is a strict prefix with nothing left to trim (or the root), a path of one component has the empty parent, and only the root and the empty path have none |
| Paths.ParentIgnoresTrailing | src/package/installer.rs:177 | a trailing `/` or `/.` does not change the parent |
| Paths.ParentOfJoin | src/package/installer.rs:177 | the parent of a plain name joined onto a directory is that directory |
| SemVer.LessIrreflexive | src/package/updater.rs:61 | version precedence is irreflexive |
| SemVer.LessTransitive | src/package/updater.rs:61 | version precedence is transitive |
| SemVer.LessTotal | src/package/updater.rs:61 | two distinct versions are ordered one way or the other |
| SemVer.ParseOrZero | src/db.rs:211 | the parsed version, or 0.0.0 when the text does not parse |
| SemVer.ParseToString | src/db.rs:109 | the stored version text parses back to the version |
| SemVer.ToStringParse | src/package/updater.rs:59 | parsed text is canonical: rendering the version gives the text back |
| SemVer.ParseIffToString | src/package/updater.rs:59-60 | text parses to a version iff it is that version's rendering |

## Left out

- Archive extraction: gzip and tar handling belong to the `flate2` and `tar` crates. It is the `extract` parameter of `Machine.Host`, and `Installer.UnpackRun` calls it after opening the archive.
- Text codecs: the TOML, RON and JSON decoders are parameters. `Package::from_toml_file`, `save_to_toml`, `parse_repos`, `RepoInfo::parse_from_ron`, `RepositoryInfo::load_from_path` and `save_template` are file reads or writes around those codecs. They are not modelled. `parse_repos` unwraps its decoder, so the updater and service models take its result as an argument.
- SQL engine: both the catalog and the repository index are in-memory tables. `Repo.Search` treats `LIKE '%q%'` as a case-sensitive substring test. SQLite's ASCII case folding and the wildcards `%` and `_` inside the query are not modelled.
- Repo.Search: states only the substring rule, which is weaker than `LIKE`, for the reason above.
- Catalog.PackageDB.GetInstalledFiles: the order of the returned paths is not specified, because SQLite promises none.
- Network: the HTTP client is a function from url to body or error.
- Fetcher.FetchPackages: the concurrent downloads of `FuturesUnordered` are modelled one after another in list order. With duplicate urls whose downloads differ, a different completion order could keep a different result.
- Hash-map iteration orders are parameters: `expand_vars`'s table, the repository table and the downloaded-url table. The lemmas show where the order does not matter (`Symlist.ExpandOrderIrrelevant`, `Symlist.LinkPairsOrderFree`, `Fetcher.EnumerateSingle`). `Machine.Valid` states that every order lists the four variables once; the installer and switcher methods accept any order function and do not require it.
- Switcher.SwitchVersion: `get_package_by_version` and `get_current_package` are not in the catalog source, and the code unwraps both. They become a precondition (a row of the target version exists) and a parameter (the current version). The panic when either is missing is not modelled.
- Mocks.MockDB.IsInstalled: requires every stored text to parse, since the mock unwraps the parse and panics otherwise.
- Installer.Install: the code unwraps `is_installed`, `add_package_full`, `set_current_version` and `dirs::home_dir()`. In-memory catalog calls cannot fail, and the home directory is a field of `Machine.Host`, so those panics are not modelled.
- Parent directories are not checked. Creating a file, link or directory whose parent is missing succeeds, except where `create_dir_all` makes the ancestors; only `create_dir_all` reports `NotADirectory` for an ancestor that is not a directory.
- Remover.Remove: its errors use `RemoveError`, which adds `RemoveNotFound` to the two cases of the `DeleteError` declared in src/package/remover.rs:18-24; only `RemoveIo` is ever produced, so the extra case is unused.
- LegacyUpdater.LegacyUpdateRun: its errors use the package updater's `UpdaterError` rather than the older one declared in src/updater.rs:8-24, which lacks `NoNewVersion` (never returned here) and prints `Repo error` and `DB error` where the newer one prints `Repository error` and `Database error`; the display texts of the older type are not modelled.
- Fs.Resolve: paths are the keys of the tree as written. Only the last component is resolved through links; a link to a directory in the middle of a path is not followed (with a link `a` to `b` and a file `b/f`, `Exists("a/f")` is false where `Path::exists` is true). Separators are not normalised, so `a//b`, `a/./b`, `a/b/` and `link/b` are keys distinct from `a/b` (in particular a link path ending in `/` is created as its own key, where `symlink` fails with ENOENT). `Paths.Parent` does trim as `Path::parent` does.
- Permissions, `ENOSPC` and other operating-system failures are not modelled beyond the error kinds each operation can return.
- SemVer.Parse: pre-release and build metadata are not modelled. It rejects text such as `1.0.0-rc1`, which `semver::Version::parse` accepts. So `SemVer.ParseOrZero` gives 0.0.0 for such text where the code keeps the pre-release version, and `Cli.ParseTarget` reports `BadVersion` for `pkg@1.0.0-rc1`, which the code accepts.
- `src/self_remove.rs`, `src/bin/uhpmk.rs`, `src/config.rs`, `src/lib.rs` and `src/main.rs` are not part of this model.
- The `clap` argument parsing and shell completions of `src/cli.rs` are left out. The `Install`-from-file and `Update` branches only call the installer and the updater, which are modelled.
- Logging: the `tracing` macros and `fmt_debug` only print. `sys_locale::get_locale` asks the system, and the file read and RON decoding of `src/locale.rs`'s `load_messages` are done by outside code. So the locale and the decoded document are parameters of `Locale.Locale.Initialize`; the flattening that follows them is modelled.
- Locale.FlattenValuesFromLeaves: when two leaves with different texts share a dotted path, it states only that the stored text is one of theirs, not that it is the later one in the decoder's entry order.
- `Mutex` and `Arc` sharing in the mocks is modelled as plain sequential fields.
- The `describe` parameter of the fetcher and updater stands for the `Debug` text of an installer error, whose format belongs to the compiler's derive.

## Findings

| source | as written | input that shows it | evidently intended | confidence | as-written member | corrected member |
|---|---|---|---|---|---|---|
| src/package/remover.rs:76-99 | the package directory is deleted first; then each recorded file is deleted only if `Path::exists` is true, and `exists` follows links | a package installed fresh, whose recorded links point into `~/.uhpm/packages/<name>-<version>`; after the directory is gone the links dangle, `exists` is false, and they are never deleted, while the catalog forgets them; installing another version of the package then fails at `symlink` with `AlreadyExists`, since its link targets are the same paths while the old package directory stays missing (reinstalling the same version recreates that directory, so the link resolves again and is replaced) | every recorded link is deleted (a check that does not follow links, such as `symlink_metadata`) | high, not executed | Remover.DanglingLinkSurvives | Remover.RemoveFixedClearsRecorded |
| src/package/updater.rs:57-64 | every row newer than the installed version overwrites `latest_url`; `latest_version` is set but never compared | installed 1.0.0, and one index listing 3.0.0 then 2.0.0: `check_for_update` returns the url of 2.0.0 | the newest offered version is returned (compare with `latest_version` before overwriting) | high, not executed | Updater.LastRowWinsOverNewest | Updater.CheckNewestIsNewest |

The imperative methods (`Remover.Remove`, `Updater.CheckForUpdate`) and
the callers built on them follow the code as written. `Remover.RemoveFixedRun`
and `Updater.CheckNewestRun` are the corrected definitions. The intended
properties are proved about them, and `Updater.CheckNewestAgrees` relates the
two updater rules.
