# toy-scanner core, modelled in Dafny

This project models the two pieces of logic in toy-scanner's `main.go`.

- `AlpineScanner` turns the layers of an Alpine container image into an inventory (`AlpineReport`):
  - It fetches every layer of the manifest, and aborts if one cannot be fetched.
  - It walks each layer's tar entries in order, stopping at the tar reader's first error.
  - It parses every entry named exactly `lib/apk/db/installed` as an apk package database. Records are separated by a blank line; a `P` line sets the name and a `V` line the version.
  - It parses every entry named exactly `etc/os-release` with `fmt.Sscanf(line, "VERSION_ID=%s", &version)`.
  - Packages are appended across all layers without deduplication. The version is a single variable: each accepted `VERSION_ID` line overwrites it.
- The join loop of `AlpineMatcher` pairs every installed package with every entry of an already decoded Alpine security database feed (`SecDBPkg`). It reports a `Vulnerability` when the names are equal and the installed version is an exact key of `secfixes`.

The Go program mutates local slices and strings inside loops. Each loop is therefore a Dafny `method` with loop invariants, proved equal to a pure specification function. The properties the program promises are lemmas about those functions.

Files and modules:

- `wrappers.dfy` (`Wrappers`): `Option` and `Result`.
- `gobytes.dfy` (`GoBytes`): Go byte strings, plus `bytes.Index`, `bytes.Split` and `bytes.Join` from Go's `bytes` package, and `strings.Contains`.
- `apkdb.dfy` (`ApkDb`): the installed-database parser.
- `osrelease.dfy` (`OsRelease`): the os-release parser and the model of `Sscanf`.
- `scanner.dfy` (`Scanner`): `AlpineScanner` and the properties of the whole scan.
- `matcher.dfy` (`Matcher`): the join loop of `AlpineMatcher`.
- `scenario.dfy` (`Scenario`): one image scanned and matched from end to end.

Modelling choices:

- A Go byte is a character with code below 256. A Go string or `[]byte` is a sequence of such bytes.
- A layer is `Fetched(items)` or `Unavailable(digest)`. `items` is what successive calls to the tar reader's `Next` return: an entry (name and the bytes `io.ReadAll` gives for it) or an error. The end of the sequence stands for `io.EOF`.
- `line[2:]` on a one-byte `P` or `V` line is a Go runtime panic, and the program has no `recover`. The model makes it an explicit error, `SliceOutOfRange`. `AlpineScanner` then yields `Err(ParserPanic)` and no report.
- A layer that cannot be fetched aborts the whole scan (main.go:68-75); the layer is not skipped.
- `%s` keeps the quotes of `VERSION_ID="3.18.0"`, so the version is `"3.18.0"` with its quotes.

## Model

| member | source | states |
|---|---|---|
| GoBytes.IndexFrom | main.go:90 | the index found is an occurrence of the separator at or after the start, and no earlier one exists (leftmost search of `bytes.Split`) |
| GoBytes.Contains | main.go:120 | `strings.Contains`: the leftmost search finds an occurrence; ContainsWitness shows that any occurrence makes it hold, and the contract of IndexFrom gives the converse |
| GoBytes.Split | main.go:90 | `bytes.Split` with a non-empty separator yields at least one piece, and the pieces joined with the separator give back the input |
| GoBytes.SplitPieces | main.go:93 | no piece contains the separator, and every piece but the last is delimited, so the leftmost search stops at its end |
| GoBytes.SplitJoin | main.go:90 | splitting a join of delimited pieces gives back exactly those pieces |
| ApkDb.ApplyLine | main.go:98-106 | one pass of the `switch`: it fails exactly on a one-byte `P` or `V` line; a `P` line sets the name and a `V` line the version to the line without its two first bytes; any other line, the empty one included, changes nothing |
| ApkDb.RecordFields | main.go:95-107 | the fields after the line loop, from two empty strings; the definition ParseRecord is proved equal to through RecordPackages, characterised by RecordFieldsLastTagWins and RecordFieldsErrExtends |
| ApkDb.RecordPackages | main.go:93-111 | the packages one record contributes; the definition ParseRecord is proved equal to, with at most one complete package (ParseRecord's contract) |
| ApkDb.InstalledDb | main.go:90-112 | the packages of one database payload; the definition ParseInstalled is proved equal to, characterised by InstalledDbComplete, RecordsPackagesAppend and DbTextRoundTrip |
| ApkDb.ParseRecord | main.go:92-111 | the loop over one record's lines equals `RecordPackages`: at most one package, only a complete one, or the panic of a one-byte `P`/`V` line |
| ApkDb.ParseInstalled | main.go:87-112 | the record loop over one database payload equals `InstalledDb`, and every package it yields has a non-empty name and version |
| ApkDb.RecordFieldsErrExtends | main.go:101-105 | once a line of a record panics, the record's parse fails whatever lines follow |
| ApkDb.RecordFieldsLastTagWins | main.go:97-106 | a record fails exactly when one of its lines is a one-byte `P` or `V` line; otherwise the name is the last `P` line without its two first bytes and the version the last `V` line, and empty lines and other tags change nothing |
| ApkDb.RecordsPackagesComplete | main.go:109-111 | at most one package per record, each with a non-empty name and version |
| ApkDb.InstalledDbComplete | main.go:90-112 | a database payload yields at most one package per blank-line separated record, all complete |
| ApkDb.RecordsPackagesAppend | main.go:92-112 | records contribute in record order: the packages of `a + b` are those of `a` then those of `b`, and the parse fails exactly when one part fails |
| ApkDb.RecordTextParses | main.go:93-111 | the record `P:<name>\nV:<version>` yields exactly that package |
| ApkDb.DbTextRoundTrip | main.go:87-112 | a database written as one `P:`/`V:` record per package, records joined by a blank line, parses back to exactly those packages in order |
| OsRelease.SkipSpace | main.go:121 | fmt's SkipSpace drops only white space that is not a newline, and what it leaves starts with a non-space or a newline |
| OsRelease.SkipSpaceSuffix | main.go:121 | what SkipSpace leaves is the tail of its input |
| OsRelease.Token | main.go:121 | the word `%s` reads has no white space and ends at white space or at the end of the line |
| OsRelease.TokenPrefix | main.go:121 | the word `%s` reads is the head of the text after the skipped spaces |
| OsRelease.ScanVersionId | main.go:121 | Sscanf succeeds only on a line that starts with `VERSION_ID=`, and then stores a non-empty word without white space |
| OsRelease.ScanVersionIdWord | main.go:121 | `VERSION_ID=`, spaces, a word, then nothing or white space: Sscanf stores exactly the word, quotes included |
| OsRelease.ScanVersionIdFails | main.go:121 | Sscanf fails, leaving the version as it was, on a line without the `VERSION_ID=` prefix or with only white space after it |
| OsRelease.GuardRedundant | main.go:120-122 | the `strings.Contains(line, "VERSION_ID")` guard never changes the outcome: every line Sscanf accepts contains it |
| OsRelease.AfterLine | main.go:120-122 | one pass of the line loop: the version Sscanf stores, or the old one when the guard or Sscanf rejects the line; GuardRedundant shows the guard never decides |
| OsRelease.OsReleaseVersion | main.go:117-123 | the version after the loop over one payload's lines; the definition ParseOsRelease is proved equal to, characterised by LastVersionIdWins and LastLineSetsVersion |
| OsRelease.ParseOsRelease | main.go:114-124 | the line loop equals `OsReleaseVersion`, and the version is either unchanged or a non-empty word without white space |
| OsRelease.LastVersionIdLine | main.go:119-123 | the line found is one Sscanf accepts |
| OsRelease.LastVersionIdLineIsLast | main.go:119-123 | no line after the one found is accepted, and with none found no line is accepted at all |
| OsRelease.LastVersionIdWins | main.go:117-123 | the version after the loop is the word of the last accepted `VERSION_ID=` line, or the previous version when no line is accepted |
| OsRelease.SplitSnoc | main.go:117 | appending a newline and a line without newline to a payload appends that line to its lines |
| OsRelease.LastLineSetsVersion | main.go:114-124 | a payload whose last line is `VERSION_ID=<word>` sets the version to the word, whatever precedes it and whatever the version was |
| Scanner.FirstUnavailable | main.go:67-75 | no unavailable digest is found exactly when every layer could be fetched |
| Scanner.FetchLayers | main.go:67-75 | the fetch loop stops at the first layer that cannot be fetched, with its digest; otherwise it yields the contents of every layer |
| Scanner.Step | main.go:87-124 | one entry: an entry with another name leaves the report unchanged; only the database entry touches the packages, because the inner `version` shadows the outer one; only os-release touches the version; and only a database panic fails |
| Scanner.ScanEntry | main.go:87-124 | the body of the entry loop equals `Step` |
| Scanner.Readable | main.go:85-86 | the entries the tar reader yields before its first error or the end; at most one per item, and ReadableStopsAtError shows nothing after an error is read (main.go:125) |
| Scanner.ScanEntries | main.go:79-126 | the walk over the readable entries, from a given report; the definition ScanLayer and WalkLayers are proved equal to, characterised by ScanEntriesSeparates, ScanEntriesAppend and OtherNamesIgnored |
| Scanner.ScanLayer | main.go:85-126 | the entry loop of one layer equals `ScanEntries` over the entries read before the tar reader's first error |
| Scanner.WalkLayers | main.go:79-128 | the loop over the fetched layers carries packages and version from layer to layer and equals `ScanEntries` over all their readable entries |
| Scanner.Scan | main.go:66-134 | the result of `AlpineScanner`; the definition the method is proved equal to, characterised by ScanMeaning, ScanAppend and ScanAbortsOnUnavailable |
| Scanner.AlpineScanner | main.go:66-134 | `AlpineScanner` equals `Scan`, and every reported package has a non-empty name and version |
| Scanner.ScanEntriesSeparates | main.go:77-132 | the walk fails exactly when a database parse panics; otherwise the packages are the database packages appended to the start in entry order, and the version is what the os-release entries alone leave |
| Scanner.OtherNamesIgnored | main.go:87-114 | entries whose name is neither exact path contribute nothing |
| Scanner.ReleaseVersionUntouched | main.go:114-124 | without an os-release entry the version stays as it was |
| Scanner.LastOsReleaseWins | main.go:114-124 | the last os-release entry decides the version, from the version left by the entries before it |
| Scanner.ScanMeaning | main.go:66-134 | the scan fails exactly when a layer is unavailable or a database parse panics; otherwise it reports the database packages of all layers and the version left by os-release entries, starting from the empty string |
| Scanner.ScanWithoutOsRelease | main.go:78 | an image without an os-release entry reports the empty version |
| Scanner.ScanComplete | main.go:109-111 | every package a scan reports has a non-empty name and version |
| Scanner.ScanAbortsOnUnavailable | main.go:68-75 | a layer that cannot be fetched, after layers that could, aborts the scan with its digest whatever the other layers hold |
| Scanner.ReadableStopsAtError | main.go:85-86 | nothing after the tar reader's first error in a layer is read |
| Scanner.ScanSkipsRestOfLayer | main.go:79-126 | a read error skips the rest of its layer, and the layers after it are still scanned |
| Scanner.ScanAppend | main.go:77-133 | scanning `a + b` appends `b`'s packages to `a`'s without deduplication, and `b`'s os-release entries overwrite `a`'s version |
| Scanner.ScanEntriesAppend | main.go:79-126 | walking `a + b` is walking `a`, then walking `b` from the report `a` left |
| Scanner.AllEntriesAppend | main.go:79 | the entries of the layers `a + b` are those of `a`, then those of `b` |
| Matcher.MatchPackage | main.go:192-200 | one package against the feed gives at most one vulnerability per feed entry |
| Matcher.MatchAll | main.go:191-202 | the vulnerabilities of all installed packages; the definition AlpineMatcher is proved equal to, characterised by MatchAllMembers and MatchAllAppend |
| Matcher.AlpineMatcher | main.go:191-204 | the nested loops yield `MatchAll` of the report's packages and the feed |
| Matcher.MatchPackageMembers | main.go:192-200 | a package's vulnerabilities are exactly those of feed entries that carry its exact name and list its exact version: the mapped CVEs, the package name and an empty version |
| Matcher.MatchAllMembers | main.go:191-201 | a vulnerability is reported exactly when some installed package and some feed entry match on exact name and version key |
| Matcher.MatchPackageAppend | main.go:192 | results come in feed order, so a feed entry listed twice is reported twice |
| Matcher.MatchAllAppend | main.go:191 | results come in package order, so a package installed twice is reported twice |
| Matcher.MatchSingle | main.go:193-198 | one package against one feed entry: one vulnerability exactly when the names agree and the version is a key, none otherwise |
| Matcher.MuslExample | main.go:193-198 | `musl 1.2.3-r0` against a fix listed only for `1.2.4-r0` gives nothing; against one listed for `1.2.3-r0` it gives one vulnerability with that CVE |
| Scenario.EndToEnd | main.go:66-134 | an image of one layer holding a two-record database and `VERSION_ID="3.18.0"` scans to both packages and the quoted version; against a feed with a musl fix it yields exactly one vulnerability, for musl |

## Left out

- `main` is left out: flag parsing, `name.ParseReference`, `remote.Image`, `Manifest`, printing and `os.Exit` (main.go:21-54). These are command-line handling, registry I/O and process control.
- `LayerByDigest` and the registry behind it (main.go:69) are left out. Each layer is given as fetched or unavailable, and the error's text is not modelled (main.go:72).
- `layer.Uncompressed` and the `archive/tar` reader (main.go:81-85) are foreign decompression and decoding. A layer is the sequence of results its reader's `Next` returns. When `Uncompressed` fails, the code discards the error and passes the nil reader to `tar.NewReader` (main.go:83). The first `Next` (main.go:85) then dereferences it and the program panics. The model has no layer that is fetched but cannot be decompressed, so this crash is not modelled.
- `io.ReadAll` errors (main.go:88, main.go:115) are discarded by the code. A payload is whatever bytes were read.
- `AlpineMatcher` outside the join loop is left out (main.go:156-189):
  - `semver.MajorMinor` is a foreign library call.
  - The feed URL, the HTTP request, the status check and `json.Unmarshal` are network and decoding. The nil dereference of `res` when the request fails (main.go:173) is not modelled either.
  - The matcher is given the decoded `packages` array of the feed.
- OsRelease.ScanVersionId: decodes bytes, not UTF-8, because the model works on bytes. fmt treats Unicode white space such as U+0085 and U+00A0 as spaces. It also rewrites invalid UTF-8 in the word as U+FFFD. Only the ASCII white space (tab, newline, vertical tab, form feed, carriage return, space) is modelled.
- Matcher.AlpineMatcher: Dafny values are immutable, so "the inputs are not modified" holds by construction and is not stated as a lemma.
