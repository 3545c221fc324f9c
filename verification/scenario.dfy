/**
 * An image of one layer holding an installed package database and an
 * os-release file, scanned and then matched against a feed that lists a fix
 * for one of its packages.
 */
module Scenario {
  import opened Wrappers
  import opened GoBytes
  import opened ApkDb
  import opened OsRelease
  import opened Scanner
  import opened Matcher

  const Musl: AlpinePackage := AlpinePackage("musl", "1.2.3-r0")
  const Busybox: AlpinePackage := AlpinePackage("busybox", "1.35.0-r1")

  /** The quoted version, as the os-release file spells it. */
  const QuotedVersion: Bytes := "\"3.18.0\""

  const OsReleaseText: Bytes := "NAME=\"Alpine Linux\"" + LineSeparator + (VersionIdPrefix + QuotedVersion)

  const ImageLayer: Layer :=
    Fetched([Header(Entry(InstalledPath, DbText([Musl, Busybox]))),
             Header(Entry(OsReleasePath, OsReleaseText))])

  const Feed: seq<SecDBPackage> := [SecDBPackage(SecDBPkg("musl", map["1.2.3-r0" := ["CVE-2023-0001"]]))]

  const DbEntry: Entry := Entry(InstalledPath, DbText([Musl, Busybox]))
  const ReleaseEntry: Entry := Entry(OsReleasePath, OsReleaseText)

  /** The scan finds both packages, in database order, and keeps the quotes
      of the version; the match reports exactly one vulnerability, for musl. */
  lemma EndToEnd()
    ensures Scan([ImageLayer]) == Ok(AlpineReport([Musl, Busybox], QuotedVersion))
    ensures MatchAll(Scan([ImageLayer]).value.packages, Feed) == [Vulnerability(["CVE-2023-0001"], "musl", [])]
  {
    ScenarioEntries();
    ScenarioPackages();
    ScenarioVersion();
    ScanMeaning([ImageLayer]);
    ScenarioMatch();
  }

  lemma ScenarioEntries()
    ensures AllEntries([ImageLayer]) == [DbEntry, ReleaseEntry]
  {
    var items := ImageLayer.items;
    assert items[1..][1..] == [];
    assert Readable(items) == [DbEntry, ReleaseEntry];
    AllEntriesOne(items);
  }

  lemma DistinctPaths()
    ensures InstalledPath != OsReleasePath
  {
    assert |InstalledPath| != |OsReleasePath|;
  }

  lemma ScenarioDb()
    ensures InstalledDb(DbEntry.payload) == Ok([Musl, Busybox])
  {
    assert Storable(Musl) && Storable(Busybox);
    DbTextRoundTrip([Musl, Busybox]);
  }

  lemma ScenarioPackages()
    ensures !Panics([DbEntry, ReleaseEntry])
    ensures DbPackages([DbEntry, ReleaseEntry]) == [Musl, Busybox]
  {
    ScenarioDb();
    DistinctPaths();
    var entries := [DbEntry, ReleaseEntry];
    assert entries[..1] == [DbEntry] && [DbEntry][..0] == [];
    assert !PanicsAt(entries[0]) && !PanicsAt(entries[1]);
    assert Found(DbEntry) == [Musl, Busybox] && Found(ReleaseEntry) == [];
    assert DbPackages([DbEntry]) == [] + Found(DbEntry);
    assert DbPackages(entries) == DbPackages([DbEntry]) + Found(ReleaseEntry);
  }

  lemma ScenarioVersion()
    ensures ReleaseVersion([], [DbEntry, ReleaseEntry]) == QuotedVersion
  {
    DistinctPaths();
    var entries := [DbEntry, ReleaseEntry];
    assert entries[..1] == [DbEntry] && [DbEntry][..0] == [];
    assert ReleaseVersion([], [DbEntry]) == [];
    assert forall k :: 0 <= k < |QuotedVersion| ==> !IsSpace(QuotedVersion[k]);
    LastLineSetsVersion("NAME=\"Alpine Linux\"", QuotedVersion, []);
  }

  lemma ScenarioMatch()
    ensures MatchAll([Musl, Busybox], Feed) == [Vulnerability(["CVE-2023-0001"], "musl", [])]
  {
    MatchAllAppend([Musl], [Busybox], Feed);
    assert [Musl] + [Busybox] == [Musl, Busybox];
    MatchSingle(Musl, Feed[0].pkg);
    MatchSingle(Busybox, Feed[0].pkg);
    assert Busybox.name != "musl" by {
      assert Busybox.name[0] != "musl"[0];
    }
  }
}
