/**
 * `AlpineScanner`: fetches every layer of the image, then walks each layer's
 * tar entries in order, feeding `lib/apk/db/installed` to the package
 * database parser and `etc/os-release` to the os-release parser, and
 * collects one report for the whole image. The registry client and the tar
 * reader are outside the model: a layer is given as the results its tar
 * reader's `Next` would return.
 */
module Scanner {
  import opened Wrappers
  import opened GoBytes
  import opened ApkDb
  import opened OsRelease

  /** A tar entry: its header name and the bytes `io.ReadAll` returns for it. */
  datatype Entry = Entry(name: Bytes, payload: Bytes)

  /** One result of the tar reader's `Next`: an entry, or an error, which
      ends the walk of the layer. The end of the sequence stands for `io.EOF`. */
  datatype TarItem = Header(entry: Entry) | ReadError

  /** A layer of the manifest: fetched by digest, or not retrievable. */
  datatype Layer = Fetched(items: seq<TarItem>) | Unavailable(digest: Bytes)

  /** `AlpineReport`: the packages found and the OS version. */
  datatype AlpineReport = AlpineReport(packages: seq<AlpinePackage>, version: Bytes)

  /** Why `AlpineScanner` produces no report: a layer could not be fetched,
      or the package database parser panicked. */
  datatype ScanError = LayerUnavailable(digest: Bytes) | ParserPanic

  const EmptyReport: AlpineReport := AlpineReport([], [])

  // ---------------------------------------------------------------------
  // The specification of the walk.
  // ---------------------------------------------------------------------

  /** The digest of the first layer that cannot be fetched. */
  function FirstUnavailable(layers: seq<Layer>): (r: Option<Bytes>)
    ensures r.None? <==> forall k :: 0 <= k < |layers| ==> layers[k].Fetched?
    decreases |layers|
  {
    if layers == [] then None
    else if layers[0].Unavailable? then Some(layers[0].digest)
    else FirstUnavailable(layers[1..])
  }

  /** The entries the tar reader yields before its first error. */
  function Readable(items: seq<TarItem>): (r: seq<Entry>)
    ensures |r| <= |items|
    decreases |items|
  {
    if items == [] || items[0].ReadError? then []
    else [items[0].entry] + Readable(items[1..])
  }

  /** The readable entries of several layers, layer after layer. */
  function Concat(layerItems: seq<seq<TarItem>>): seq<Entry>
    decreases |layerItems|
  {
    if layerItems == [] then []
    else Concat(layerItems[..|layerItems| - 1]) + Readable(layerItems[|layerItems| - 1])
  }

  /** The tar contents of the layers, with nothing for a layer not fetched. */
  function Contents(layers: seq<Layer>): (r: seq<seq<TarItem>>)
    ensures |r| == |layers|
    ensures forall k :: 0 <= k < |layers| && layers[k].Fetched? ==> r[k] == layers[k].items
  {
    seq(|layers|, k requires 0 <= k < |layers| => if layers[k].Fetched? then layers[k].items else [])
  }

  /** Every entry the scanner visits, in layer order and then entry order. */
  function AllEntries(layers: seq<Layer>): seq<Entry>
  {
    Concat(Contents(layers))
  }

  /** One pass of the entry loop. Only the installed database touches the
      packages, only os-release touches the version, and any other entry
      leaves the report as it was. */
  function Step(r: AlpineReport, e: Entry): (s: Result<AlpineReport, DbError>)
    ensures e.name != InstalledPath && e.name != OsReleasePath ==> s == Ok(r)
    ensures s.Ok? && e.name != InstalledPath ==> s.value.packages == r.packages
    ensures s.Ok? && e.name != OsReleasePath ==> s.value.version == r.version
    ensures s.Err? ==> e.name == InstalledPath && InstalledDb(e.payload).Err?
  {
    var afterDb :- if e.name == InstalledPath then
                      var found :- InstalledDb(e.payload);
                      Ok(r.(packages := r.packages + found))
                    else Ok(r);
    Ok(if e.name == OsReleasePath then afterDb.(version := OsReleaseVersion(e.payload, afterDb.version))
       else afterDb)
  }

  /** The report after the entry loop over `entries`, from `r`. */
  function ScanEntries(r: AlpineReport, entries: seq<Entry>): Result<AlpineReport, DbError>
    decreases |entries|
  {
    if entries == [] then Ok(r)
    else
      var before :- ScanEntries(r, entries[..|entries| - 1]);
      Step(before, entries[|entries| - 1])
  }

  /** What `AlpineScanner` returns for the layers of a manifest. */
  function Scan(layers: seq<Layer>): Result<AlpineReport, ScanError>
  {
    match FirstUnavailable(layers)
    case Some(digest) => Err(LayerUnavailable(digest))
    case None =>
      match ScanEntries(EmptyReport, AllEntries(layers))
      case Ok(report) => Ok(report)
      case Err(_) => Err(ParserPanic)
  }

  // ---------------------------------------------------------------------
  // The scanner.
  // ---------------------------------------------------------------------

  /** `AlpineScanner`: the fetch loop over the manifest's layers, then the
      walk over each layer's tar entries. */
  method AlpineScanner(layers: seq<Layer>) returns (r: Result<AlpineReport, ScanError>)
    ensures r == Scan(layers)
    ensures r.Ok? ==> forall k :: 0 <= k < |r.value.packages| ==> Complete(r.value.packages[k])
  {
    var fetched := FetchLayers(layers);
    if fetched.Err? {
      return Err(fetched.error);
    }
    var walked := WalkLayers(fetched.value);
    ScanComplete(layers);
    if walked.Err? {
      return Err(ParserPanic);
    }
    r := Ok(walked.value);
  }

  /** The fetch loop: every layer by digest, stopping at the first that
      cannot be retrieved. */
  method FetchLayers(layers: seq<Layer>) returns (r: Result<seq<seq<TarItem>>, ScanError>)
    ensures r == match FirstUnavailable(layers)
                 case Some(digest) => Err(LayerUnavailable(digest))
                 case None => Ok(Contents(layers))
  {
    var fetched: seq<seq<TarItem>> := [];
    for i := 0 to |layers|
      invariant |fetched| == i
      invariant forall k :: 0 <= k < i ==> layers[k] == Fetched(fetched[k])
    {
      match layers[i]
      case Unavailable(digest) =>
        FirstUnavailableAt(layers, i);
        return Err(LayerUnavailable(digest));
      case Fetched(items) =>
        fetched := fetched + [items];
    }
    assert fetched == Contents(layers);
    r := Ok(fetched);
  }

  /** The walk over the fetched layers, one after the other, carrying the
      packages and the version from each layer to the next. */
  method WalkLayers(fetched: seq<seq<TarItem>>) returns (r: Result<AlpineReport, DbError>)
    ensures r == ScanEntries(EmptyReport, Concat(fetched))
  {
    var report := EmptyReport;
    for i := 0 to |fetched|
      invariant ScanEntries(EmptyReport, Concat(fetched[..i])) == Ok(report)
    {
      assert fetched[..i + 1][..i] == fetched[..i] && fetched[..i + 1][i] == fetched[i];
      ScanEntriesAppend(EmptyReport, Concat(fetched[..i]), Readable(fetched[i]));
      var scanned := ScanLayer(report, fetched[i]);
      assert Concat(fetched[..i + 1]) == Concat(fetched[..i]) + Readable(fetched[i]);
      if scanned.Err? {
        LayerPanicAborts(fetched, i + 1);
        OnlyPanic(ScanEntries(EmptyReport, Concat(fetched)));
        return Err(SliceOutOfRange);
      }
      report := scanned.value;
    }
    assert fetched[..|fetched|] == fetched;
    r := Ok(report);
  }

  /** The walk over one layer's tar entries, from the report so far: stops at
      the tar reader's first error, and fails if the database parser panics. */
  method ScanLayer(report: AlpineReport, items: seq<TarItem>) returns (r: Result<AlpineReport, DbError>)
    ensures r == ScanEntries(report, Readable(items))
  {
    var current := report;
    var j := 0;
    assert items[..0] == [];
    while j < |items| && items[j].Header?
      invariant 0 <= j <= |items|
      invariant forall k :: 0 <= k < j ==> items[k].Header?
      invariant |Readable(items[..j])| == j
      invariant ScanEntries(report, Readable(items[..j])) == Ok(current)
    {
      ReadableSnoc(items, j);
      ScanEntriesSnoc(report, Readable(items[..j]), items[j].entry);
      var next := ScanEntry(current, items[j].entry);
      if next.Err? {
        EntryPanicAborts(report, items, j + 1);
        return Err(SliceOutOfRange);
      }
      current := next.value;
      j := j + 1;
    }
    ReadableStops(items, j);
    r := Ok(current);
  }

  /** The body of the entry loop: dispatch one entry on its exact name. */
  method ScanEntry(report: AlpineReport, entry: Entry) returns (r: Result<AlpineReport, DbError>)
    ensures r == Step(report, entry)
  {
    var packages, version := report.packages, report.version;
    if entry.name == InstalledPath {
      var found := ParseInstalled(entry.payload);
      if found.Err? {
        return Err(found.error);
      }
      packages := packages + found.value;
    }
    if entry.name == OsReleasePath {
      version := ParseOsRelease(entry.payload, version);
    }
    r := Ok(AlpineReport(packages, version));
  }

  // ---------------------------------------------------------------------
  // Helper facts about the walk.
  // ---------------------------------------------------------------------

  lemma {:induction false} FirstUnavailableAt(layers: seq<Layer>, i: nat)
    requires i < |layers| && layers[i].Unavailable?
    requires forall k :: 0 <= k < i ==> layers[k].Fetched?
    ensures FirstUnavailable(layers) == Some(layers[i].digest)
    decreases i
  {
    if i > 0 {
      FirstUnavailableAt(layers[1..], i - 1);
    }
  }

  lemma {:induction false} ReadableSnoc(items: seq<TarItem>, j: nat)
    requires j < |items| && forall k :: 0 <= k <= j ==> items[k].Header?
    ensures Readable(items[..j + 1]) == Readable(items[..j]) + [items[j].entry]
    decreases j
  {
    if j > 0 {
      ReadableSnoc(items[1..], j - 1);
      assert items[1..][..j] == items[..j + 1][1..];
      assert items[1..][..j - 1] == items[..j][1..];
    }
  }

  lemma {:induction false} ReadableStops(items: seq<TarItem>, j: nat)
    requires j <= |items| && forall k :: 0 <= k < j ==> items[k].Header?
    requires j == |items| || items[j].ReadError?
    ensures Readable(items) == Readable(items[..j])
    decreases j
  {
    if j == 0 {
      assert items[..0] == [];
    } else {
      ReadableStops(items[1..], j - 1);
      assert items[1..][..j - 1] == items[..j][1..];
    }
  }

  lemma {:induction false} ReadablePrefix(items: seq<TarItem>, n: nat)
    requires n <= |items|
    ensures Readable(items[..n]) <= Readable(items)
    decreases n
  {
    if n > 0 && items[0].Header? {
      ReadablePrefix(items[1..], n - 1);
      assert items[1..][..n - 1] == items[..n][1..];
    }
  }

  lemma {:induction false} ConcatPrefix(layerItems: seq<seq<TarItem>>, n: nat)
    requires n <= |layerItems|
    ensures Concat(layerItems[..n]) <= Concat(layerItems)
    decreases |layerItems| - n
  {
    if n < |layerItems| {
      ConcatPrefix(layerItems, n + 1);
      assert layerItems[..n + 1][..n] == layerItems[..n];
    } else {
      assert layerItems[..n] == layerItems;
    }
  }

  lemma {:induction false} ScanEntriesErrPrefix(r: AlpineReport, entries: seq<Entry>, n: nat)
    requires n <= |entries| && ScanEntries(r, entries[..n]).Err?
    ensures ScanEntries(r, entries).Err?
    decreases |entries| - n
  {
    if n < |entries| {
      assert entries[..n + 1][..n] == entries[..n];
      ScanEntriesErrPrefix(r, entries, n + 1);
    } else {
      assert entries[..n] == entries;
    }
  }

  lemma ScanEntriesSnoc(r: AlpineReport, entries: seq<Entry>, e: Entry)
    ensures ScanEntries(r, entries + [e]) ==
      match ScanEntries(r, entries)
      case Ok(m) => Step(m, e)
      case Err(x) => Err(x)
  {
    assert (entries + [e])[..|entries|] == entries;
  }

  /** A panic within the first `n` layers ends the walk of all of them. */
  lemma LayerPanicAborts(fetched: seq<seq<TarItem>>, n: nat)
    requires n <= |fetched| && ScanEntries(EmptyReport, Concat(fetched[..n])).Err?
    ensures ScanEntries(EmptyReport, Concat(fetched)).Err?
  {
    ConcatPrefix(fetched, n);
    assert Concat(fetched)[..|Concat(fetched[..n])|] == Concat(fetched[..n]);
    ScanEntriesErrPrefix(EmptyReport, Concat(fetched), |Concat(fetched[..n])|);
  }

  /** A panic within the first `n` readable entries ends the walk of the layer. */
  lemma EntryPanicAborts(report: AlpineReport, items: seq<TarItem>, n: nat)
    requires n <= |items| && |Readable(items[..n])| == n
    requires ScanEntries(report, Readable(items[..n])).Err?
    ensures ScanEntries(report, Readable(items)) == Err(SliceOutOfRange)
  {
    ReadablePrefix(items, n);
    assert Readable(items)[..n] == Readable(items[..n]);
    ScanEntriesErrPrefix(report, Readable(items), n);
    OnlyPanic(ScanEntries(report, Readable(items)));
  }

  /** Walking `a + b` is walking `a`, then walking `b` from where `a` ended. */
  lemma {:induction false} ScanEntriesAppend(r: AlpineReport, a: seq<Entry>, b: seq<Entry>)
    ensures ScanEntries(r, a + b) ==
      match ScanEntries(r, a)
      case Ok(m) => ScanEntries(m, b)
      case Err(e) => Err(e)
    decreases |b|
  {
    if b == [] {
      assert a + b == a;
    } else {
      var b' := b[..|b| - 1];
      assert (a + b)[..|a + b| - 1] == a + b';
      assert (a + b)[|a + b| - 1] == b[|b| - 1];
      ScanEntriesAppend(r, a, b');
    }
  }

  lemma {:induction false} ScanEntriesComplete(r: AlpineReport, entries: seq<Entry>)
    requires forall k :: 0 <= k < |r.packages| ==> Complete(r.packages[k])
    ensures ScanEntries(r, entries).Ok? ==>
      forall k :: 0 <= k < |ScanEntries(r, entries).value.packages| ==> Complete(ScanEntries(r, entries).value.packages[k])
    decreases |entries|
  {
    if entries != [] {
      var init, e := entries[..|entries| - 1], entries[|entries| - 1];
      ScanEntriesComplete(r, init);
      if ScanEntries(r, init).Ok? && e.name == InstalledPath {
        InstalledDbComplete(e.payload);
      }
    }
  }

  /** Every package in a report has a non-empty name and version. */
  lemma ScanComplete(layers: seq<Layer>)
    ensures Scan(layers).Ok? ==>
      forall k :: 0 <= k < |Scan(layers).value.packages| ==> Complete(Scan(layers).value.packages[k])
  {
    ScanEntriesComplete(EmptyReport, AllEntries(layers));
  }

  // ---------------------------------------------------------------------
  // What the report is made of.
  // ---------------------------------------------------------------------

  /** The entry is an installed database on which the parser panics. */
  predicate PanicsAt(e: Entry)
  {
    e.name == InstalledPath && InstalledDb(e.payload).Err?
  }

  /** The packages an entry contributes: those of an installed database the
      parser accepts, and none for any other entry. */
  function Found(e: Entry): seq<AlpinePackage>
  {
    if e.name == InstalledPath && InstalledDb(e.payload).Ok? then InstalledDb(e.payload).value else []
  }

  /** Some installed database among `entries` makes the parser panic. */
  predicate Panics(entries: seq<Entry>)
  {
    exists k :: 0 <= k < |entries| && PanicsAt(entries[k])
  }

  /** The packages of every installed database among `entries`, in order. */
  function DbPackages(entries: seq<Entry>): seq<AlpinePackage>
    decreases |entries|
  {
    if entries == [] then []
    else DbPackages(entries[..|entries| - 1]) + Found(entries[|entries| - 1])
  }

  /** The version after every os-release entry among `entries`, from `v`. */
  function ReleaseVersion(v: Bytes, entries: seq<Entry>): Bytes
    decreases |entries|
  {
    if entries == [] then v
    else
      var e := entries[|entries| - 1];
      var w := ReleaseVersion(v, entries[..|entries| - 1]);
      if e.name == OsReleasePath then OsReleaseVersion(e.payload, w) else w
  }

  /** The entries whose name the scanner acts on, in order. */
  function Relevant(entries: seq<Entry>): (r: seq<Entry>)
    ensures forall k :: 0 <= k < |r| ==> r[k].name == InstalledPath || r[k].name == OsReleasePath
    decreases |entries|
  {
    if entries == [] then []
    else
      var e := entries[|entries| - 1];
      Relevant(entries[..|entries| - 1]) +
      (if e.name == InstalledPath || e.name == OsReleasePath then [e] else [])
  }

  /** The packages are the installed databases' packages appended to those
      of the start, with no deduplication; the version is the os-release
      entries' doing alone; and a parser panic anywhere fails the walk. */
  lemma {:induction false} ScanEntriesSeparates(r: AlpineReport, entries: seq<Entry>)
    ensures ScanEntries(r, entries) ==
      if Panics(entries) then Err(SliceOutOfRange)
      else Ok(AlpineReport(r.packages + DbPackages(entries), ReleaseVersion(r.version, entries)))
    decreases |entries|
  {
    if entries == [] {
      assert r.packages + [] == r.packages;
    } else {
      var init, e := entries[..|entries| - 1], entries[|entries| - 1];
      assert init + [e] == entries;
      ScanEntriesSeparates(r, init);
      PanicsSnoc(init, e);
      ScanEntriesSnoc(r, init, e);
      if Panics(init) {
      } else {
        var m := AlpineReport(r.packages + DbPackages(init), ReleaseVersion(r.version, init));
        assert ScanEntries(r, entries) == Step(m, e);
        if PanicsAt(e) {
          StepPanics(m, e);
        } else {
          StepSeparates(m, e);
          assert DbPackages(entries) == DbPackages(init) + Found(e);
          AppendAssoc(r.packages, DbPackages(init), Found(e));
        }
      }
    }
  }

  lemma AppendAssoc<T>(a: seq<T>, b: seq<T>, c: seq<T>)
    ensures a + b + c == a + (b + c)
  {
  }

  lemma StepPanics(r: AlpineReport, e: Entry)
    requires PanicsAt(e)
    ensures Step(r, e) == Err(SliceOutOfRange)
  {
    OnlyPanic(Step(r, e));
  }

  lemma PanicsSnoc(init: seq<Entry>, e: Entry)
    ensures Panics(init + [e]) <==> Panics(init) || PanicsAt(e)
  {
    var es := init + [e];
    assert es[|init|] == e;
    if Panics(es) {
      var k :| 0 <= k < |es| && PanicsAt(es[k]);
      if k < |init| {
        assert init[k] == es[k];
      }
    }
    if Panics(init) {
      var k :| 0 <= k < |init| && PanicsAt(init[k]);
      assert es[k] == init[k];
    }
  }

  /** One step in terms of the separate contributions. */
  lemma StepSeparates(r: AlpineReport, e: Entry)
    requires !PanicsAt(e)
    ensures Step(r, e) == Ok(AlpineReport(r.packages + Found(e),
                                          if e.name == OsReleasePath then OsReleaseVersion(e.payload, r.version) else r.version))
  {
    if e.name != InstalledPath {
      assert r.packages + [] == r.packages;
    }
  }

  /** Entries with any other name contribute nothing to the report. */
  lemma {:induction false} OtherNamesIgnored(r: AlpineReport, entries: seq<Entry>)
    ensures ScanEntries(r, entries) == ScanEntries(r, Relevant(entries))
    decreases |entries|
  {
    if entries != [] {
      var init, e := entries[..|entries| - 1], entries[|entries| - 1];
      OtherNamesIgnored(r, init);
      if e.name == InstalledPath || e.name == OsReleasePath {
        assert Relevant(entries) == Relevant(init) + [e];
        ScanEntriesSnoc(r, Relevant(init), e);
        ScanEntriesSnoc(r, init, e);
        assert init + [e] == entries;
      } else {
        assert Relevant(init) + [] == Relevant(init);
        assert Relevant(entries) == Relevant(init);
        ScanEntriesSnoc(r, init, e);
        assert init + [e] == entries;
        match ScanEntries(r, init)
        case Ok(m) =>
          assert Step(m, e) == Ok(m);
        case Err(_) =>
      }
    }
  }

  /** Without an os-release entry, the version stays where it started. */
  lemma {:induction false} ReleaseVersionUntouched(v: Bytes, entries: seq<Entry>)
    requires forall k :: 0 <= k < |entries| ==> entries[k].name != OsReleasePath
    ensures ReleaseVersion(v, entries) == v
    decreases |entries|
  {
    if entries != [] {
      ReleaseVersionUntouched(v, entries[..|entries| - 1]);
    }
  }

  lemma {:induction false} ReleaseVersionAppend(v: Bytes, a: seq<Entry>, b: seq<Entry>)
    ensures ReleaseVersion(v, a + b) == ReleaseVersion(ReleaseVersion(v, a), b)
    decreases |b|
  {
    if b == [] {
      assert a + b == a;
    } else {
      assert (a + b)[..|a + b| - 1] == a + b[..|b| - 1];
      assert (a + b)[|a + b| - 1] == b[|b| - 1];
      ReleaseVersionAppend(v, a, b[..|b| - 1]);
    }
  }

  lemma {:induction false} DbPackagesAppend(a: seq<Entry>, b: seq<Entry>)
    ensures DbPackages(a + b) == DbPackages(a) + DbPackages(b)
    decreases |b|
  {
    if b == [] {
      assert a + b == a;
    } else {
      var b', e := b[..|b| - 1], b[|b| - 1];
      assert (a + b)[..|a + b| - 1] == a + b';
      assert (a + b)[|a + b| - 1] == e;
      DbPackagesAppend(a, b');
      assert DbPackages(a + b) == DbPackages(a + b') + Found(e);
      AppendAssoc(DbPackages(a), DbPackages(b'), Found(e));
    }
  }

  /** The last os-release entry decides the version, whatever came before. */
  lemma LastOsReleaseWins(v: Bytes, before: seq<Entry>, payload: Bytes, after: seq<Entry>)
    requires forall k :: 0 <= k < |after| ==> after[k].name != OsReleasePath
    ensures ReleaseVersion(v, before + [Entry(OsReleasePath, payload)] + after) ==
            OsReleaseVersion(payload, ReleaseVersion(v, before))
  {
    var mid := before + [Entry(OsReleasePath, payload)];
    assert mid[..|mid| - 1] == before;
    ReleaseVersionAppend(v, mid, after);
    ReleaseVersionUntouched(ReleaseVersion(v, mid), after);
  }

  // ---------------------------------------------------------------------
  // The scan over layers.
  // ---------------------------------------------------------------------

  /** A scan that succeeds reports the installed databases' packages of all
      layers, and the version the os-release entries leave, starting from
      the empty string; it fails exactly when a layer is unavailable or the
      database parser panics. */
  lemma ScanMeaning(layers: seq<Layer>)
    ensures Scan(layers).Err? <==>
      FirstUnavailable(layers).Some? || Panics(AllEntries(layers))
    ensures Scan(layers).Ok? ==>
      Scan(layers).value == AlpineReport(DbPackages(AllEntries(layers)), ReleaseVersion([], AllEntries(layers)))
  {
    ScanEntriesSeparates(EmptyReport, AllEntries(layers));
    assert EmptyReport.packages + DbPackages(AllEntries(layers)) == DbPackages(AllEntries(layers));
  }

  /** An image without an os-release entry reports the empty version. */
  lemma ScanWithoutOsRelease(layers: seq<Layer>)
    requires Scan(layers).Ok?
    requires forall k :: 0 <= k < |AllEntries(layers)| ==> AllEntries(layers)[k].name != OsReleasePath
    ensures Scan(layers).value.version == []
  {
    ScanMeaning(layers);
    ReleaseVersionUntouched([], AllEntries(layers));
  }

  /** A layer that cannot be fetched, after layers that could, aborts the
      whole scan with its digest, whatever the other layers hold. */
  lemma ScanAbortsOnUnavailable(layers: seq<Layer>, i: nat)
    requires i < |layers| && layers[i].Unavailable?
    requires forall k :: 0 <= k < i ==> layers[k].Fetched?
    ensures Scan(layers) == Err(LayerUnavailable(layers[i].digest))
  {
    FirstUnavailableAt(layers, i);
  }

  lemma {:induction false} FirstUnavailableAppend(a: seq<Layer>, b: seq<Layer>)
    ensures FirstUnavailable(a + b) == if FirstUnavailable(a).Some? then FirstUnavailable(a) else FirstUnavailable(b)
    decreases |a|
  {
    if a == [] {
      assert a + b == b;
    } else {
      assert (a + b)[0] == a[0];
      assert (a + b)[1..] == a[1..] + b;
      FirstUnavailableAppend(a[1..], b);
    }
  }

  lemma {:induction false} ConcatAppend(x: seq<seq<TarItem>>, y: seq<seq<TarItem>>)
    ensures Concat(x + y) == Concat(x) + Concat(y)
    decreases |y|
  {
    if y == [] {
      assert x + y == x;
    } else {
      var y', last := y[..|y| - 1], y[|y| - 1];
      assert (x + y)[..|x + y| - 1] == x + y';
      assert (x + y)[|x + y| - 1] == last;
      ConcatAppend(x, y');
      assert Concat(x + y) == Concat(x + y') + Readable(last);
      assert Concat(y) == Concat(y') + Readable(last);
      AppendAssoc(Concat(x), Concat(y'), Readable(last));
    }
  }

  /** The entries of the layers of `a + b` are those of `a`, then those of `b`. */
  lemma AllEntriesAppend(a: seq<Layer>, b: seq<Layer>)
    ensures AllEntries(a + b) == AllEntries(a) + AllEntries(b)
  {
    assert Contents(a + b) == Contents(a) + Contents(b);
    ConcatAppend(Contents(a), Contents(b));
  }

  lemma AllEntriesOne(items: seq<TarItem>)
    ensures AllEntries([Fetched(items)]) == Readable(items)
  {
    var one := [items];
    assert Contents([Fetched(items)]) == one;
    assert one[..0] == [] && one[0] == items;
    assert Concat(one) == Concat([]) + Readable(items);
  }

  /** The tar reader's first error ends its layer: what follows it is never read. */
  lemma {:induction false} ReadableStopsAtError(items: seq<TarItem>, rest: seq<TarItem>)
    ensures Readable(items + [ReadError] + rest) == Readable(items)
    decreases |items|
  {
    if items == [] {
      assert (items + [ReadError] + rest)[0] == ReadError;
    } else {
      assert (items + [ReadError] + rest)[0] == items[0];
      assert (items + [ReadError] + rest)[1..] == items[1..] + [ReadError] + rest;
      ReadableStopsAtError(items[1..], rest);
    }
  }

  /** A read error in a layer skips the rest of that layer, but the layers
      after it are still scanned. */
  lemma ScanSkipsRestOfLayer(before: seq<Layer>, items: seq<TarItem>, rest: seq<TarItem>, after: seq<Layer>)
    ensures Scan(before + [Fetched(items + [ReadError] + rest)] + after) ==
            Scan(before + [Fetched(items)] + after)
  {
    var broken, whole := Fetched(items + [ReadError] + rest), Fetched(items);
    FirstUnavailableAppend(before + [broken], after);
    FirstUnavailableAppend(before + [whole], after);
    FirstUnavailableAppend(before, [broken]);
    FirstUnavailableAppend(before, [whole]);
    AllEntriesAppend(before + [broken], after);
    AllEntriesAppend(before + [whole], after);
    AllEntriesAppend(before, [broken]);
    AllEntriesAppend(before, [whole]);
    AllEntriesOne(items + [ReadError] + rest);
    AllEntriesOne(items);
    ReadableStopsAtError(items, rest);
  }

  /** Scanning `a + b` appends the packages of `b` to those of `a`, with no
      deduplication, and lets `b`'s os-release entries overwrite the version. */
  lemma ScanAppend(a: seq<Layer>, b: seq<Layer>)
    requires Scan(a).Ok? && Scan(b).Ok?
    ensures Scan(a + b) ==
      Ok(AlpineReport(Scan(a).value.packages + Scan(b).value.packages,
                      ReleaseVersion(Scan(a).value.version, AllEntries(b))))
  {
    var ea, eb := AllEntries(a), AllEntries(b);
    FirstUnavailableAppend(a, b);
    AllEntriesAppend(a, b);
    ScanMeaning(a);
    ScanMeaning(b);
    PanicsAppend(ea, eb);
    ScanEntriesSeparates(EmptyReport, ea + eb);
    DbPackagesAppend(ea, eb);
    ReleaseVersionAppend([], ea, eb);
    var none: seq<AlpinePackage> := [];
    assert none + DbPackages(ea + eb) == DbPackages(ea + eb);
  }

  lemma PanicsAppend(x: seq<Entry>, y: seq<Entry>)
    ensures Panics(x + y) <==> Panics(x) || Panics(y)
  {
    var xy := x + y;
    if Panics(xy) {
      var k :| 0 <= k < |xy| && PanicsAt(xy[k]);
      if k < |x| {
        assert x[k] == xy[k];
      } else {
        assert y[k - |x|] == xy[k];
      }
    }
    if Panics(x) {
      var k :| 0 <= k < |x| && PanicsAt(x[k]);
      assert xy[k] == x[k];
    }
    if Panics(y) {
      var k :| 0 <= k < |y| && PanicsAt(y[k]);
      assert xy[|x| + k] == y[k];
    }
  }
}
