/**
 * The parser for Alpine's installed-package database, `lib/apk/db/installed`,
 * as `AlpineScanner` runs it on the payload of that tar entry: the payload is
 * split into records on a blank line, each record into lines, and a line whose
 * first byte is `P` or `V` sets the record's name or version to the line
 * without its first two bytes.
 */
module ApkDb {
  import opened Wrappers
  import opened GoBytes

  /** `AlpinePackage`: one installed package. */
  datatype AlpinePackage = AlpinePackage(name: Bytes, version: Bytes)

  /** The Go runtime panic that `line[2:]` raises on a line of one byte. */
  datatype DbError = SliceOutOfRange

  const InstalledPath: Bytes := "lib/apk/db/installed"
  const RecordSeparator: Bytes := "\n\n"

  /** A record contributes a package only when both fields are non-empty. */
  predicate Complete(p: AlpinePackage)
  {
    p.name != [] && p.version != []
  }

  /** One pass of the loop over a record's lines, on the record's `name` and
      `version` (kept together in `fields`). */
  function ApplyLine(fields: AlpinePackage, line: Bytes): (r: Result<AlpinePackage, DbError>)
    ensures r.Err? <==> Truncated(line)
    ensures r.Ok? && Tagged(line, 'P') ==> r.value == fields.(name := line[2..])
    ensures r.Ok? && Tagged(line, 'V') ==> r.value == fields.(version := line[2..])
    ensures r.Ok? && !Tagged(line, 'P') && !Tagged(line, 'V') ==> r.value == fields
  {
    if |line| == 0 then Ok(fields)
    else if line[0] == 'P' then
      if |line| < 2 then Err(SliceOutOfRange) else Ok(fields.(name := line[2..]))
    else if line[0] == 'V' then
      if |line| < 2 then Err(SliceOutOfRange) else Ok(fields.(version := line[2..]))
    else Ok(fields)
  }

  /** The record's fields after the loop over `lines`, from two empty strings. */
  function RecordFields(lines: seq<Bytes>): Result<AlpinePackage, DbError>
    decreases |lines|
  {
    if lines == [] then Ok(AlpinePackage([], []))
    else
      var fields :- RecordFields(lines[..|lines| - 1]);
      ApplyLine(fields, lines[|lines| - 1])
  }

  /** What one record adds to the package list: nothing or one package. */
  function RecordPackages(record: Bytes): Result<seq<AlpinePackage>, DbError>
  {
    var fields :- RecordFields(Split(record, LineSeparator));
    Ok(if Complete(fields) then [fields] else [])
  }

  /** The packages of `records`, in record order. */
  function RecordsPackages(records: seq<Bytes>): Result<seq<AlpinePackage>, DbError>
    decreases |records|
  {
    if records == [] then Ok([])
    else
      var earlier :- RecordsPackages(records[..|records| - 1]);
      var last :- RecordPackages(records[|records| - 1]);
      Ok(earlier + last)
  }

  /** The packages the scanner appends for one installed-database payload. */
  function InstalledDb(payload: Bytes): Result<seq<AlpinePackage>, DbError>
  {
    RecordsPackages(Split(payload, RecordSeparator))
  }

  /** The loop of `AlpineScanner` over the lines of one record: the record's
      package, if it has both fields, or the panic of a one-byte `P`/`V` line. */
  method ParseRecord(record: Bytes) returns (r: Result<seq<AlpinePackage>, DbError>)
    ensures r == RecordPackages(record)
    ensures r.Ok? ==> |r.value| <= 1 && forall k :: 0 <= k < |r.value| ==> Complete(r.value[k])
  {
    var lines := Split(record, LineSeparator);
    var name: Bytes, version: Bytes := [], [];
    for j := 0 to |lines|
      invariant RecordFields(lines[..j]) == Ok(AlpinePackage(name, version))
    {
      assert lines[..j + 1][..j] == lines[..j];
      var line := lines[j];
      if |line| == 0 {
        continue;
      }
      if line[0] == 'P' {
        if |line| < 2 {
          RecordFieldsErrExtends(lines, j + 1);
          return Err(SliceOutOfRange);
        }
        name := line[2..];
      } else if line[0] == 'V' {
        if |line| < 2 {
          RecordFieldsErrExtends(lines, j + 1);
          return Err(SliceOutOfRange);
        }
        version := line[2..];
      }
    }
    assert lines[..|lines|] == lines;
    if name != [] && version != [] {
      r := Ok([AlpinePackage(name, version)]);
    } else {
      r := Ok([]);
    }
  }

  /** The parser loop of `AlpineScanner` over one installed-database payload. */
  method ParseInstalled(payload: Bytes) returns (r: Result<seq<AlpinePackage>, DbError>)
    ensures r == InstalledDb(payload)
    ensures r.Ok? ==> forall k :: 0 <= k < |r.value| ==> Complete(r.value[k])
  {
    var records := Split(payload, RecordSeparator);
    var packages: seq<AlpinePackage> := [];
    for i := 0 to |records|
      invariant RecordsPackages(records[..i]) == Ok(packages)
    {
      assert records[..i + 1][..i] == records[..i] && records[..i + 1][i] == records[i];
      var found := ParseRecord(records[i]);
      if found.Err? {
        RecordsPackagesErrExtends(records, i + 1);
        return Err(SliceOutOfRange);
      }
      packages := packages + found.value;
    }
    assert records[..|records|] == records;
    InstalledDbComplete(payload);
    r := Ok(packages);
  }

  lemma OnlyPanic<T>(r: Result<T, DbError>)
    requires r.Err?
    ensures r == Err(SliceOutOfRange)
  {
    match r.error
    case SliceOutOfRange =>
  }

  lemma {:induction false} RecordFieldsErrExtends(lines: seq<Bytes>, n: nat)
    requires n <= |lines| && RecordFields(lines[..n]).Err?
    ensures RecordFields(lines) == Err(SliceOutOfRange)
    decreases |lines| - n
  {
    if n < |lines| {
      assert lines[..n + 1][..n] == lines[..n];
      RecordFieldsErrExtends(lines, n + 1);
    } else {
      assert lines[..n] == lines;
      OnlyPanic(RecordFields(lines));
    }
  }

  lemma {:induction false} RecordsPackagesErrExtends(records: seq<Bytes>, n: nat)
    requires n <= |records| && RecordsPackages(records[..n]).Err?
    ensures RecordsPackages(records) == Err(SliceOutOfRange)
    decreases |records| - n
  {
    if n < |records| {
      assert records[..n + 1][..n] == records[..n];
      RecordsPackagesErrExtends(records, n + 1);
    } else {
      assert records[..n] == records;
      OnlyPanic(RecordsPackages(records));
    }
  }

  // ---------------------------------------------------------------------
  // Last tag wins: the fields of a record are the values of its last `P`
  // line and its last `V` line.
  // ---------------------------------------------------------------------

  /** A line the loop reads as a value for `tag`. */
  predicate Tagged(line: Bytes, tag: Byte)
  {
    |line| >= 2 && line[0] == tag
  }

  /** A `P` or `V` line too short for `line[2:]`. */
  predicate Truncated(line: Bytes)
  {
    |line| == 1 && (line[0] == 'P' || line[0] == 'V')
  }

  /** The index of the last line tagged `tag`, if there is one. */
  function LastTagged(lines: seq<Bytes>, tag: Byte): (r: Option<nat>)
    ensures r.Some? ==> r.value < |lines| && Tagged(lines[r.value], tag)
    ensures r.Some? ==> forall k :: r.value < k < |lines| ==> !Tagged(lines[k], tag)
    ensures r.None? ==> forall k :: 0 <= k < |lines| ==> !Tagged(lines[k], tag)
    decreases |lines|
  {
    if lines == [] then None
    else if Tagged(lines[|lines| - 1], tag) then Some(|lines| - 1)
    else LastTagged(lines[..|lines| - 1], tag)
  }

  /** The value the record gets for `tag`: that of its last tagged line, or empty. */
  function TagValue(lines: seq<Bytes>, tag: Byte): Bytes
  {
    match LastTagged(lines, tag)
    case None => []
    case Some(k) => lines[k][2..]
  }

  /** A record's loop fails exactly when one of its lines is a one-byte `P` or
      `V` line; otherwise each field is the value of the last line with its tag. */
  lemma {:induction false} RecordFieldsLastTagWins(lines: seq<Bytes>)
    ensures RecordFields(lines).Err? <==> exists k :: 0 <= k < |lines| && Truncated(lines[k])
    ensures RecordFields(lines).Ok? ==>
      RecordFields(lines).value == AlpinePackage(TagValue(lines, 'P'), TagValue(lines, 'V'))
    decreases |lines|
  {
    if lines != [] {
      var init, last := lines[..|lines| - 1], lines[|lines| - 1];
      RecordFieldsLastTagWins(init);
      assert forall k :: 0 <= k < |init| ==> init[k] == lines[k];
      if !Truncated(last) && RecordFields(init).Err? {
        var k :| 0 <= k < |init| && Truncated(init[k]);
        assert Truncated(lines[k]);
      }
      if RecordFields(lines).Ok? {
        assert LastTagged(lines, 'P') == if Tagged(last, 'P') then Some(|lines| - 1) else LastTagged(init, 'P');
        assert LastTagged(lines, 'V') == if Tagged(last, 'V') then Some(|lines| - 1) else LastTagged(init, 'V');
      }
    }
  }

  // ---------------------------------------------------------------------
  // Properties of the package list.
  // ---------------------------------------------------------------------

  /** Every package produced has a non-empty name and version, and there is
      at most one package per record. */
  lemma {:induction false} RecordsPackagesComplete(records: seq<Bytes>)
    ensures RecordsPackages(records).Ok? ==>
      |RecordsPackages(records).value| <= |records| &&
      forall k :: 0 <= k < |RecordsPackages(records).value| ==> Complete(RecordsPackages(records).value[k])
    decreases |records|
  {
    if records != [] {
      RecordsPackagesComplete(records[..|records| - 1]);
    }
  }

  lemma InstalledDbComplete(payload: Bytes)
    ensures InstalledDb(payload).Ok? ==>
      |InstalledDb(payload).value| <= |Split(payload, RecordSeparator)| &&
      forall k :: 0 <= k < |InstalledDb(payload).value| ==> Complete(InstalledDb(payload).value[k])
  {
    RecordsPackagesComplete(Split(payload, RecordSeparator));
  }

  /** Records contribute in order: the packages of `a + b` are those of `a`
      followed by those of `b`, and the parse fails if either part fails. */
  lemma {:induction false} RecordsPackagesAppend(a: seq<Bytes>, b: seq<Bytes>)
    ensures RecordsPackages(a + b).Ok? <==> RecordsPackages(a).Ok? && RecordsPackages(b).Ok?
    ensures RecordsPackages(a + b).Ok? ==>
      RecordsPackages(a + b).value == RecordsPackages(a).value + RecordsPackages(b).value
    decreases |b|
  {
    if b == [] {
      assert a + b == a;
    } else {
      var b' := b[..|b| - 1];
      assert (a + b)[..|a + b| - 1] == a + b';
      assert (a + b)[|a + b| - 1] == b[|b| - 1];
      RecordsPackagesAppend(a, b');
      if RecordsPackages(a + b').Ok? && RecordsPackages(b).Ok? {
        assert RecordsPackages(b).value == RecordsPackages(b').value + RecordPackages(b[|b| - 1]).value;
      }
    }
  }

  // ---------------------------------------------------------------------
  // Round trip: a database written as one `P:`/`V:` record per package
  // parses back to exactly those packages.
  // ---------------------------------------------------------------------

  /** A package the database format can hold: non-empty fields, no newline. */
  predicate Storable(p: AlpinePackage)
  {
    Complete(p) &&
    (forall k :: 0 <= k < |p.name| ==> p.name[k] != '\n') &&
    (forall k :: 0 <= k < |p.version| ==> p.version[k] != '\n')
  }

  function NameLine(p: AlpinePackage): Bytes
  {
    "P:" + p.name
  }

  function VersionLine(p: AlpinePackage): Bytes
  {
    "V:" + p.version
  }

  /** The record apk writes for a package, reduced to its name and version lines. */
  function RecordText(p: AlpinePackage): Bytes
  {
    NameLine(p) + "\n" + VersionLine(p)
  }

  function RecordTexts(packages: seq<AlpinePackage>): (texts: seq<Bytes>)
    ensures |texts| == |packages|
    ensures forall k :: 0 <= k < |packages| ==> texts[k] == RecordText(packages[k])
  {
    seq(|packages|, k requires 0 <= k < |packages| => RecordText(packages[k]))
  }

  /** An installed-database payload holding `packages`, one record each. */
  function DbText(packages: seq<AlpinePackage>): Bytes
  {
    Join(RecordTexts(packages), RecordSeparator)
  }

  lemma LinesWithoutNewline(p: AlpinePackage)
    requires Storable(p)
    ensures forall k :: 0 <= k < |NameLine(p)| ==> NameLine(p)[k] != '\n'
    ensures forall k :: 0 <= k < |VersionLine(p)| ==> VersionLine(p)[k] != '\n'
  {
    var n, v := NameLine(p), VersionLine(p);
    forall k | 2 <= k < |n| ensures n[k] == p.name[k - 2] { }
    forall k | 2 <= k < |v| ensures v[k] == p.version[k - 2] { }
  }

  lemma RecordTextLines(p: AlpinePackage)
    requires Storable(p)
    ensures Split(RecordText(p), LineSeparator) == [NameLine(p), VersionLine(p)]
  {
    var n, v := NameLine(p), VersionLine(p);
    LinesWithoutNewline(p);
    SingleByteDelimited(n, '\n');
    SingleByteDelimited(v, '\n');
    assert Join([n, v], LineSeparator) == RecordText(p) by {
      assert [n, v][1..] == [v];
    }
    SplitJoin([n, v], LineSeparator);
  }

  lemma RecordTextParses(p: AlpinePackage)
    requires Storable(p)
    ensures RecordPackages(RecordText(p)) == Ok([p])
  {
    var lines := [NameLine(p), VersionLine(p)];
    RecordTextLines(p);
    assert lines[..1] == [NameLine(p)] && [NameLine(p)][..0] == [];
    assert NameLine(p)[2..] == p.name && VersionLine(p)[2..] == p.version;
    assert RecordFields([NameLine(p)]) == Ok(AlpinePackage(p.name, []));
    assert RecordFields(lines) == Ok(p);
  }

  lemma RecordTextDelimited(p: AlpinePackage)
    requires Storable(p)
    ensures Delimited(RecordText(p), RecordSeparator)
    ensures !Contains(RecordText(p), RecordSeparator)
  {
    var t := RecordText(p);
    var nl := 2 + |p.name|;
    assert |t| == nl + 3 + |p.version|;
    assert t[nl + 1] == 'V';
    assert t[|t| - 1] == p.version[|p.version| - 1];
    forall m | 0 <= m < |t| && m != nl
      ensures t[m] != '\n'
    {
      if 2 <= m < nl {
        assert t[m] == p.name[m - 2];
      } else if m > nl + 2 {
        assert t[m] == p.version[m - nl - 3];
      }
    }
    forall m | 0 <= m < |t|
      ensures !OccursAt(t + RecordSeparator, RecordSeparator, m)
    {
      var u := t + RecordSeparator;
      assert u[m] == t[m];
      assert m + 1 < |t| ==> u[m + 1] == t[m + 1];
    }
    DelimitedNotContains(t, RecordSeparator);
  }

  lemma {:induction false} RecordTextsParse(packages: seq<AlpinePackage>)
    requires forall k :: 0 <= k < |packages| ==> Storable(packages[k])
    ensures RecordsPackages(RecordTexts(packages)) == Ok(packages)
    decreases |packages|
  {
    if packages != [] {
      var init, last := packages[..|packages| - 1], packages[|packages| - 1];
      var texts := RecordTexts(packages);
      RecordTextsParse(init);
      assert texts[..|texts| - 1] == RecordTexts(init);
      assert texts[|texts| - 1] == RecordText(last);
      RecordTextParses(last);
      assert init + [last] == packages;
      assert RecordsPackages(texts) == Ok(init + [last]);
    }
  }

  /** The parser reads back exactly the packages a database was written with,
      in order: one package per complete record. */
  lemma DbTextRoundTrip(packages: seq<AlpinePackage>)
    requires forall k :: 0 <= k < |packages| ==> Storable(packages[k])
    ensures InstalledDb(DbText(packages)) == Ok(packages)
  {
    if packages == [] {
      assert DbText(packages) == [];
      assert Split([], RecordSeparator) == [[]];
      assert Split([], LineSeparator) == [[]];
      assert RecordFields([[]]) == Ok(AlpinePackage([], []));
      assert RecordPackages([]) == Ok([]);
      var one: seq<Bytes> := [[]];
      assert one[..0] == [];
      assert one[0] == [];
      assert RecordPackages(one[0]) == Ok([]);
      var none: seq<AlpinePackage> := [];
      assert RecordsPackages(one[..0]) == Ok(none);
      assert RecordsPackages(one) == Ok(none + none);
      assert none + none == none;
    } else {
      var texts := RecordTexts(packages);
      forall k | 0 <= k < |texts| ensures Delimited(texts[k], RecordSeparator) && !Contains(texts[k], RecordSeparator) {
        RecordTextDelimited(packages[k]);
      }
      SplitJoin(texts, RecordSeparator);
      RecordTextsParse(packages);
    }
  }
}
