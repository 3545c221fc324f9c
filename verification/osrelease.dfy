/**
 * The os-release parser of `AlpineScanner`: the payload of `etc/os-release`
 * is split into lines, and every line that contains `VERSION_ID` is handed
 * to `fmt.Sscanf(line, "VERSION_ID=%s", &version)`, which overwrites the
 * version only when the scan succeeds. `%s` stores the next white-space
 * delimited word as it stands, so quotes around the value are kept.
 */
module OsRelease {
  import opened Wrappers
  import opened GoBytes

  const OsReleasePath: Bytes := "etc/os-release"
  const VersionIdKey: Bytes := "VERSION_ID"
  /** The literal text of the Sscanf format before its `%s` verb. */
  const VersionIdPrefix: Bytes := "VERSION_ID="

  /** White space for fmt's scanner, restricted to bytes: tab, newline,
      vertical tab, form feed, carriage return and space. */
  predicate IsSpace(b: Byte)
  {
    9 <= b as int <= 13 || b == ' '
  }

  /** fmt's SkipSpace: drops leading white space but stops at a newline,
      which it reports as an error. */
  function SkipSpace(s: Bytes): (r: Bytes)
    ensures |r| <= |s|
    ensures forall k :: 0 <= k < |s| - |r| ==> IsSpace(s[k]) && s[k] != '\n'
    ensures r != [] ==> !IsSpace(r[0]) || r[0] == '\n'
    decreases |s|
  {
    if s != [] && IsSpace(s[0]) && s[0] != '\n' then SkipSpace(s[1..]) else s
  }

  /** The word `%s` reads: the longest prefix without white space. */
  function Token(s: Bytes): (r: Bytes)
    ensures |r| <= |s|
    ensures forall k :: 0 <= k < |r| ==> !IsSpace(r[k])
    ensures |r| < |s| ==> IsSpace(s[|r|])
    decreases |s|
  {
    if s != [] && !IsSpace(s[0]) then [s[0]] + Token(s[1..]) else []
  }

  /** What SkipSpace leaves is the tail of its input. */
  lemma {:induction false} SkipSpaceSuffix(s: Bytes)
    ensures SkipSpace(s) == s[|s| - |SkipSpace(s)|..]
    decreases |s|
  {
    if s != [] && IsSpace(s[0]) && s[0] != '\n' {
      SkipSpaceSuffix(s[1..]);
      assert s[1..][|s[1..]| - |SkipSpace(s[1..])|..] == s[|s| - |SkipSpace(s)|..];
    }
  }

  /** The word `%s` reads is the head of its input. */
  lemma {:induction false} TokenPrefix(s: Bytes)
    ensures Token(s) == s[..|Token(s)|]
    decreases |s|
  {
    if s != [] && !IsSpace(s[0]) {
      TokenPrefix(s[1..]);
      assert s[..|Token(s)|] == [s[0]] + s[1..][..|Token(s[1..])|];
    }
  }

  /**
   * `fmt.Sscanf(line, "VERSION_ID=%s", &v)`: the word it stores in `v`, or
   * None when the scan fails and `v` keeps its value. It fails when the line
   * does not start with the literal `VERSION_ID=`, and when only white space
   * (or a newline after white space) follows it.
   */
  function ScanVersionId(line: Bytes): (r: Option<Bytes>)
    ensures r.Some? ==> HasPrefix(line, VersionIdPrefix)
    ensures r.Some? ==> r.value != [] && forall k :: 0 <= k < |r.value| ==> !IsSpace(r.value[k])
  {
    if !HasPrefix(line, VersionIdPrefix) then None
    else
      var rest := SkipSpace(line[|VersionIdPrefix|..]);
      if rest == [] || rest[0] == '\n' then None else Some(Token(rest))
  }

  /** One pass of the loop over the lines of os-release. */
  function AfterLine(version: Bytes, line: Bytes): Bytes
  {
    if Contains(line, VersionIdKey) then ScanVersionId(line).GetOr(version) else version
  }

  /** The version after the loop over `lines`, starting from `version`. */
  function AfterLines(version: Bytes, lines: seq<Bytes>): Bytes
    decreases |lines|
  {
    if lines == [] then version
    else AfterLine(AfterLines(version, lines[..|lines| - 1]), lines[|lines| - 1])
  }

  /** The version after one os-release payload, given the one before it. */
  function OsReleaseVersion(payload: Bytes, version: Bytes): Bytes
  {
    AfterLines(version, Split(payload, LineSeparator))
  }

  /** The loop of `AlpineScanner` over the lines of one os-release payload. */
  method ParseOsRelease(payload: Bytes, version: Bytes) returns (v: Bytes)
    ensures v == OsReleaseVersion(payload, version)
    ensures v == version || (v != [] && forall k :: 0 <= k < |v| ==> !IsSpace(v[k]))
  {
    var lines := Split(payload, LineSeparator);
    v := version;
    for i := 0 to |lines|
      invariant v == AfterLines(version, lines[..i])
    {
      assert lines[..i + 1][..i] == lines[..i];
      var line := lines[i];
      if Contains(line, VersionIdKey) {
        var scanned := ScanVersionId(line);
        if scanned.Some? {
          v := scanned.value;
        }
      }
    }
    assert lines[..|lines|] == lines;
    LastVersionIdWins(version, lines);
  }

  // ---------------------------------------------------------------------
  // What Sscanf accepts.
  // ---------------------------------------------------------------------

  /** The `strings.Contains` guard never changes the result: every line that
      Sscanf accepts contains `VERSION_ID`. */
  lemma GuardRedundant(version: Bytes, line: Bytes)
    ensures AfterLine(version, line) == ScanVersionId(line).GetOr(version)
  {
    if ScanVersionId(line).Some? {
      assert line[..|VersionIdKey|] == VersionIdKey by {
        assert line[..|VersionIdPrefix|][..|VersionIdKey|] == VersionIdKey;
      }
      assert OccursAt(line, VersionIdKey, 0);
      ContainsWitness(line, VersionIdKey, 0);
    }
  }

  /** A line `VERSION_ID=`, then spaces, then a word, then nothing or white
      space: Sscanf stores exactly the word, quotes and all. */
  lemma ScanVersionIdWord(pad: Bytes, word: Bytes, rest: Bytes)
    requires forall k :: 0 <= k < |pad| ==> IsSpace(pad[k]) && pad[k] != '\n'
    requires word != [] && forall k :: 0 <= k < |word| ==> !IsSpace(word[k])
    requires rest == [] || IsSpace(rest[0])
    ensures ScanVersionId(VersionIdPrefix + (pad + (word + rest))) == Some(word)
  {
    var value := pad + (word + rest);
    var line := VersionIdPrefix + value;
    assert HasPrefix(line, VersionIdPrefix) by {
      assert line[..|VersionIdPrefix|] == VersionIdPrefix;
    }
    assert line[|VersionIdPrefix|..] == value;
    assert (word + rest)[0] == word[0];
    SkipSpaceOver(pad, word + rest);
    TokenOver(word, rest);
  }

  lemma {:induction false} SkipSpaceOver(pad: Bytes, s: Bytes)
    requires forall k :: 0 <= k < |pad| ==> IsSpace(pad[k]) && pad[k] != '\n'
    requires s != [] && !IsSpace(s[0])
    ensures SkipSpace(pad + s) == s
    decreases |pad|
  {
    if pad != [] {
      assert (pad + s)[0] == pad[0];
      assert (pad + s)[1..] == pad[1..] + s;
      SkipSpaceOver(pad[1..], s);
    } else {
      assert pad + s == s;
    }
  }

  lemma {:induction false} TokenOver(word: Bytes, rest: Bytes)
    requires forall k :: 0 <= k < |word| ==> !IsSpace(word[k])
    requires rest == [] || IsSpace(rest[0])
    ensures Token(word + rest) == word
    decreases |word|
  {
    if word != [] {
      assert (word + rest)[1..] == word[1..] + rest;
      TokenOver(word[1..], rest);
    } else {
      assert word + rest == rest;
    }
  }

  /** Sscanf fails, and the version is kept, on a line that does not start
      with `VERSION_ID=` or holds nothing but white space after it. */
  lemma ScanVersionIdFails(line: Bytes)
    requires !HasPrefix(line, VersionIdPrefix) ||
             forall k :: |VersionIdPrefix| <= k < |line| ==> IsSpace(line[k])
    ensures ScanVersionId(line) == None
  {
    if HasPrefix(line, VersionIdPrefix) {
      var s := line[|VersionIdPrefix|..];
      SkipSpaceSuffix(s);
      assert forall k :: 0 <= k < |s| ==> IsSpace(s[k]) by {
        forall k | 0 <= k < |s| ensures IsSpace(s[k]) {
          assert s[k] == line[|VersionIdPrefix| + k];
        }
      }
    }
  }

  // ---------------------------------------------------------------------
  // Last line wins.
  // ---------------------------------------------------------------------

  /** The index of the last line Sscanf accepts, if any. */
  function LastVersionIdLine(lines: seq<Bytes>): (r: Option<nat>)
    ensures r.Some? ==> r.value < |lines| && ScanVersionId(lines[r.value]).Some?
    decreases |lines|
  {
    if lines == [] then None
    else if ScanVersionId(lines[|lines| - 1]).Some? then Some(|lines| - 1)
    else
      var r := LastVersionIdLine(lines[..|lines| - 1]);
      assert r.Some? ==> lines[..|lines| - 1][r.value] == lines[r.value];
      r
  }

  /** No line after the one found is accepted; with no line found, no line
      is accepted at all. */
  lemma {:induction false} LastVersionIdLineIsLast(lines: seq<Bytes>)
    ensures LastVersionIdLine(lines).Some? ==>
      forall k :: LastVersionIdLine(lines).value < k < |lines| ==> ScanVersionId(lines[k]).None?
    ensures LastVersionIdLine(lines).None? ==> forall k :: 0 <= k < |lines| ==> ScanVersionId(lines[k]).None?
    decreases |lines|
  {
    if lines != [] && ScanVersionId(lines[|lines| - 1]).None? {
      var init := lines[..|lines| - 1];
      LastVersionIdLineIsLast(init);
      var r := LastVersionIdLine(init);
      assert LastVersionIdLine(lines) == r;
      var from := if r.Some? then r.value + 1 else 0;
      forall k | from <= k < |lines|
        ensures ScanVersionId(lines[k]).None?
      {
        if k < |init| {
          assert lines[k] == init[k];
        }
      }
    }
  }

  /** The version after the loop is the word of the last `VERSION_ID=` line
      Sscanf accepts; with no such line it is the version from before. */
  lemma {:induction false} LastVersionIdWins(version: Bytes, lines: seq<Bytes>)
    ensures AfterLines(version, lines) ==
      match LastVersionIdLine(lines)
      case None => version
      case Some(k) => ScanVersionId(lines[k]).value
    decreases |lines|
  {
    if lines != [] {
      LastVersionIdWins(version, lines[..|lines| - 1]);
      GuardRedundant(AfterLines(version, lines[..|lines| - 1]), lines[|lines| - 1]);
    }
  }

  /** A payload whose last line is `VERSION_ID=<word>` sets the version to
      the word, whatever came before it and whatever the version was. */
  lemma LastLineSetsVersion(payload: Bytes, word: Bytes, version: Bytes)
    requires word != [] && forall k :: 0 <= k < |word| ==> !IsSpace(word[k])
    ensures OsReleaseVersion(payload + LineSeparator + (VersionIdPrefix + word), version) == word
  {
    var line := VersionIdPrefix + word;
    WordLineNoNewline(word);
    SplitSnoc(payload, line);
    var lines := Split(payload, LineSeparator);
    AfterLinesSnoc(version, lines, line);
    WordLineScans(word);
    GuardRedundant(AfterLines(version, lines), line);
  }

  lemma AfterLinesSnoc(version: Bytes, lines: seq<Bytes>, line: Bytes)
    ensures AfterLines(version, lines + [line]) == AfterLine(AfterLines(version, lines), line)
  {
    var all := lines + [line];
    assert all[..|all| - 1] == lines && all[|all| - 1] == line;
  }

  lemma WordLineScans(word: Bytes)
    requires word != [] && forall k :: 0 <= k < |word| ==> !IsSpace(word[k])
    ensures ScanVersionId(VersionIdPrefix + word) == Some(word)
  {
    ScanVersionIdWord([], word, []);
    assert VersionIdPrefix + ([] + (word + [])) == VersionIdPrefix + word;
  }

  lemma WordLineNoNewline(word: Bytes)
    requires forall k :: 0 <= k < |word| ==> !IsSpace(word[k])
    ensures forall k :: 0 <= k < |VersionIdPrefix + word| ==> (VersionIdPrefix + word)[k] != '\n'
  {
    var line := VersionIdPrefix + word;
    forall k | 0 <= k < |line| ensures line[k] != '\n' {
      if k >= |VersionIdPrefix| { assert line[k] == word[k - |VersionIdPrefix|]; }
    }
  }

  /** Appending a newline and a line without newlines to a payload appends
      that line to its lines. */
  lemma SplitSnoc(payload: Bytes, line: Bytes)
    requires forall k :: 0 <= k < |line| ==> line[k] != '\n'
    ensures Split(payload + LineSeparator + line, LineSeparator) == Split(payload, LineSeparator) + [line]
  {
    SingleByteDelimited(line, '\n');
    var lines := Split(payload, LineSeparator);
    SplitPieces(payload, LineSeparator);
    var all := lines + [line];
    JoinSnoc(lines, line, LineSeparator);
    NoNewlineDelimited(lines[|lines| - 1]);
    forall k | 0 <= k < |all| - 1
      ensures Delimited(all[k], LineSeparator)
    {
      assert all[k] == lines[k];
      if k < |lines| - 1 {
        assert Delimited(lines[k], LineSeparator);
      }
    }
    assert all[|all| - 1] == line;
    SplitJoin(all, LineSeparator);
  }

  /** A line with no newline in it is delimited by a newline. */
  lemma NoNewlineDelimited(line: Bytes)
    requires !Contains(line, LineSeparator)
    ensures Delimited(line, LineSeparator)
  {
    forall k | 0 <= k < |line| ensures line[k] != '\n' {
      if line[k] == '\n' {
        assert OccursAt(line, LineSeparator, k) by {
          assert line[k..k + 1] == [line[k]];
        }
        ContainsWitness(line, LineSeparator, k);
      }
    }
    SingleByteDelimited(line, '\n');
  }

  lemma JoinSnoc(pieces: seq<Bytes>, last: Bytes, sep: Bytes)
    requires |pieces| >= 1
    ensures Join(pieces + [last], sep) == Join(pieces, sep) + sep + last
    decreases |pieces|
  {
    if |pieces| == 1 {
      assert (pieces + [last])[1..] == [last];
    } else {
      assert (pieces + [last])[1..] == pieces[1..] + [last];
      JoinSnoc(pieces[1..], last, sep);
    }
  }
}
