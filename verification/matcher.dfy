/**
 * The join loop of `AlpineMatcher`: every installed package against every
 * entry of an already decoded security database feed. A package is reported
 * when a feed entry carries its exact name and lists its exact version as a
 * key of `secfixes`. Fetching and decoding the feed are outside the model.
 */
module Matcher {
  import opened GoBytes
  import opened ApkDb
  import opened Scanner

  /** `SecDBPkg`: a package name and, per version, the CVEs listed for it. */
  datatype SecDBPkg = SecDBPkg(name: Bytes, secfixes: map<Bytes, seq<Bytes>>)

  /** `SecDBPackage`: one element of the feed's `packages` array. */
  datatype SecDBPackage = SecDBPackage(pkg: SecDBPkg)

  /** `Vulnerability`: the CVEs, the package name, and a version field that
      the matcher never fills in. */
  datatype Vulnerability = Vulnerability(cves: seq<Bytes>, packageName: Bytes, version: Bytes)

  /** The feed entry names the package and lists its installed version. */
  predicate Affects(fix: SecDBPkg, p: AlpinePackage)
  {
    fix.name == p.name && p.version in fix.secfixes
  }

  /** The vulnerability reported for `p` because of `fix`. */
  function Hit(fix: SecDBPkg, p: AlpinePackage): Vulnerability
    requires Affects(fix, p)
  {
    Vulnerability(fix.secfixes[p.version], p.name, [])
  }

  /** What the inner loop appends for one installed package. */
  function MatchPackage(p: AlpinePackage, feed: seq<SecDBPackage>): (r: seq<Vulnerability>)
    ensures |r| <= |feed|
    decreases |feed|
  {
    if feed == [] then []
    else
      var fix := feed[|feed| - 1].pkg;
      MatchPackage(p, feed[..|feed| - 1]) + (if Affects(fix, p) then [Hit(fix, p)] else [])
  }

  /** What the nested loops produce, package by package. */
  function MatchAll(packages: seq<AlpinePackage>, feed: seq<SecDBPackage>): seq<Vulnerability>
    decreases |packages|
  {
    if packages == [] then []
    else MatchAll(packages[..|packages| - 1], feed) + MatchPackage(packages[|packages| - 1], feed)
  }

  /** The join loop of `AlpineMatcher` over the report's packages and the feed. */
  method AlpineMatcher(report: AlpineReport, feed: seq<SecDBPackage>) returns (vulns: seq<Vulnerability>)
    ensures vulns == MatchAll(report.packages, feed)
  {
    var packages := report.packages;
    vulns := [];
    for i := 0 to |packages|
      invariant vulns == MatchAll(packages[..i], feed)
    {
      var installed := packages[i];
      assert packages[..i + 1][..i] == packages[..i];
      for j := 0 to |feed|
        invariant vulns == MatchAll(packages[..i], feed) + MatchPackage(installed, feed[..j])
      {
        var fix := feed[j].pkg;
        assert feed[..j + 1][..j] == feed[..j];
        if fix.name == installed.name {
          if installed.version in fix.secfixes {
            vulns := vulns + [Vulnerability(fix.secfixes[installed.version], installed.name, [])];
          }
        }
      }
      assert feed[..|feed|] == feed;
    }
    assert packages[..|packages|] == packages;
  }

  // ---------------------------------------------------------------------
  // Properties of the join.
  // ---------------------------------------------------------------------

  /** Some feed entry names `p`, lists its version, and yields `v`. */
  predicate HitBy(p: AlpinePackage, feed: seq<SecDBPackage>, v: Vulnerability)
  {
    exists j :: 0 <= j < |feed| && Affects(feed[j].pkg, p) && v == Hit(feed[j].pkg, p)
  }

  /** A package's vulnerabilities are exactly its hits in the feed. */
  lemma {:induction false} MatchPackageMembers(p: AlpinePackage, feed: seq<SecDBPackage>, v: Vulnerability)
    ensures v in MatchPackage(p, feed) <==> HitBy(p, feed, v)
    decreases |feed|
  {
    if feed != [] {
      var init, fix := feed[..|feed| - 1], feed[|feed| - 1].pkg;
      MatchPackageMembers(p, init, v);
      var last: seq<Vulnerability> := if Affects(fix, p) then [Hit(fix, p)] else [];
      assert MatchPackage(p, feed) == MatchPackage(p, init) + last;
      assert v in MatchPackage(p, feed) <==> v in MatchPackage(p, init) || v in last;
      if v in last {
        assert Affects(fix, p) && v == Hit(fix, p);
      }
      if HitBy(p, init, v) {
        var j :| 0 <= j < |init| && Affects(init[j].pkg, p) && v == Hit(init[j].pkg, p);
        assert feed[j] == init[j];
      }
      if HitBy(p, feed, v) {
        var j :| 0 <= j < |feed| && Affects(feed[j].pkg, p) && v == Hit(feed[j].pkg, p);
        if j < |init| {
          assert init[j] == feed[j];
        }
      }
    }
  }

  /** Every reported vulnerability comes from an installed package and a feed
      entry with its exact name and version, and every such pair is reported:
      it carries the listed CVEs, the package's name and an empty version. */
  lemma {:induction false} MatchAllMembers(packages: seq<AlpinePackage>, feed: seq<SecDBPackage>, v: Vulnerability)
    ensures v in MatchAll(packages, feed) <==> exists i :: 0 <= i < |packages| && HitBy(packages[i], feed, v)
    decreases |packages|
  {
    if packages != [] {
      var init, p := packages[..|packages| - 1], packages[|packages| - 1];
      MatchAllMembers(init, feed, v);
      MatchPackageMembers(p, feed, v);
      assert MatchAll(packages, feed) == MatchAll(init, feed) + MatchPackage(p, feed);
      assert v in MatchAll(packages, feed) <==> v in MatchAll(init, feed) || v in MatchPackage(p, feed);
      if exists i :: 0 <= i < |init| && HitBy(init[i], feed, v) {
        var i :| 0 <= i < |init| && HitBy(init[i], feed, v);
        assert packages[i] == init[i];
      }
      if exists i :: 0 <= i < |packages| && HitBy(packages[i], feed, v) {
        var i :| 0 <= i < |packages| && HitBy(packages[i], feed, v);
        if i < |init| {
          assert init[i] == packages[i];
        }
      }
    }
  }

  /** Results come in feed order for one package: matching against `f + g`
      is matching against `f`, then against `g`. A feed entry listed twice is
      reported twice. */
  lemma {:induction false} MatchPackageAppend(p: AlpinePackage, f: seq<SecDBPackage>, g: seq<SecDBPackage>)
    ensures MatchPackage(p, f + g) == MatchPackage(p, f) + MatchPackage(p, g)
    decreases |g|
  {
    if g == [] {
      assert f + g == f;
    } else {
      var g', fix := g[..|g| - 1], g[|g| - 1].pkg;
      assert (f + g)[..|f + g| - 1] == f + g';
      assert (f + g)[|f + g| - 1] == g[|g| - 1];
      MatchPackageAppend(p, f, g');
      var last: seq<Vulnerability> := if Affects(fix, p) then [Hit(fix, p)] else [];
      assert MatchPackage(p, f + g) == MatchPackage(p, f + g') + last;
      AppendAssoc(MatchPackage(p, f), MatchPackage(p, g'), last);
    }
  }

  /** Results come in package order: matching `ps + qs` is matching `ps`,
      then `qs`; a package installed twice is reported twice. */
  lemma {:induction false} MatchAllAppend(ps: seq<AlpinePackage>, qs: seq<AlpinePackage>, feed: seq<SecDBPackage>)
    ensures MatchAll(ps + qs, feed) == MatchAll(ps, feed) + MatchAll(qs, feed)
    decreases |qs|
  {
    if qs == [] {
      assert ps + qs == ps;
    } else {
      var qs', q := qs[..|qs| - 1], qs[|qs| - 1];
      assert (ps + qs)[..|ps + qs| - 1] == ps + qs';
      assert (ps + qs)[|ps + qs| - 1] == q;
      MatchAllAppend(ps, qs', feed);
      assert MatchAll(ps + qs, feed) == MatchAll(ps + qs', feed) + MatchPackage(q, feed);
      AppendAssoc(MatchAll(ps, feed), MatchAll(qs', feed), MatchPackage(q, feed));
    }
  }

  /** One installed package against one feed entry: one vulnerability exactly
      when the names agree and the version is a key, and none otherwise. */
  lemma MatchSingle(p: AlpinePackage, fix: SecDBPkg)
    ensures MatchAll([p], [SecDBPackage(fix)]) ==
      if fix.name == p.name && p.version in fix.secfixes
      then [Vulnerability(fix.secfixes[p.version], p.name, [])]
      else []
  {
    var one := [p];
    assert one[..0] == [];
    var feed := [SecDBPackage(fix)];
    assert feed[..0] == [];
  }

  /** A fix listed only for another version is not reported; the exact
      version is. */
  lemma MuslExample()
    ensures MatchAll([AlpinePackage("musl", "1.2.3-r0")],
                     [SecDBPackage(SecDBPkg("musl", map["1.2.4-r0" := ["CVE-2022-1234"]]))]) == []
    ensures MatchAll([AlpinePackage("musl", "1.2.3-r0")],
                     [SecDBPackage(SecDBPkg("musl", map["1.2.3-r0" := ["CVE-2022-1234"]]))]) ==
            [Vulnerability(["CVE-2022-1234"], "musl", [])]
  {
    var p := AlpinePackage("musl", "1.2.3-r0");
    var later := SecDBPkg("musl", map["1.2.4-r0" := ["CVE-2022-1234"]]);
    var exact := SecDBPkg("musl", map["1.2.3-r0" := ["CVE-2022-1234"]]);
    MatchSingle(p, later);
    MatchSingle(p, exact);
    assert p.version !in later.secfixes by {
      assert p.version[4] != "1.2.4-r0"[4];
    }
  }
}
