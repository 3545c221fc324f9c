/**
 * Go byte strings and the two functions of Go's `bytes` package that the
 * scanner relies on: `bytes.Index` (leftmost occurrence) and `bytes.Split`
 * with a non-empty separator, together with `bytes.Join` as its inverse.
 */
module GoBytes {
  import opened Wrappers

  /** A Go byte, written as the character with the same code so that ASCII
      literals such as 'P' or "lib/apk/db/installed" read as in the source. */
  type Byte = c: char | c as int < 256

  /** A Go `[]byte` or `string`: both are plain byte sequences. */
  type Bytes = seq<Byte>

  /** The separator both parsers split a file into lines with. */
  const LineSeparator: Bytes := "\n"

  /** `sep` occurs in `s` starting at index `i`. */
  predicate OccursAt(s: Bytes, sep: Bytes, i: int)
  {
    0 <= i && i + |sep| <= |s| && s[i..i + |sep|] == sep
  }

  /** The leftmost occurrence of `sep` in `s` at or after `from`. */
  function IndexFrom(s: Bytes, sep: Bytes, from: nat): (r: Option<nat>)
    requires from <= |s|
    ensures r.Some? ==> from <= r.value && OccursAt(s, sep, r.value)
    ensures forall m :: from <= m && (r.None? || m < r.value) ==> !OccursAt(s, sep, m)
    decreases |s| - from
  {
    if from + |sep| > |s| then None
    else if s[from..from + |sep|] == sep then Some(from)
    else IndexFrom(s, sep, from + 1)
  }

  /** `bytes.Index(s, sep)`, with None for Go's -1. */
  function Index(s: Bytes, sep: Bytes): Option<nat>
  {
    IndexFrom(s, sep, 0)
  }

  /** `strings.Contains(s, sub)`. */
  predicate Contains(s: Bytes, sub: Bytes)
  {
    Index(s, sub).Some?
  }

  predicate HasPrefix(s: Bytes, prefix: Bytes)
  {
    |prefix| <= |s| && s[..|prefix|] == prefix
  }

  /** The first occurrence is the one the search reports. */
  lemma IndexLeftmost(s: Bytes, sep: Bytes, i: nat)
    requires OccursAt(s, sep, i)
    requires forall m :: 0 <= m < i ==> !OccursAt(s, sep, m)
    ensures Index(s, sep) == Some(i)
  {
  }

  lemma OccursAtPrefix(s: Bytes, sep: Bytes, n: nat, m: int)
    requires n <= |s|
    requires OccursAt(s[..n], sep, m)
    ensures OccursAt(s, sep, m)
  {
    assert s[..n][m..m + |sep|] == s[m..m + |sep|];
  }

  lemma OccursInPrefix(s: Bytes, sep: Bytes, n: nat, m: int)
    requires n <= |s| && m + |sep| <= n
    requires OccursAt(s, sep, m)
    ensures OccursAt(s[..n], sep, m)
  {
    assert s[..n][m..m + |sep|] == s[m..m + |sep|];
  }

  lemma ContainsWitness(s: Bytes, sub: Bytes, m: int)
    requires OccursAt(s, sub, m)
    ensures Contains(s, sub)
  {
  }

  /** `bytes.Join(pieces, sep)`. */
  function Join(pieces: seq<Bytes>, sep: Bytes): Bytes
  {
    if |pieces| == 0 then []
    else if |pieces| == 1 then pieces[0]
    else pieces[0] + sep + Join(pieces[1..], sep)
  }

  /** No occurrence of `sep` starts inside `piece` when `sep` follows it:
      the leftmost search of a joined string stops right after `piece`. */
  predicate Delimited(piece: Bytes, sep: Bytes)
  {
    forall m :: 0 <= m < |piece| ==> !OccursAt(piece + sep, sep, m)
  }

  lemma DelimitedNotContains(piece: Bytes, sep: Bytes)
    requires |sep| > 0 && Delimited(piece, sep)
    ensures !Contains(piece, sep)
  {
    if Contains(piece, sep) {
      var m := Index(piece, sep).value;
      assert (piece + sep)[..|piece|] == piece;
      OccursAtPrefix(piece + sep, sep, |piece|, m);
      assert false;
    }
  }

  /**
   * `bytes.Split(s, sep)` for a non-empty separator: the pieces between the
   * non-overlapping occurrences of `sep`, found from left to right. The
   * pieces join back to `s`.
   */
  function Split(s: Bytes, sep: Bytes): (pieces: seq<Bytes>)
    requires |sep| > 0
    ensures |pieces| >= 1
    ensures Join(pieces, sep) == s
    decreases |s|
  {
    match Index(s, sep)
    case None => [s]
    case Some(i) =>
      var tail := Split(s[i + |sep|..], sep);
      assert s[..i] + sep + s[i + |sep|..] == s by {
        assert s[i..i + |sep|] == sep;
        assert s == s[..i] + s[i..i + |sep|] + s[i + |sep|..];
      }
      assert ([s[..i]] + tail)[1..] == tail;
      [s[..i]] + tail
  }

  /** None of the pieces contains `sep`, and the search finds no earlier
      separator inside any piece but the last. */
  lemma {:induction false} SplitPieces(s: Bytes, sep: Bytes)
    requires |sep| > 0
    ensures forall k :: 0 <= k < |Split(s, sep)| ==> !Contains(Split(s, sep)[k], sep)
    ensures forall k :: 0 <= k < |Split(s, sep)| - 1 ==> Delimited(Split(s, sep)[k], sep)
    decreases |s|
  {
    match Index(s, sep)
    case None =>
    case Some(i) =>
      var head, tail := s[..i], Split(s[i + |sep|..], sep);
      SplitPieces(s[i + |sep|..], sep);
      HeadDelimited(s, sep, i);
      var pieces := Split(s, sep);
      assert pieces == [head] + tail;
      forall k | 0 <= k < |pieces|
        ensures !Contains(pieces[k], sep)
      {
        if k > 0 {
          assert pieces[k] == tail[k - 1];
        }
      }
      forall k | 0 <= k < |pieces| - 1
        ensures Delimited(pieces[k], sep)
      {
        if k > 0 {
          assert pieces[k] == tail[k - 1];
        }
      }
  }

  /** The piece before the leftmost separator is delimited by it. */
  lemma HeadDelimited(s: Bytes, sep: Bytes, i: nat)
    requires |sep| > 0 && Index(s, sep) == Some(i)
    ensures Delimited(s[..i], sep) && !Contains(s[..i], sep)
  {
    var head := s[..i];
    assert head + sep == s[..i + |sep|];
    forall m | 0 <= m < |head|
      ensures !OccursAt(head + sep, sep, m)
    {
      if OccursAt(head + sep, sep, m) {
        OccursAtPrefix(s, sep, i + |sep|, m);
        assert false;
      }
    }
    DelimitedNotContains(head, sep);
  }

  /** Splitting a joined sequence gives back its pieces whenever they are
      delimited and the last contains no separator. */
  lemma {:induction false} SplitJoin(pieces: seq<Bytes>, sep: Bytes)
    requires |sep| > 0 && |pieces| >= 1
    requires forall k :: 0 <= k < |pieces| - 1 ==> Delimited(pieces[k], sep)
    requires !Contains(pieces[|pieces| - 1], sep)
    ensures Split(Join(pieces, sep), sep) == pieces
    decreases |pieces|
  {
    if |pieces| == 1 {
      assert Join(pieces, sep) == pieces[0];
    } else {
      var head, rest := pieces[0], Join(pieces[1..], sep);
      var s := head + sep + rest;
      assert Join(pieces, sep) == s;
      assert Delimited(head, sep);
      assert OccursAt(s, sep, |head|) by {
        assert s[|head|..|head| + |sep|] == sep;
      }
      forall m | 0 <= m < |head|
        ensures !OccursAt(s, sep, m)
      {
        assert s[..|head| + |sep|] == head + sep;
        if OccursAt(s, sep, m) {
          OccursInPrefix(s, sep, |head| + |sep|, m);
          assert false;
        }
      }
      IndexLeftmost(s, sep, |head|);
      assert s[..|head|] == head;
      assert s[|head| + |sep|..] == rest;
      SplitJoin(pieces[1..], sep);
      assert Split(s, sep) == [head] + pieces[1..];
    }
  }

  /** A piece with no byte `b` in it, followed by the one-byte separator `[b]`. */
  lemma SingleByteDelimited(piece: Bytes, b: Byte)
    requires forall k :: 0 <= k < |piece| ==> piece[k] != b
    ensures Delimited(piece, [b]) && !Contains(piece, [b])
  {
    forall m | 0 <= m < |piece|
      ensures !OccursAt(piece + [b], [b], m)
    {
      assert (piece + [b])[m] == piece[m];
    }
    DelimitedNotContains(piece, [b]);
  }
}
