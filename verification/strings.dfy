/**
 * Substring search, and the `split`/`join` pair of JavaScript strings for a
 * non-empty separator, together with the facts that relate them.
 */
module Strings {
  import opened Optional

  /** `pat` occurs in `s` starting at index `i`. */
  predicate OccursAt(s: string, pat: string, i: nat) {
    i + |pat| <= |s| && s[i..i + |pat|] == pat
  }

  /** `pat` occurs somewhere in `s`. */
  ghost predicate Contains(s: string, pat: string) {
    exists i: nat :: OccursAt(s, pat, i)
  }

  predicate StartsWith(s: string, prefix: string) {
    |prefix| <= |s| && s[..|prefix|] == prefix
  }

  predicate EndsWith(s: string, suffix: string) {
    |suffix| <= |s| && s[|s| - |suffix|..] == suffix
  }

  /** Two endings of one string agree character by character from the end. */
  lemma EndingsDiffer(s: string, a: string, b: string, j: nat)
    requires j < |a| && j < |b| && a[|a| - 1 - j] != b[|b| - 1 - j]
    ensures !(EndsWith(s, a) && EndsWith(s, b))
  {
  }

  /** The first index at or after `from` where `pat` occurs in `s`. */
  function IndexFrom(s: string, pat: string, from: nat): (r: Option<nat>)
    requires from <= |s|
    ensures r.Some? ==> from <= r.value && OccursAt(s, pat, r.value)
    ensures r.Some? ==> forall j :: from <= j < r.value ==> !OccursAt(s, pat, j)
    ensures r.None? ==> forall j :: from <= j ==> !OccursAt(s, pat, j)
    decreases |s| - from
  {
    if OccursAt(s, pat, from) then Some(from)
    else if from + |pat| >= |s| then None
    else IndexFrom(s, pat, from + 1)
  }

  /** JavaScript's `s.indexOf(pat)`, with "not found" as None. */
  function IndexOf(s: string, pat: string): (r: Option<nat>)
    ensures r.Some? ==> OccursAt(s, pat, r.value)
    ensures r.Some? ==> forall j :: 0 <= j < r.value ==> !OccursAt(s, pat, j)
    ensures r.None? ==> !Contains(s, pat)
  {
    IndexFrom(s, pat, 0)
  }

  /** A piece of `s` that ends before the first occurrence of `pat` holds no occurrence of `pat`. */
  lemma BeforeFirstOccurrence(s: string, pat: string, i: nat)
    requires |pat| > 0 && i <= |s|
    requires forall j :: 0 <= j < i ==> !OccursAt(s, pat, j)
    ensures !Contains(s[..i], pat)
  {
    forall j: nat | OccursAt(s[..i], pat, j)
      ensures false
    {
      assert s[..i][j..j + |pat|] == s[j..j + |pat|];
      assert OccursAt(s, pat, j);
    }
  }

  /**
   * JavaScript's `s.split(sep)` for a non-empty separator: the pieces between
   * the non-overlapping occurrences of `sep`, scanned from the left.
   */
  function Split(s: string, sep: string): (parts: seq<string>)
    requires |sep| > 0
    ensures |parts| > 0
    ensures forall k :: 0 <= k < |parts| ==> !Contains(parts[k], sep)
    decreases |s|
  {
    match IndexOf(s, sep)
    case None => [s]
    case Some(i) =>
      BeforeFirstOccurrence(s, sep, i);
      [s[..i]] + Split(s[i + |sep|..], sep)
  }

  /** JavaScript's `parts.join(sep)`. */
  function Join(parts: seq<string>, sep: string): string
    decreases |parts|
  {
    if |parts| == 0 then ""
    else if |parts| == 1 then parts[0]
    else parts[0] + sep + Join(parts[1..], sep)
  }

  /**
   * The number of non-overlapping occurrences of `sep` in `s`, counted by a
   * left-to-right scan that skips past each occurrence it finds.
   */
  function Occurrences(s: string, sep: string): nat
    requires |sep| > 0
    decreases |s|
  {
    if |s| < |sep| then 0
    else if s[..|sep|] == sep then 1 + Occurrences(s[|sep|..], sep)
    else Occurrences(s[1..], sep)
  }

  /** `sep` has no proper prefix that is also a suffix, so two copies of it cannot overlap. */
  ghost predicate Borderless(sep: string) {
    forall k :: 0 < k < |sep| ==> sep[k..] != sep[..|sep| - k]
  }

  /** Joining the pieces of a split puts back exactly the separators it removed. */
  lemma {:induction false} JoinSplit(s: string, sep: string)
    requires |sep| > 0
    ensures Join(Split(s, sep), sep) == s
    decreases |s|
  {
    match IndexOf(s, sep)
    case None =>
    case Some(i) =>
      var rest := s[i + |sep|..];
      JoinSplit(rest, sep);
      var tail := Split(rest, sep);
      assert Split(s, sep) == [s[..i]] + tail;
      assert ([s[..i]] + tail)[1..] == tail;
      assert s[i..i + |sep|] == sep;
      assert s == s[..i] + s[i..i + |sep|] + rest;
  }

  /** Counting occurrences may jump straight to the first one. */
  lemma {:induction false} OccurrencesAtFirst(s: string, sep: string, i: nat)
    requires |sep| > 0
    requires OccursAt(s, sep, i)
    requires forall j :: 0 <= j < i ==> !OccursAt(s, sep, j)
    ensures Occurrences(s, sep) == 1 + Occurrences(s[i + |sep|..], sep)
    decreases i
  {
    if i == 0 {
      assert s[..|sep|] == sep;
    } else {
      assert !OccursAt(s, sep, 0);
      assert s[..|sep|] != sep;
      var t := s[1..];
      forall j | 0 <= j < i - 1
        ensures !OccursAt(t, sep, j)
      {
        assert !OccursAt(s, sep, j + 1);
        if j + |sep| <= |t| {
          assert t[j..j + |sep|] == s[j + 1..j + 1 + |sep|];
        }
      }
      assert t[i - 1..i - 1 + |sep|] == s[i..i + |sep|];
      OccurrencesAtFirst(t, sep, i - 1);
      assert t[i - 1 + |sep|..] == s[i + |sep|..];
    }
  }

  /** A string without occurrences counts none. */
  lemma {:induction false} OccurrencesNone(s: string, sep: string)
    requires |sep| > 0
    requires !Contains(s, sep)
    ensures Occurrences(s, sep) == 0
    decreases |s|
  {
    if |s| >= |sep| {
      assert !OccursAt(s, sep, 0);
      var t := s[1..];
      forall j: nat | OccursAt(t, sep, j)
        ensures false
      {
        assert t[j..j + |sep|] == s[j + 1..j + 1 + |sep|];
        assert OccursAt(s, sep, j + 1);
      }
      OccurrencesNone(t, sep);
    }
  }

  /** A split yields one more piece than there are separators in the input. */
  lemma {:induction false} SplitCount(s: string, sep: string)
    requires |sep| > 0
    ensures |Split(s, sep)| == Occurrences(s, sep) + 1
    decreases |s|
  {
    match IndexOf(s, sep)
    case None =>
      OccurrencesNone(s, sep);
    case Some(i) =>
      OccurrencesAtFirst(s, sep, i);
      SplitCount(s[i + |sep|..], sep);
  }

  /** With a borderless separator, the first separator after a separator-free piece sits right after it. */
  lemma FirstAfterPiece(head: string, sep: string, rest: string)
    requires |sep| > 0 && Borderless(sep)
    requires !Contains(head, sep)
    ensures IndexOf(head + sep + rest, sep) == Some(|head|)
  {
    var s := head + sep + rest;
    assert s[|head|..|head| + |sep|] == sep;
    assert OccursAt(s, sep, |head|);
    forall j | 0 <= j < |head|
      ensures !OccursAt(s, sep, j)
    {
      if j + |sep| <= |head| {
        assert !OccursAt(head, sep, j);
        assert head[j..j + |sep|] == s[j..j + |sep|];
      } else {
        var k := |head| - j;
        assert sep[k..] != sep[..|sep| - k];
        assert s[|head|..j + |sep|] == sep[..|sep| - k];
        if j + |sep| <= |s| {
          assert s[j..j + |sep|][k..] == s[|head|..j + |sep|];
        }
      }
    }
    var r := IndexOf(s, sep);
    assert r != None by {
      assert OccursAt(s, sep, |head|);
    }
    assert !(r.value < |head|);
  }

  /**
   * Splitting a join gives back the lines, when no line holds the separator
   * and copies of the separator cannot overlap (as for "\n" and "\r\n").
   */
  lemma {:induction false} SplitJoin(parts: seq<string>, sep: string)
    requires |sep| > 0 && Borderless(sep)
    requires |parts| > 0
    requires forall k :: 0 <= k < |parts| ==> !Contains(parts[k], sep)
    ensures Split(Join(parts, sep), sep) == parts
    decreases |parts|
  {
    if |parts| == 1 {
      var s := parts[0];
      assert Join(parts, sep) == s;
    } else {
      var tail := Join(parts[1..], sep);
      assert Join(parts, sep) == parts[0] + sep + tail;
      FirstAfterPiece(parts[0], sep, tail);
      var s := parts[0] + sep + tail;
      assert s[|parts[0]| + |sep|..] == tail;
      SplitJoin(parts[1..], sep);
      assert s[..|parts[0]|] == parts[0];
      assert Split(s, sep) == [parts[0]] + parts[1..];
    }
  }

  /** The two line terminators a text file uses can never overlap themselves. */
  lemma LineEndingsBorderless()
    ensures Borderless("\n")
    ensures Borderless("\r\n")
  {
    var crlf := "\r\n";
    assert crlf[1..] == "\n" && crlf[..1] == "\r";
  }
}
