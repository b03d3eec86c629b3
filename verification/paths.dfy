/**
 * The path helpers the project updater relies on: Node's POSIX
 * `path.dirname`, and the normalisation of the project root.
 */
module Paths {

  /** Index of the last '/' in `p`. */
  function LastSlash(p: string): (i: nat)
    requires '/' in p
    ensures i < |p| && p[i] == '/'
    ensures forall j :: i < j < |p| ==> p[j] != '/'
  {
    if p[|p| - 1] == '/' then |p| - 1
    else
      assert '/' in p[..|p| - 1] by {
        var k :| 0 <= k < |p| && p[k] == '/';
        assert p[..|p| - 1][k] == '/';
      }
      LastSlash(p[..|p| - 1])
  }

  /** Some character after index `e` of `p` is not a '/'. */
  ghost predicate TextAfter(p: string, e: nat) {
    exists j :: e < j < |p| && p[j] != '/'
  }

  /**
   * A separator `dirname` may cut at: a '/' at index 1 or later that some
   * non-'/' character follows (trailing slashes do not count).
   */
  ghost predicate IsCut(p: string, e: int) {
    1 <= e < |p| && p[e] == '/' && TextAfter(p, e)
  }

  /**
   * Node's scan from index `i` down to 1: the first '/' met once a non-'/'
   * character has been seen (`seen` says one was seen after `i`), or -1.
   */
  function ScanEnd(p: string, i: nat, seen: bool): (e: int)
    requires i < |p|
    requires seen == TextAfter(p, i)
    requires forall e' :: i < e' < |p| ==> !IsCut(p, e')
    ensures e == -1 ==> forall e' :: 1 <= e' < |p| ==> !IsCut(p, e')
    ensures e != -1 ==> 1 <= e <= i && IsCut(p, e) && forall e' :: e < e' < |p| ==> !IsCut(p, e')
    decreases i
  {
    if i == 0 then -1
    else if p[i] == '/' then
      if seen then i
      else
        assert !TextAfter(p, i - 1) by {
          forall j | i - 1 < j < |p|
            ensures p[j] == '/'
          {
            if j > i {
              assert !TextAfter(p, i);
            }
          }
        }
        ScanEnd(p, i - 1, false)
    else
      assert TextAfter(p, i - 1) by {
        assert p[i] != '/';
      }
      ScanEnd(p, i - 1, true)
  }

  /**
   * Node's POSIX `path.dirname`: "." for the empty path; the path up to its
   * last cut; with no cut, "/" for a rooted path and "." otherwise; and "//"
   * when a rooted path's last cut is at index 1.
   */
  function Dirname(p: string): (d: string)
    ensures |p| == 0 ==> d == "."
    ensures |p| > 0 && (forall e :: 1 <= e < |p| ==> !IsCut(p, e)) ==> d == (if p[0] == '/' then "/" else ".")
    ensures forall e :: IsCut(p, e) && (forall e' :: e < e' < |p| ==> !IsCut(p, e')) ==>
              d == (if p[0] == '/' && e == 1 then "//" else p[..e])
  {
    if |p| == 0 then "."
    else
      var end := ScanEnd(p, |p| - 1, false);
      if end == -1 then (if p[0] == '/' then "/" else ".")
      else if p[0] == '/' && end == 1 then "//"
      else p[..end]
  }

  /**
   * On a relative path that does not end in '/', `dirname` is everything
   * before the last '/', or "." when there is none.
   */
  lemma DirnameRelative(p: string)
    requires |p| > 0 && p[0] != '/' && p[|p| - 1] != '/'
    ensures '/' !in p ==> Dirname(p) == "."
    ensures '/' in p ==> Dirname(p) == p[..LastSlash(p)]
  {
    if '/' in p {
      var e := LastSlash(p);
      assert IsCut(p, e) by {
        assert p[|p| - 1] != '/';
      }
    } else {
      forall e | 1 <= e < |p|
        ensures !IsCut(p, e)
      {
        assert p[e] != '/';
      }
    }
  }

  /** Node's answers on a root-level path, a doubled root and trailing or doubled slashes. */
  lemma DirnameEdges()
    ensures Dirname("/a") == "/"
    ensures Dirname("//a") == "//"
    ensures Dirname("a/b/") == "a"
    ensures Dirname("a//b") == "a/"
    ensures Dirname("/") == "/"
  {
    assert IsCut("a/b/", 1) by {
      assert "a/b/"[2] != '/';
    }
    assert IsCut("a//b", 2) by {
      assert "a//b"[3] != '/';
    }
    assert IsCut("//a", 1) by {
      assert "//a"[2] != '/';
    }
  }

  /** Every backslash turned into a forward slash (`replace(/\\/g, '/')`). */
  function Slashed(s: string): (r: string)
    ensures |r| == |s|
    ensures '\\' !in r
    ensures forall i :: 0 <= i < |s| && s[i] != '\\' ==> r[i] == s[i]
    ensures forall i :: 0 <= i < |s| && s[i] == '\\' ==> r[i] == '/'
  {
    seq(|s|, i requires 0 <= i < |s| => if s[i] == '\\' then '/' else s[i])
  }

  /**
   * The project root as the constructor stores it: backslashes become '/',
   * one trailing '/' is dropped, and a single '/' is appended.
   */
  function NormalizeRoot(path: string): (root: string)
    ensures |root| > 0 && root[|root| - 1] == '/'
    ensures '\\' !in root
    ensures var s := Slashed(path);
            if |s| > 0 && s[|s| - 1] == '/' then root == s else root == s + "/"
  {
    var s := Slashed(path);
    var trimmed := if |s| > 0 && s[|s| - 1] == '/' then s[..|s| - 1] else s;
    trimmed + "/"
  }
}
