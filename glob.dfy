/**
 * Shell-style name matching as Python's fnmatch performs it on POSIX
 * (case-sensitive), for patterns made of '*' (any run of characters,
 * possibly empty), '?' (any one character) and ordinary characters that
 * match themselves.
 */
module Glob {

  predicate Match(pattern: string, name: string)
    decreases |pattern| + |name|
  {
    if pattern == [] then name == []
    else if pattern[0] == '*' then
      Match(pattern[1..], name) || (name != [] && Match(pattern, name[1..]))
    else
      name != [] && (pattern[0] == '?' || pattern[0] == name[0]) && Match(pattern[1..], name[1..])
  }

  /** fnmatch.fnmatch(name, pattern), with the library's argument order. */
  predicate FnMatch(name: string, pattern: string)
  {
    Match(pattern, name)
  }

  predicate StarFree(p: string)
  {
    forall i :: 0 <= i < |p| ==> p[i] != '*'
  }

  /** Position-by-position match of a name against a pattern without '*'. */
  predicate FixedMatch(p: string, s: string)
  {
    |s| == |p| && forall i :: 0 <= i < |p| ==> p[i] == '?' || p[i] == s[i]
  }

  /** Without '*', a pattern matches exactly the names of its own length
      that agree with it wherever it does not hold '?'. */
  lemma {:induction false} MatchStarFree(p: string, s: string)
    requires StarFree(p)
    ensures Match(p, s) <==> FixedMatch(p, s)
    decreases |p|
  {
    if p != [] && s != [] {
      assert StarFree(p[1..]) by {
        assert forall i :: 0 <= i < |p| - 1 ==> p[1..][i] == p[i + 1];
      }
      MatchStarFree(p[1..], s[1..]);
      if FixedMatch(p, s) {
        assert forall i :: 0 <= i < |p| - 1 ==> p[1..][i] == p[i + 1] && s[1..][i] == s[i + 1];
        assert FixedMatch(p[1..], s[1..]);
      }
      if (p[0] == '?' || p[0] == s[0]) && FixedMatch(p[1..], s[1..]) {
        forall i | 0 <= i < |p| ensures p[i] == '?' || p[i] == s[i] {
          if i > 0 {
            assert p[1..][i - 1] == p[i] && s[1..][i - 1] == s[i];
          }
        }
      }
    }
  }

  /** A leading '*' lets the rest of the pattern match any suffix. */
  lemma {:induction false} MatchLeadingStar(q: string, s: string)
    ensures Match(['*'] + q, s) <==> exists k :: 0 <= k <= |s| && Match(q, s[k..])
    decreases |s|
  {
    var p := ['*'] + q;
    assert p[1..] == q;
    assert s[0..] == s;
    if s != [] {
      MatchLeadingStar(q, s[1..]);
      assert forall k :: 0 <= k <= |s| - 1 ==> s[1..][k..] == s[k + 1..];
      if Match(p, s[1..]) {
        var k :| 0 <= k <= |s| - 1 && Match(q, s[1..][k..]);
        assert Match(q, s[k + 1..]);
      }
      if exists k :: 0 <= k <= |s| && Match(q, s[k..]) {
        var k :| 0 <= k <= |s| && Match(q, s[k..]);
        if k > 0 {
          assert Match(q, s[1..][k - 1..]);
        }
      }
    }
  }

  /** A pattern made of '*' and then a star-free tail matches exactly the
      names whose last characters match that tail. */
  lemma MatchStarThenFixed(q: string, s: string)
    requires StarFree(q)
    ensures Match(['*'] + q, s) <==> |s| >= |q| && FixedMatch(q, s[|s| - |q|..])
  {
    MatchLeadingStar(q, s);
    if Match(['*'] + q, s) {
      var k :| 0 <= k <= |s| && Match(q, s[k..]);
      MatchStarFree(q, s[k..]);
    }
    if |s| >= |q| && FixedMatch(q, s[|s| - |q|..]) {
      MatchStarFree(q, s[|s| - |q|..]);
    }
  }
}
