/**
 * SQLite's `LIKE` operator without an ESCAPE clause: `%` matches any run of
 * characters, `_` matches exactly one, and every other character matches
 * itself with ASCII letters compared case-insensitively.
 */
module SqlLike {
  import opened Text

  /** `s LIKE p`. A pattern without wildcards matches exactly the strings of
      its length that agree with it character by character, ignoring ASCII
      case. */
  function Like(s: string, p: string): (r: bool)
    ensures NoWildcards(p) ==>
      (r <==> |s| == |p| && forall i :: 0 <= i < |s| ==> LowerChar(s[i]) == LowerChar(p[i]))
    decreases |s| + |p|
  {
    if p == [] then s == []
    else if p[0] == '%' then Like(s, p[1..]) || (s != [] && Like(s[1..], p))
    else if s == [] then false
    else (p[0] == '_' || LowerChar(s[0]) == LowerChar(p[0])) && Like(s[1..], p[1..])
  }

  /** Text that LIKE reads literally. */
  predicate NoWildcards(t: string) {
    forall i :: 0 <= i < |t| ==> t[i] != '%' && t[i] != '_'
  }

  lemma LowerKeepsNoWildcards(t: string)
    requires NoWildcards(t)
    ensures NoWildcards(Lower(t))
  {
  }

  /** A lone `%` matches every string. */
  lemma {:induction false} LikeAnything(s: string)
    ensures Like(s, "%")
    decreases |s|
  {
    if s != [] {
      LikeAnything(s[1..]);
    }
  }

  /** `%%`, the pattern an empty search text produces, matches every string. */
  lemma EmptySearchMatchesAll(s: string)
    ensures Like(s, "%%")
  {
    assert "%%"[1..] == "%";
    LikeAnything(s);
  }

  /** On lower-case text, `t%` for a wildcard-free `t` is a prefix test. */
  lemma {:induction false} LikePrefix(s: string, t: string)
    requires NoWildcards(t) && IsLower(s) && IsLower(t)
    ensures Like(s, t + "%") <==> t <= s
    decreases |t|
  {
    var p := t + "%";
    if t == [] {
      assert p == "%";
      LikeAnything(s);
    } else {
      assert p[0] == t[0] && p[1..] == t[1..] + "%";
      if s != [] {
        LikePrefix(s[1..], t[1..]);
        assert t <= s <==> t[0] == s[0] && t[1..] <= s[1..];
      }
    }
  }

  /** On lower-case text, `%t%` for a wildcard-free `t` is a substring test. */
  lemma {:induction false} LikeInfix(s: string, t: string)
    requires NoWildcards(t) && IsLower(s) && IsLower(t)
    ensures Like(s, "%" + t + "%") <==> IsSubstring(t, s)
    decreases |s|
  {
    var p := "%" + t + "%";
    assert p[0] == '%' && p[1..] == t + "%";
    LikePrefix(s, t);
    assert s[0..] == s;
    if s != [] {
      LikeInfix(s[1..], t);
      if IsSubstring(t, s[1..]) {
        var k :| 0 <= k <= |s[1..]| && t <= s[1..][k..];
        assert s[1..][k..] == s[k + 1..];
      }
      if IsSubstring(t, s) && !(t <= s) {
        var k :| 0 <= k <= |s| && t <= s[k..];
        assert k > 0;
        assert s[1..][k - 1..] == s[k..];
      }
    } else {
      if IsSubstring(t, s) {
        var k :| 0 <= k <= |s| && t <= s[k..];
        assert k == 0;
      }
    }
  }

  /** The search text is not escaped: `_` alone matches any non-empty string,
      whether or not it contains an underscore. */
  lemma UnderscoreMatchesAnyText(s: string)
    requires s != []
    ensures Like(s, "%_%")
  {
    assert "%_%"[1..] == "_%";
    assert "_%"[1..] == "%";
    LikeAnything(s[1..]);
  }
}
