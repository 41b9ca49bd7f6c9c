/**
 SQLite's built-in LIKE operator with no ESCAPE clause and
 `case_sensitive_like` off: `%` matches any run of characters, `_` matches
 exactly one character, and every other pattern character matches a text
 character equal to it after ASCII case folding.
 */
module SqlLike {
  import opened Text

  predicate IsWildcard(c: char)
  {
    c == '%' || c == '_'
  }

  predicate NoWildcards(s: string)
  {
    forall i :: 0 <= i < |s| ==> !IsWildcard(s[i])
  }

  /** `t LIKE p`. */
  predicate Like(p: string, t: string)
    decreases |p| + |t|
  {
    if |p| == 0 then |t| == 0
    else if p[0] == '%' then Like(p[1..], t) || (|t| > 0 && Like(p, t[1..]))
    else if p[0] == '_' then |t| > 0 && Like(p[1..], t[1..])
    else |t| > 0 && LowerChar(p[0]) == LowerChar(t[0]) && Like(p[1..], t[1..])
  }

  /** A lone `%` matches every text. */
  lemma {:induction false} PercentMatchesAll(t: string)
    ensures Like("%", t)
    decreases |t|
  {
    if |t| > 0 {
      PercentMatchesAll(t[1..]);
    }
  }

  /** A wildcard-free pattern followed by `%` matches exactly the texts that
      start with it, ignoring ASCII case. */
  lemma {:induction false} PrefixPattern(q: string, t: string)
    requires NoWildcards(q)
    ensures Like(q + "%", t) <==> |q| <= |t| && Lower(q) == Lower(t[..|q|])
    decreases |q|
  {
    if |q| == 0 {
      assert q + "%" == "%";
      PercentMatchesAll(t);
      assert Lower(q) == [] == Lower(t[..0]);
    } else {
      var p := q + "%";
      assert p[0] == q[0] && !IsWildcard(q[0]);
      assert p[1..] == q[1..] + "%";
      PrefixPattern(q[1..], if |t| > 0 then t[1..] else t);
      if |q| <= |t| {
        var u := t[..|q|];
        assert u[1..] == t[1..][..|q| - 1];
        assert Lower(q) == Lower(u) <==>
          LowerChar(q[0]) == LowerChar(u[0]) && Lower(q[1..]) == Lower(u[1..]) by {
          if LowerChar(q[0]) == LowerChar(u[0]) && Lower(q[1..]) == Lower(u[1..]) {
            forall i | 0 <= i < |q|
              ensures Lower(q)[i] == Lower(u)[i]
            {
              if i > 0 {
                assert Lower(q[1..])[i - 1] == Lower(u[1..])[i - 1];
              }
            }
          }
          if Lower(q) == Lower(u) {
            forall i | 0 <= i < |q| - 1
              ensures Lower(q[1..])[i] == Lower(u[1..])[i]
            {
              assert Lower(q)[i + 1] == Lower(u)[i + 1];
            }
          }
        }
      }
    }
  }

  /** A pattern opened by `%` matches exactly the texts with a suffix that
      the rest of the pattern matches. */
  lemma {:induction false} FloatingPattern(q: string, t: string)
    ensures Like("%" + q, t) <==> exists i :: 0 <= i <= |t| && Like(q, t[i..])
    decreases |t|
  {
    var p := "%" + q;
    assert p[1..] == q;
    assert t[0..] == t;
    if |t| > 0 {
      FloatingPattern(q, t[1..]);
      if exists i :: 0 <= i <= |t| && Like(q, t[i..]) {
        var i :| 0 <= i <= |t| && Like(q, t[i..]);
        if i > 0 {
          assert t[1..][i - 1..] == t[i..];
        }
      }
      if exists i :: 0 <= i <= |t| - 1 && Like(q, t[1..][i..]) {
        var i :| 0 <= i <= |t| - 1 && Like(q, t[1..][i..]);
        assert t[1..][i..] == t[i + 1..];
      }
    }
  }

  /** The pattern `%s%` built from wildcard-free search text `s` is a
      case-insensitive (ASCII) substring test. */
  lemma SearchPatternIsSubstring(s: string, t: string)
    requires NoWildcards(s)
    ensures Like("%" + s + "%", t) <==> IsSubstring(Lower(s), Lower(t))
  {
    assert "%" + s + "%" == "%" + (s + "%");
    FloatingPattern(s + "%", t);
    if Like("%" + s + "%", t) {
      var i :| 0 <= i <= |t| && Like(s + "%", t[i..]);
      MatchAt(s, t, i);
    }
    if IsSubstring(Lower(s), Lower(t)) {
      var i :| 0 <= i <= |Lower(t)| && OccursAt(Lower(s), Lower(t), i);
      MatchAt(s, t, i);
    }
  }

  /** `s%` matches the rest of `t` from `i` exactly when `s` occurs there,
      up to case. */
  lemma MatchAt(s: string, t: string, i: int)
    requires NoWildcards(s) && 0 <= i <= |t|
    ensures Like(s + "%", t[i..]) <==> OccursAt(Lower(s), Lower(t), i)
  {
    PrefixPattern(s, t[i..]);
    if i + |s| <= |t| {
      assert t[i..][..|s|] == t[i..i + |s|];
      LowerSlice(t, i, i + |s|);
    }
  }
}
