/**
 String helpers used by both the SQL side and the Python side of the model:
 ASCII case folding (the only folding SQLite's NOCASE collation and LIKE
 operator perform), Python's `str.strip`, the code-point lexicographic order
 and substring containment.
 */
module Text {

  predicate IsAsciiUpper(c: char)
  {
    'A' <= c <= 'Z'
  }

  /** Maps `A`..`Z` to `a`..`z` and leaves every other character alone. */
  function LowerChar(c: char): (d: char)
    ensures IsAsciiUpper(c) ==> d as int == c as int + 32
    ensures !IsAsciiUpper(c) ==> d == c
    ensures !IsAsciiUpper(d)
  {
    if IsAsciiUpper(c) then (c as int + 32) as char else c
  }

  function Lower(s: string): (r: string)
    ensures |r| == |s|
    ensures forall i :: 0 <= i < |s| ==> r[i] == LowerChar(s[i])
  {
    seq(|s|, i requires 0 <= i < |s| => LowerChar(s[i]))
  }

  lemma LowerIdempotent(s: string)
    ensures Lower(Lower(s)) == Lower(s)
  {
  }

  lemma LowerSlice(s: string, i: int, j: int)
    requires 0 <= i <= j <= |s|
    ensures Lower(s)[i..j] == Lower(s[i..j])
  {
  }

  /** The characters Python's `str.isspace` (and so `str.strip()`) treats as
      white space. */
  predicate IsSpace(c: char)
  {
    || '\t' <= c <= '\r'
    || '\U{1C}' <= c <= '\U{20}'
    || c == '\U{85}' || c == '\U{A0}' || c == '\U{1680}'
    || '\U{2000}' <= c <= '\U{200A}'
    || c == '\U{2028}' || c == '\U{2029}' || c == '\U{202F}'
    || c == '\U{205F}' || c == '\U{3000}'
  }

  function TrimStart(s: string): (r: string)
    ensures |r| <= |s| && r == s[|s| - |r|..]
    ensures forall m :: 0 <= m < |s| - |r| ==> IsSpace(s[m])
    ensures |r| > 0 ==> !IsSpace(r[0])
  {
    if |s| > 0 && IsSpace(s[0]) then
      var r := TrimStart(s[1..]);
      assert s[1..][|s| - 1 - |r|..] == s[|s| - |r|..];
      assert forall m :: 1 <= m < |s| - |r| ==> s[m] == s[1..][m - 1];
      r
    else s
  }

  function TrimEnd(s: string): (r: string)
    ensures |r| <= |s| && r == s[..|r|]
    ensures forall m :: |r| <= m < |s| ==> IsSpace(s[m])
    ensures |r| > 0 ==> !IsSpace(r[|r| - 1])
  {
    if |s| > 0 && IsSpace(s[|s| - 1]) then
      var r := TrimEnd(s[..|s| - 1]);
      assert s[..|s| - 1][..|r|] == s[..|r|];
      assert forall m :: |r| <= m < |s| - 1 ==> s[m] == s[..|s| - 1][m];
      r
    else s
  }

  /** `s[i..j]` is what is left of `s` once white space is cut from both
      ends: everything outside it is white space and, unless it is empty,
      it starts and ends with a character that is not. */
  predicate CoreOf(s: string, i: int, j: int)
  {
    && 0 <= i <= j <= |s|
    && (forall m :: 0 <= m < i ==> IsSpace(s[m]))
    && (forall m :: j <= m < |s| ==> IsSpace(s[m]))
    && (i < j ==> !IsSpace(s[i]) && !IsSpace(s[j - 1]))
  }

  /** Python's `str.strip()`: `s` without its leading and trailing white
      space, that is `TrimStart` followed by `TrimEnd`. */
  function Strip(s: string): (r: string)
    ensures |r| <= |s|
    ensures |r| > 0 ==> !IsSpace(r[0]) && !IsSpace(r[|r| - 1])
    ensures |s| > 0 && !IsSpace(s[0]) && !IsSpace(s[|s| - 1]) ==> r == s
    ensures exists i, j :: CoreOf(s, i, j) && r == s[i..j]
  {
    var t := TrimStart(s);
    var r := TrimEnd(t);
    CoreOfTrims(s, t, r);
    r
  }

  /** `t` is `s` after its leading white space, `r` is `t` before its
      trailing white space. */
  lemma CoreOfTrims(s: string, t: string, r: string)
    requires |t| <= |s| && t == s[|s| - |t|..]
    requires forall m :: 0 <= m < |s| - |t| ==> IsSpace(s[m])
    requires |t| > 0 ==> !IsSpace(t[0])
    requires |r| <= |t| && r == t[..|r|]
    requires forall m :: |r| <= m < |t| ==> IsSpace(t[m])
    requires |r| > 0 ==> !IsSpace(r[|r| - 1])
    ensures CoreOf(s, |s| - |t|, |s| - |t| + |r|)
    ensures r == s[|s| - |t|..|s| - |t| + |r|]
  {
    var i := |s| - |t|;
    forall m | i + |r| <= m < |s|
      ensures IsSpace(s[m])
    {
      assert s[m] == t[m - i];
    }
  }

  /** Lexicographic order on code points. On UTF-8 text it agrees with the
      byte-wise comparison SQLite's collations perform. */
  predicate LexLeq(a: string, b: string)
  {
    |a| == 0 || (|b| > 0 && (a[0] < b[0] || (a[0] == b[0] && LexLeq(a[1..], b[1..]))))
  }

  lemma {:induction false} LexLeqTotal(a: string, b: string)
    ensures LexLeq(a, b) || LexLeq(b, a)
    decreases |a|
  {
    if |a| > 0 && |b| > 0 && a[0] == b[0] {
      LexLeqTotal(a[1..], b[1..]);
    }
  }

  lemma {:induction false} LexLeqTransitive(a: string, b: string, c: string)
    requires LexLeq(a, b) && LexLeq(b, c)
    ensures LexLeq(a, c)
    decreases |a|
  {
    if |a| > 0 && a[0] == b[0] && b[0] == c[0] {
      LexLeqTransitive(a[1..], b[1..], c[1..]);
    }
  }

  /** `needle` occurs in `hay` starting at position `i`. */
  predicate OccursAt(needle: string, hay: string, i: int)
  {
    0 <= i <= |hay| - |needle| && hay[i..i + |needle|] == needle
  }

  /** `needle` occurs as a contiguous run inside `hay`. */
  predicate IsSubstring(needle: string, hay: string)
  {
    exists i :: 0 <= i <= |hay| && OccursAt(needle, hay, i)
  }

  /** No name occurs twice: the column labels of a table. */
  predicate Distinct(names: seq<string>)
  {
    forall i, j :: 0 <= i < j < |names| ==> names[i] != names[j]
  }
}
