/**
 Sorting a sequence by a total preorder. It models an SQL `ORDER BY`: the
 result is a permutation of the input in which every earlier element is
 ordered before every later one. Ties keep their input order here, which is
 one of the orders the database may choose; nothing else relies on it.
 */
module Sorting {

  /** `leq` is total and transitive. */
  ghost predicate TotalPreorder<T(!new)>(leq: (T, T) -> bool)
  {
    && (forall a, b :: leq(a, b) || leq(b, a))
    && (forall a, b, c :: leq(a, b) && leq(b, c) ==> leq(a, c))
  }

  predicate SortedBy<T>(s: seq<T>, leq: (T, T) -> bool)
  {
    forall i, j :: 0 <= i < j < |s| ==> leq(s[i], s[j])
  }

  function InsertBy<T(!new)>(x: T, s: seq<T>, leq: (T, T) -> bool): (r: seq<T>)
    requires TotalPreorder(leq)
    requires SortedBy(s, leq)
    ensures SortedBy(r, leq)
    ensures multiset(r) == multiset(s) + multiset{x}
  {
    if |s| == 0 || leq(x, s[0]) then
      [x] + s
    else
      var rest := InsertBy(x, s[1..], leq);
      assert s == [s[0]] + s[1..];
      InsertedAbove(x, s, rest, leq);
      [s[0]] + rest
  }

  /** Everything in the insertion into the tail of `s` sits at or above
      the head of `s`. */
  lemma InsertedAbove<T(!new)>(x: T, s: seq<T>, rest: seq<T>, leq: (T, T) -> bool)
    requires |s| > 0 && !leq(x, s[0]) && TotalPreorder(leq)
    requires SortedBy(s, leq)
    requires multiset(rest) == multiset(s[1..]) + multiset{x}
    ensures forall e :: e in rest ==> leq(s[0], e)
  {
    forall e | e in rest
      ensures leq(s[0], e)
    {
      assert e in multiset(rest);
      if e != x {
        var k :| 0 <= k < |s[1..]| && s[1..][k] == e;
        assert s[k + 1] == e;
      }
    }
  }

  /** Insertion sort. */
  function SortBy<T(!new)>(s: seq<T>, leq: (T, T) -> bool): (r: seq<T>)
    requires TotalPreorder(leq)
    ensures SortedBy(r, leq)
    ensures multiset(r) == multiset(s)
  {
    if |s| == 0 then []
    else
      assert s == [s[0]] + s[1..];
      InsertBy(s[0], SortBy(s[1..], leq), leq)
  }
}
