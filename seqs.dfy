/** Small facts about sequences used by the chain checker. */
module Seqs {

  /** No element occurs twice. */
  predicate Distinct<T(==)>(s: seq<T>)
  {
    forall i, j :: 0 <= i < j < |s| ==> s[i] != s[j]
  }

  /** Python's `list.index`: the position of the first occurrence of `x`. */
  function IndexOf<T(==)>(s: seq<T>, x: T): (i: nat)
    requires x in s
    ensures i < |s| && s[i] == x
    ensures forall j :: 0 <= j < i ==> s[j] != x
  {
    if s[0] == x then 0 else 1 + IndexOf(s[1..], x)
  }

  /** A duplicate-free sequence drawn from `k` is no longer than `k` is large. */
  lemma {:induction false} DistinctLengthBound<T>(s: seq<T>, k: set<T>)
    requires Distinct(s)
    requires forall x :: x in s ==> x in k
    ensures |s| <= |k|
  {
    if s != [] {
      var rest := s[1..];
      forall x | x in rest ensures x in k - {s[0]} {
        var j :| 0 <= j < |rest| && rest[j] == x;
        assert s[j + 1] == x;
      }
      DistinctLengthBound(rest, k - {s[0]});
    }
  }
}
