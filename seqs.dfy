/**
 * Sequence helpers for the array operations the store uses: `filter`, and
 * the pairwise properties (distinct ids, distinct endpoint pairs) that a
 * filter or an append must keep.
 */
module Seqs {

  /**
   * `s.filter(keep)`: the elements of `s` that satisfy `keep`, in order,
   * each as many times as it occurs in `s`.
   */
  function Filter<T(==,!new)>(s: seq<T>, keep: T -> bool): (r: seq<T>)
    ensures |r| <= |s|
    ensures forall x {:trigger x in r} :: x in r <==> x in s && keep(x)
    ensures forall x {:trigger multiset(r)[x]} :: multiset(r)[x] == if keep(x) then multiset(s)[x] else 0
  {
    if s == [] then []
    else
      assert s == [s[0]] + s[1..];
      (if keep(s[0]) then [s[0]] else []) + Filter(s[1..], keep)
  }

  /** Filtering with a test every element passes gives back the sequence. */
  lemma {:induction false} FilterKeepsAll<T(!new)>(s: seq<T>, keep: T -> bool)
    ensures (forall x :: x in s ==> keep(x)) ==> Filter(s, keep) == s
  {
    if s != [] && forall x :: x in s ==> keep(x) {
      assert s[0] in s;
      assert forall x :: x in s[1..] ==> x in s;
      FilterKeepsAll(s[1..], keep);
      assert s == [s[0]] + s[1..];
    }
  }

  /** Every two elements of `s`, taken in order, are related by `rel`. */
  ghost predicate Pairwise<T>(s: seq<T>, rel: (T, T) -> bool)
  {
    forall i, j :: 0 <= i < j < |s| ==> rel(s[i], s[j])
  }

  /** A filter keeps relative order, so it keeps every pairwise property. */
  lemma {:induction false} FilterKeepsPairwise<T(!new)>(s: seq<T>, keep: T -> bool, rel: (T, T) -> bool)
    requires Pairwise(s, rel)
    ensures Pairwise(Filter(s, keep), rel)
  {
    if s != [] {
      var tail := s[1..];
      assert Pairwise(tail, rel) by {
        forall i, j | 0 <= i < j < |tail| ensures rel(tail[i], tail[j]) {
          assert tail[i] == s[i + 1] && tail[j] == s[j + 1];
        }
      }
      FilterKeepsPairwise(tail, keep, rel);
      var rest := Filter(tail, keep);
      if keep(s[0]) {
        var r := [s[0]] + rest;
        assert r == Filter(s, keep);
        forall i, j | 0 <= i < j < |r| ensures rel(r[i], r[j]) {
          if i == 0 {
            assert r[j] == rest[j - 1];
            assert rest[j - 1] in rest;
            assert rest[j - 1] in tail;
            var k :| 0 <= k < |tail| && tail[k] == rest[j - 1];
            assert s[k + 1] == r[j];
          } else {
            assert r[i] == rest[i - 1] && r[j] == rest[j - 1];
          }
        }
      } else {
        assert Filter(s, keep) == rest;
      }
    }
  }

  /** Appending an element related to every earlier one keeps a pairwise property. */
  lemma PairwiseAppend<T>(s: seq<T>, x: T, rel: (T, T) -> bool)
    requires Pairwise(s, rel)
    requires forall i :: 0 <= i < |s| ==> rel(s[i], x)
    ensures Pairwise(s + [x], rel)
  {
    var r := s + [x];
    forall i, j | 0 <= i < j < |r| ensures rel(r[i], r[j]) {
      assert r[i] == s[i];
      if j < |s| {
        assert r[j] == s[j];
      }
    }
  }
}
