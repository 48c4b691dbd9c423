/** Sequence operations with the meaning of the queries that use them:
    a `WHERE` filter, a `LIMIT` and `.first()`. */
module Seqs {

  import opened Wrappers

  /** The first `n` elements, or all of them when there are fewer. */
  function Take<T>(s: seq<T>, n: nat): (r: seq<T>)
    ensures |r| == if n < |s| then n else |s|
    ensures r <= s
  {
    if n < |s| then s[..n] else s
  }

  /** The index of the first element satisfying `p`, the position a
      query's `.first()` returns. */
  function FirstIndex<T>(s: seq<T>, p: T -> bool): (r: Option<nat>)
    ensures r.None? <==> forall i :: 0 <= i < |s| ==> !p(s[i])
    ensures r.Some? ==> r.value < |s| && p(s[r.value])
    ensures r.Some? ==> forall i :: 0 <= i < r.value ==> !p(s[i])
  {
    if s == [] then None
    else if p(s[0]) then Some(0)
    else
      match FirstIndex(s[1..], p)
      case None =>
        assert forall i :: 0 < i < |s| ==> s[i] == s[1..][i - 1];
        None
      case Some(k) =>
        assert forall i :: 0 < i <= k + 1 ==> s[i] == s[1..][i - 1];
        Some(k + 1)
  }

  /** The elements satisfying `p`, in their original order. */
  function Filter<T>(s: seq<T>, p: T -> bool): (r: seq<T>)
    ensures |r| <= |s|
    ensures forall i :: 0 <= i < |r| ==> p(r[i]) && r[i] in s
    ensures forall i :: 0 <= i < |s| && p(s[i]) ==> s[i] in r
  {
    if s == [] then []
    else
      var tail := Filter(s[1..], p);
      assert forall i :: 0 < i < |s| ==> s[i] == s[1..][i - 1];
      (if p(s[0]) then [s[0]] else []) + tail
  }

  /** Nothing passes a filter that no element satisfies. */
  lemma {:induction false} FilterNone<T>(s: seq<T>, p: T -> bool)
    requires forall i :: 0 <= i < |s| ==> !p(s[i])
    ensures Filter(s, p) == []
  {
    if s != [] {
      FilterNone(s[1..], p);
    }
  }

  /** Membership in a filtered sequence. */
  lemma FilterMembers<T>(s: seq<T>, p: T -> bool)
    ensures forall x :: x in Filter(s, p) <==> x in s && p(x)
  {
  }

  /** Filtering keeps each kept element with its multiplicity. */
  lemma {:induction false} FilterMultiset<T>(s: seq<T>, p: T -> bool, x: T)
    ensures multiset(Filter(s, p))[x] == if p(x) then multiset(s)[x] else 0
  {
    if s != [] {
      assert s == [s[0]] + s[1..];
      FilterMultiset(s[1..], p, x);
    }
  }

  /** Every element of a prefix is an element of the whole. */
  lemma PrefixMembers<T>(r: seq<T>, s: seq<T>)
    requires r <= s
    ensures forall x :: x in r ==> x in s
  {
    forall x | x in r ensures x in s {
      var i :| 0 <= i < |r| && r[i] == x;
      assert s[i] == x;
    }
  }

  /** A relation that holds between every earlier and later element of `s`
      still holds after filtering, since filtering keeps the order. */
  lemma {:induction false} FilterKeepsPairwise<T>(s: seq<T>, p: T -> bool, R: (T, T) -> bool)
    requires forall a, b :: 0 <= a < b < |s| ==> R(s[a], s[b])
    ensures forall a, b :: 0 <= a < b < |Filter(s, p)| ==> R(Filter(s, p)[a], Filter(s, p)[b])
  {
    if s != [] {
      var s' := s[1..];
      var tail := Filter(s', p);
      assert forall a, b :: 0 <= a < b < |s'| ==> R(s'[a], s'[b]) by {
        forall a, b | 0 <= a < b < |s'| ensures R(s'[a], s'[b]) {
          assert s'[a] == s[a + 1] && s'[b] == s[b + 1];
        }
      }
      FilterKeepsPairwise(s', p, R);
      var f := Filter(s, p);
      if p(s[0]) {
        assert f == [s[0]] + tail;
        forall a, b | 0 <= a < b < |f| ensures R(f[a], f[b]) {
          if a == 0 {
            assert f[b] == tail[b - 1];
            assert tail[b - 1] in s';
            var m :| 0 <= m < |s'| && s'[m] == tail[b - 1];
            assert s[m + 1] == f[b];
          } else {
            assert f[a] == tail[a - 1] && f[b] == tail[b - 1];
          }
        }
      } else {
        assert f == tail;
      }
    }
  }
}
