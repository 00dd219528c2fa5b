/** Order-preserving selection over a collection: the shape of MongoDB's
    `delete_many` (what survives it) and of `$match`. */
module Seqs {

  /** The elements of `s` satisfying `p`, in their original order. */
  function Filter<T(==,!new)>(s: seq<T>, p: T -> bool): (r: seq<T>)
    ensures |r| <= |s|
    ensures forall x :: x in r <==> x in s && p(x)
  {
    if s == [] then []
    else (if p(s[0]) then [s[0]] else []) + Filter(s[1..], p)
  }

  predicate Distinct<T(==,!new)>(s: seq<T>) {
    forall i, j | 0 <= i < j < |s| :: s[i] != s[j]
  }

  /** No two elements share a key. */
  predicate DistinctBy<T, K(==)>(s: seq<T>, key: T -> K) {
    forall i, j | 0 <= i < j < |s| :: key(s[i]) != key(s[j])
  }

  /** Selecting never makes two elements share a key. */
  lemma {:induction false} FilterDistinctBy<T(!new), K>(s: seq<T>, p: T -> bool, key: T -> K)
    requires DistinctBy(s, key)
    ensures DistinctBy(Filter(s, p), key)
  {
    if s != [] {
      var rest := Filter(s[1..], p);
      FilterDistinctBy(s[1..], p, key);
      forall x | x in rest ensures key(x) != key(s[0]) {
        var k :| 0 <= k < |s[1..]| && s[1..][k] == x;
        assert s[k + 1] == x;
      }
      var r := Filter(s, p);
      if p(s[0]) {
        assert r == [s[0]] + rest;
        forall i, j | 0 <= i < j < |r| ensures key(r[i]) != key(r[j]) {
          if i > 0 {
            assert r[i] == rest[i - 1] && r[j] == rest[j - 1];
          } else {
            assert r[j] == rest[j - 1] && r[j] in rest;
          }
        }
      } else {
        assert r == rest;
      }
    }
  }

  /** Selecting from a collection whose every element qualifies keeps it whole. */
  lemma {:induction false} FilterKeepsAll<T(!new)>(s: seq<T>, p: T -> bool)
    requires forall x | x in s :: p(x)
    ensures Filter(s, p) == s
  {
    if s != [] {
      assert s[0] in s;
      forall x | x in s[1..] ensures p(x) {
        assert x in s;
      }
      FilterKeepsAll(s[1..], p);
      assert Filter(s, p) == [s[0]] + s[1..];
    }
  }

  /** Selecting twice with the same test selects nothing more. */
  lemma FilterIdempotent<T(!new)>(s: seq<T>, p: T -> bool)
    ensures Filter(Filter(s, p), p) == Filter(s, p)
  {
    FilterKeepsAll(Filter(s, p), p);
  }

  /** Selecting by a test and by its negation splits the collection. */
  lemma {:induction false} FilterPartition<T(!new)>(s: seq<T>, p: T -> bool, q: T -> bool)
    requires forall x :: q(x) == !p(x)
    ensures multiset(Filter(s, p)) + multiset(Filter(s, q)) == multiset(s)
  {
    if s != [] {
      FilterPartition(s[1..], p, q);
      var x := s[0];
      assert s == [x] + s[1..];
      FilterConsMultiset(x, s[1..], p);
      FilterConsMultiset(x, s[1..], q);
      assert q(x) == !p(x);
    }
  }

  /** The elements a selection keeps from a collection with one more element
      at its front. */
  lemma FilterConsMultiset<T(!new)>(x: T, t: seq<T>, p: T -> bool)
    ensures multiset(Filter([x] + t, p)) == (if p(x) then multiset{x} else multiset{}) + multiset(Filter(t, p))
  {
    assert ([x] + t)[1..] == t;
    if p(x) {
      assert Filter([x] + t, p) == [x] + Filter(t, p);
    } else {
      assert Filter([x] + t, p) == Filter(t, p);
    }
  }

  /** Selecting from a collection grown by one element at its end. */
  lemma {:induction false} FilterSnoc<T(!new)>(s: seq<T>, x: T, p: T -> bool)
    ensures Filter(s + [x], p) == Filter(s, p) + (if p(x) then [x] else [])
  {
    if s != [] {
      assert (s + [x])[1..] == s[1..] + [x];
      FilterSnoc(s[1..], x, p);
    }
  }
}
