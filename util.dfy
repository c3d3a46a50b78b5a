/** Small generic building blocks shared by the repositories: an optional value,
    filtering, first-match search, substring search and sorting by a key. */
module Util {

  /** The value a lookup may or may not find (Java's Optional). */
  datatype Option<+T> = None | Some(value: T)

  /** The elements of `s` that satisfy `p`, in their original order. Every element
      that satisfies `p` is kept exactly as often as it occurs in `s`. */
  function Filter<T(!new)>(s: seq<T>, p: T -> bool): (r: seq<T>)
    ensures forall x :: multiset(r)[x] == if p(x) then multiset(s)[x] else 0
    ensures forall x :: x in r <==> x in s && p(x)
    ensures |r| <= |s|
  {
    if s == [] then []
    else
      var rest := Filter(s[1..], p);
      assert s == [s[0]] + s[1..];
      if p(s[0]) then [s[0]] + rest else rest
  }

  /** No two elements of `s` have the same key. */
  ghost predicate DistinctKeys<T>(s: seq<T>, key: T -> int) {
    forall i, j :: 0 <= i < j < |s| ==> key(s[i]) != key(s[j])
  }

  lemma DistinctKeysCons<T>(x: T, s: seq<T>, key: T -> int)
    requires DistinctKeys(s, key) && forall y :: y in s ==> key(y) != key(x)
    ensures DistinctKeys([x] + s, key)
  {
    var r := [x] + s;
    forall i, j | 0 <= i < j < |r| ensures key(r[i]) != key(r[j]) {
      assert r[j] == s[j - 1];
      if 0 < i {
        assert r[i] == s[i - 1];
      }
    }
  }

  /** Filtering keeps keys distinct: the result is a subsequence. */
  lemma {:induction false} FilterKeepsDistinctKeys<T(!new)>(s: seq<T>, p: T -> bool, key: T -> int)
    requires DistinctKeys(s, key)
    ensures DistinctKeys(Filter(s, p), key)
  {
    if s != [] {
      var tail := s[1..];
      assert DistinctKeys(tail, key) by {
        forall i, j | 0 <= i < j < |tail| ensures key(tail[i]) != key(tail[j]) {
          assert tail[i] == s[i + 1] && tail[j] == s[j + 1];
        }
      }
      FilterKeepsDistinctKeys(tail, p, key);
      var rest := Filter(tail, p);
      if p(s[0]) {
        forall y | y in rest ensures key(y) != key(s[0]) {
          var k :| 0 <= k < |tail| && tail[k] == y;
          assert s[k + 1] == y;
        }
        DistinctKeysCons(s[0], rest, key);
      }
    }
  }

  /** The first element of `s` that satisfies `p`, if there is one. */
  function FindFirst<T>(s: seq<T>, p: T -> bool): (r: Option<T>)
    ensures r.Some? ==> r.value in s && p(r.value)
    ensures r.None? <==> forall x :: x in s ==> !p(x)
  {
    if s == [] then None
    else if p(s[0]) then Some(s[0])
    else
      assert s == [s[0]] + s[1..];
      FindFirst(s[1..], p)
  }

  /** Applies `f` to every element of `s`. */
  function MapSeq<T, U>(s: seq<T>, f: T -> U): (r: seq<U>)
    ensures |r| == |s| && forall i :: 0 <= i < |s| ==> r[i] == f(s[i])
  {
    seq(|s|, i requires 0 <= i < |s| => f(s[i]))
  }

  /** Mapping with `f` and then with a left inverse `g` of `f` gives back the input. */
  lemma MapSeqLeftInverse<T, U>(s: seq<T>, f: T -> U, g: U -> T)
    requires forall x :: g(f(x)) == x
    ensures MapSeq(MapSeq(s, f), g) == s
  {
  }

  /** `q` occurs in `s` starting at position `i`. */
  ghost predicate OccursAt(q: string, s: string, i: int) {
    0 <= i && i + |q| <= |s| && s[i..i + |q|] == q
  }

  /** `q` occurs in `s` as a contiguous block. */
  ghost predicate IsSubstring(q: string, s: string) {
    exists i :: OccursAt(q, s, i)
  }

  lemma SubstringOfTail(q: string, s: string)
    requires 0 < |s| && |q| <= |s| && s[..|q|] != q
    ensures IsSubstring(q, s) <==> IsSubstring(q, s[1..])
  {
    if IsSubstring(q, s) {
      var i :| OccursAt(q, s, i);
      assert i != 0;
      assert s[1..][i - 1..i - 1 + |q|] == s[i..i + |q|];
      assert OccursAt(q, s[1..], i - 1);
    }
    if IsSubstring(q, s[1..]) {
      var i :| OccursAt(q, s[1..], i);
      assert s[i + 1..i + 1 + |q|] == s[1..][i..i + |q|];
      assert OccursAt(q, s, i + 1);
    }
  }

  /** Java's `String.contains` (SQL `LIKE '%q%'`): does `q` occur in `s`?
      The empty string occurs in every string. */
  function Contains(s: string, q: string): (r: bool)
    ensures r <==> IsSubstring(q, s)
  {
    if |q| > |s| then false
    else if s[..|q|] == q then
      assert OccursAt(q, s, 0);
      true
    else
      SubstringOfTail(q, s);
      Contains(s[1..], q)
  }

  /** Keys do not increase from left to right. */
  ghost predicate SortedByKeyDesc<T>(s: seq<T>, key: T -> int) {
    forall i, j :: 0 <= i < j < |s| ==> key(s[i]) >= key(s[j])
  }

  /** A sorted sequence stays sorted without its first element. */
  lemma SortedTail<T>(s: seq<T>, key: T -> int)
    requires SortedByKeyDesc(s, key) && s != []
    ensures SortedByKeyDesc(s[1..], key)
  {
    var t := s[1..];
    forall i, j | 0 <= i < j < |t| ensures key(t[i]) >= key(t[j]) {
      assert t[i] == s[i + 1] && t[j] == s[j + 1];
    }
  }

  /** An element whose key is at least the head's can go in front of a sorted sequence. */
  lemma SortedCons<T>(y: T, t: seq<T>, key: T -> int)
    requires SortedByKeyDesc(t, key) && (t != [] ==> key(y) >= key(t[0]))
    ensures SortedByKeyDesc([y] + t, key)
  {
    var r := [y] + t;
    forall i, j | 0 <= i < j < |r| ensures key(r[i]) >= key(r[j]) {
      assert r[j] == t[j - 1];
      if 0 < i {
        assert r[i] == t[i - 1];
      } else if 1 < j {
        assert key(t[0]) >= key(t[j - 1]);
      }
    }
  }

  lemma MultisetOfCons<T>(s: seq<T>)
    requires s != []
    ensures multiset(s) == multiset{s[0]} + multiset(s[1..])
  {
    assert s == [s[0]] + s[1..];
  }

  /** Inserts `x` into a key-descending sequence before the first element with a
      smaller key, so that earlier elements stay ahead of equal keys. */
  function InsertByKeyDesc<T>(x: T, s: seq<T>, key: T -> int): (r: seq<T>)
    requires SortedByKeyDesc(s, key)
    ensures SortedByKeyDesc(r, key)
    ensures multiset(r) == multiset(s) + multiset{x}
    ensures r[0] == x || (|s| > 0 && r[0] == s[0])
  {
    if s == [] then [x]
    else if key(x) >= key(s[0]) then
      SortedCons(x, s, key);
      [x] + s
    else
      var tail := s[1..];
      SortedTail(s, key);
      var rest := InsertByKeyDesc(x, tail, key);
      assert tail != [] ==> key(s[0]) >= key(tail[0]);
      SortedCons(s[0], rest, key);
      MultisetOfCons(s);
      [s[0]] + rest
  }

  /** Insertion sort by descending key: the result is sorted and a permutation of `s`. */
  function SortByKeyDesc<T>(s: seq<T>, key: T -> int): (r: seq<T>)
    ensures SortedByKeyDesc(r, key)
    ensures multiset(r) == multiset(s)
  {
    if s == [] then []
    else
      MultisetOfCons(s);
      InsertByKeyDesc(s[0], SortByKeyDesc(s[1..], key), key)
  }
}
