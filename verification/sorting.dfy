/** Ordering of query results: `.sort({ createdAt: 1 })` and `.sort({ createdAt: -1 })`,
    and the score orderings, as an insertion sort on a numeric key. */
module Sorting {

  /** Keys never decrease along the sequence. */
  ghost predicate SortedBy<T>(xs: seq<T>, key: T -> real) {
    forall i, j :: 0 <= i < j < |xs| ==> key(xs[i]) <= key(xs[j])
  }

  /** `x` placed before the first element whose key is not smaller. */
  function InsertByKey<T>(x: T, xs: seq<T>, key: T -> real): (r: seq<T>)
    requires SortedBy(xs, key)
    ensures SortedBy(r, key)
    ensures multiset(r) == multiset(xs) + multiset{x}
    ensures |r| == |xs| + 1
    decreases |xs|
  {
    if |xs| == 0 then [x]
    else if key(x) <= key(xs[0]) then
      ConsSorted(x, xs, key);
      [x] + xs
    else
      var rest := InsertByKey(x, xs[1..], key);
      InsertStep(x, xs, rest, key);
      [xs[0]] + rest
  }

  /** Putting the head back in front of the tail with `x` inserted. */
  lemma InsertStep<T>(x: T, xs: seq<T>, rest: seq<T>, key: T -> real)
    requires |xs| > 0 && SortedBy(xs, key) && key(xs[0]) < key(x)
    requires SortedBy(rest, key) && multiset(rest) == multiset(xs[1..]) + multiset{x}
    ensures SortedBy([xs[0]] + rest, key)
    ensures multiset([xs[0]] + rest) == multiset(xs) + multiset{x}
  {
    HeadTail(xs);
    forall i | 0 <= i < |rest| ensures key(xs[0]) <= key(rest[i]) {
      assert rest[i] in multiset(rest);
      if rest[i] in multiset(xs[1..]) {
        var k :| 0 <= k < |xs[1..]| && xs[1..][k] == rest[i];
        assert xs[k + 1] == rest[i];
      }
    }
    ConsSorted(xs[0], rest, key);
  }

  /** A head no greater than every element of a sorted tail keeps it sorted. */
  lemma ConsSorted<T>(h: T, xs: seq<T>, key: T -> real)
    requires SortedBy(xs, key)
    requires forall i :: 0 <= i < |xs| ==> key(h) <= key(xs[i])
    ensures SortedBy([h] + xs, key)
  {
  }

  /** A non-empty sequence is its head followed by its tail. */
  lemma HeadTail<T>(xs: seq<T>)
    requires |xs| > 0
    ensures xs == [xs[0]] + xs[1..]
    ensures multiset(xs) == multiset(xs[1..]) + multiset{xs[0]}
  {
  }

  /** Two arrangements of the same elements hold the same members. */
  lemma SameMembers<T>(a: seq<T>, b: seq<T>)
    requires multiset(a) == multiset(b)
    ensures forall i :: 0 <= i < |a| ==> a[i] in b
    ensures forall i :: 0 <= i < |b| ==> b[i] in a
  {
    forall i | 0 <= i < |a| ensures a[i] in b {
      assert a[i] in multiset(a);
    }
    forall i | 0 <= i < |b| ensures b[i] in a {
      assert b[i] in multiset(b);
    }
  }

  /** The elements of `xs` ordered by ascending key. */
  function SortByKey<T>(xs: seq<T>, key: T -> real): (r: seq<T>)
    ensures SortedBy(r, key)
    ensures multiset(r) == multiset(xs)
    ensures |r| == |xs|
    ensures forall i :: 0 <= i < |r| ==> r[i] in xs
    ensures forall i :: 0 <= i < |xs| ==> xs[i] in r
    decreases |xs|
  {
    if |xs| == 0 then []
    else
      HeadTail(xs);
      var r := InsertByKey(xs[0], SortByKey(xs[1..], key), key);
      SameMembers(r, xs);
      r
  }

  /** What a prefix leaves of a sequence's elements is the rest. */
  lemma PrefixRest<T>(s: seq<T>, n: nat)
    requires n <= |s|
    ensures multiset(s[..n]) <= multiset(s)
    ensures multiset(s) - multiset(s[..n]) == multiset(s[n..])
  {
    assert s == s[..n] + s[n..];
  }

  /** In a sorted sequence, everything past a point has a key no smaller
      than the element just before it. */
  lemma SortedRestAbove<T>(s: seq<T>, key: T -> real, n: nat)
    requires 0 < n <= |s| && SortedBy(s, key)
    ensures forall x :: x in multiset(s[n..]) ==> key(s[n - 1]) <= key(x)
  {
  }
}
