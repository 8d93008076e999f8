/**
 * SQL `ORDER BY <text column>` under SQLite's default BINARY collation:
 * strings compared character by character, a proper prefix first.
 */
module Sorting {

  predicate LexLeq(a: string, b: string) {
    a == [] || (b != [] && (a[0] < b[0] || (a[0] == b[0] && LexLeq(a[1..], b[1..]))))
  }

  lemma {:induction false} LexLeqTotal(a: string, b: string)
    ensures LexLeq(a, b) || LexLeq(b, a)
  {
    if a != [] && b != [] && a[0] == b[0] {
      LexLeqTotal(a[1..], b[1..]);
    }
  }

  lemma {:induction false} LexLeqAntisymmetric(a: string, b: string)
    requires LexLeq(a, b) && LexLeq(b, a)
    ensures a == b
  {
    if a != [] && b != [] {
      LexLeqAntisymmetric(a[1..], b[1..]);
      assert a == [a[0]] + a[1..];
      assert b == [b[0]] + b[1..];
    }
  }

  lemma {:induction false} LexLeqTransitive(a: string, b: string, c: string)
    requires LexLeq(a, b) && LexLeq(b, c)
    ensures LexLeq(a, c)
  {
    if a != [] && b != [] && c != [] && a[0] == b[0] == c[0] {
      LexLeqTransitive(a[1..], b[1..], c[1..]);
    }
  }

  /** Ascending by `key`, judged on neighbours. */
  predicate SortedBy<T>(s: seq<T>, key: T -> string) {
    forall i :: 0 < i < |s| ==> LexLeq(key(s[i - 1]), key(s[i]))
  }

  function InsertByKey<T>(x: T, s: seq<T>, key: T -> string): (r: seq<T>)
    requires SortedBy(s, key)
    ensures SortedBy(r, key)
    ensures multiset(r) == multiset(s) + multiset{x}
    ensures |r| == |s| + 1 && r != [] && (r[0] == x || (s != [] && r[0] == s[0]))
  {
    if s == [] || LexLeq(key(x), key(s[0])) then [x] + s
    else
      LexLeqTotal(key(x), key(s[0]));
      var t := InsertByKey(x, s[1..], key);
      assert s == [s[0]] + s[1..];
      [s[0]] + t
  }

  /** The rows of a query in `ORDER BY key` order: a sorted permutation of the input. */
  function SortByKey<T>(s: seq<T>, key: T -> string): (r: seq<T>)
    ensures SortedBy(r, key)
    ensures multiset(r) == multiset(s)
    ensures |r| == |s|
  {
    if s == [] then []
    else
      assert s == [s[0]] + s[1..];
      InsertByKey(s[0], SortByKey(s[1..], key), key)
  }

  /** No two elements share a key. */
  predicate DistinctKeys<T>(s: seq<T>, key: T -> string) {
    forall i, j :: 0 <= i < j < |s| ==> key(s[i]) != key(s[j])
  }

  lemma {:induction false} InsertByKeyDistinct<T>(x: T, s: seq<T>, key: T -> string)
    requires SortedBy(s, key) && DistinctKeys(s, key)
    requires forall k :: 0 <= k < |s| ==> key(s[k]) != key(x)
    ensures DistinctKeys(InsertByKey(x, s, key), key)
  {
    if !(s == [] || LexLeq(key(x), key(s[0]))) {
      LexLeqTotal(key(x), key(s[0]));
      var tail := s[1..];
      assert SortedBy(tail, key);
      InsertByKeyDistinct(x, tail, key);
      var t := InsertByKey(x, tail, key);
      forall k | 0 <= k < |t| ensures key(t[k]) != key(s[0]) {
        assert t[k] in multiset(t);
        if t[k] != x {
          var j :| 0 <= j < |tail| && tail[j] == t[k];
          assert s[j + 1] == t[k];
        }
      }
      assert InsertByKey(x, s, key) == [s[0]] + t;
    }
  }

  /** Sorting keeps keys distinct. */
  lemma {:induction false} SortByKeyDistinct<T>(s: seq<T>, key: T -> string)
    requires DistinctKeys(s, key)
    ensures DistinctKeys(SortByKey(s, key), key)
  {
    if s != [] {
      var tail := s[1..];
      SortByKeyDistinct(tail, key);
      var t := SortByKey(tail, key);
      forall k | 0 <= k < |t| ensures key(t[k]) != key(s[0]) {
        assert t[k] in multiset(tail);
        var j :| 0 <= j < |tail| && tail[j] == t[k];
        assert s[j + 1] == t[k];
      }
      InsertByKeyDistinct(s[0], t, key);
    }
  }

  function Id(s: string): string {
    s
  }

  /** `ORDER BY` on a single text column. */
  function SortStrings(s: seq<string>): (r: seq<string>)
    ensures SortedBy(r, Id)
    ensures multiset(r) == multiset(s)
    ensures forall x :: x in r <==> x in s
  {
    var r := SortByKey(s, Id);
    assert forall x :: x in r <==> x in multiset(r);
    r
  }

  /** Sorting a duplicate-free list of strings keeps it duplicate-free. */
  lemma SortStringsNoDup(s: seq<string>)
    requires forall i, j :: 0 <= i < j < |s| ==> s[i] != s[j]
    ensures forall i, j :: 0 <= i < j < |SortStrings(s)| ==> SortStrings(s)[i] != SortStrings(s)[j]
  {
    assert DistinctKeys(s, Id);
    SortByKeyDistinct(s, Id);
  }
}
