/** Sequence helpers: occurrence counts, `Array.filter`, and the insertion-ordered `Set` of JavaScript. */
module Seqs {

  /** Number of occurrences of `x` in `s`. */
  function Count<T(==)>(s: seq<T>, x: T): (n: nat)
    ensures n <= |s|
    ensures n == 0 <==> x !in s
  {
    if s == [] then 0 else Count(s[..|s| - 1], x) + (if s[|s| - 1] == x then 1 else 0)
  }

  lemma {:induction false} CountAppend<T>(a: seq<T>, b: seq<T>, x: T)
    ensures Count(a + b, x) == Count(a, x) + Count(b, x)
  {
    if b == [] {
      assert a + b == a;
    } else {
      assert (a + b)[..|a + b| - 1] == a + b[..|b| - 1];
      CountAppend(a, b[..|b| - 1], x);
    }
  }

  /** Appending at most one element adds at most one occurrence. */
  lemma CountSnoc<T>(a: seq<T>, b: bool, v: T, x: T)
    ensures Count(a + (if b then [v] else []), x) == Count(a, x) + (if b && v == x then 1 else 0)
  {
    if b {
      assert (a + [v])[..|a + [v]| - 1] == a;
    } else {
      assert a + [] == a;
    }
  }

  /** No element occurs twice. */
  predicate NoDup<T(==)>(s: seq<T>) {
    forall i, j :: 0 <= i < j < |s| ==> s[i] != s[j]
  }

  /** Strictly increasing, which for indices means "in input order, once each". */
  predicate Increasing(s: seq<nat>) {
    forall i, j :: 0 <= i < j < |s| ==> s[i] < s[j]
  }

  /** `s.filter(p)`. */
  function Filter<T>(s: seq<T>, p: T -> bool): (r: seq<T>)
    ensures |r| <= |s|
    ensures forall k :: 0 <= k < |r| ==> r[k] in s && p(r[k])
    ensures forall k :: 0 <= k < |s| && p(s[k]) ==> s[k] in r
  {
    if s == [] then []
    else Filter(s[..|s| - 1], p) + (if p(s[|s| - 1]) then [s[|s| - 1]] else [])
  }

  /**
   * `[...new Set(s)]`: every element once, at the place of its first occurrence
   * (a `Set` keeps insertion order and ignores repeated insertions).
   */
  function Dedup<T(==)>(s: seq<T>): (r: seq<T>)
    ensures NoDup(r)
    ensures forall k :: 0 <= k < |r| ==> r[k] in s
    ensures forall k :: 0 <= k < |s| ==> s[k] in r
    ensures |r| <= |s|
  {
    if s == [] then []
    else
      var d := Dedup(s[..|s| - 1]);
      var x := s[|s| - 1];
      if x in d then d else d + [x]
  }

  /** The index of the first occurrence of `x` in `s`. */
  function FirstIndex<T(==)>(s: seq<T>, x: T): (i: nat)
    requires x in s
    ensures i < |s| && s[i] == x && x !in s[..i]
  {
    if s[0] == x then 0 else 1 + FirstIndex(s[1..], x)
  }

  lemma FirstIndexOfPrefix<T>(s: seq<T>, n: nat, x: T)
    requires n <= |s| && x in s[..n]
    ensures FirstIndex(s, x) == FirstIndex(s[..n], x)
  {
    var j := FirstIndex(s[..n], x);
    assert s[..n][..j] == s[..j];
  }

  /** `Dedup` keeps elements in the order of their first occurrence. */
  lemma {:induction false} DedupOrder<T>(s: seq<T>)
    ensures forall i, j :: 0 <= i < j < |Dedup(s)| ==> FirstIndex(s, Dedup(s)[i]) < FirstIndex(s, Dedup(s)[j])
  {
    if s != [] {
      var init := s[..|s| - 1];
      DedupOrder(init);
      DedupOrderStep(s, init, Dedup(init));
    }
  }

  lemma DedupOrderStep<T>(s: seq<T>, init: seq<T>, d: seq<T>)
    requires s != [] && init == s[..|s| - 1] && d == Dedup(init)
    requires forall i, j :: 0 <= i < j < |d| ==> FirstIndex(init, d[i]) < FirstIndex(init, d[j])
    ensures forall i, j :: 0 <= i < j < |Dedup(s)| ==> FirstIndex(s, Dedup(s)[i]) < FirstIndex(s, Dedup(s)[j])
  {
    var x := s[|s| - 1];
    FirstIndexKept(s, init, d);
    if x in d {
      assert Dedup(s) == d;
    } else {
      var r := d + [x];
      assert Dedup(s) == r;
      assert x !in init;
      assert FirstIndex(s, x) == |s| - 1;
      forall i, j | 0 <= i < j < |r| ensures FirstIndex(s, r[i]) < FirstIndex(s, r[j]) {
        assert r[i] == d[i];
        if j < |d| {
          assert r[j] == d[j];
        } else {
          assert r[j] == x;
        }
      }
    }
  }

  /** The elements already in the prefix keep their first index, which lies inside it. */
  lemma FirstIndexKept<T>(s: seq<T>, init: seq<T>, d: seq<T>)
    requires s != [] && init == s[..|s| - 1] && d == Dedup(init)
    ensures forall k :: 0 <= k < |d| ==> FirstIndex(s, d[k]) == FirstIndex(init, d[k]) < |s| - 1
  {
    forall k | 0 <= k < |d| ensures FirstIndex(s, d[k]) == FirstIndex(init, d[k]) < |s| - 1 {
      assert d[k] in init;
      FirstIndexOfPrefix(s, |s| - 1, d[k]);
    }
  }

  /** `Dedup` leaves a duplicate-free sequence alone. */
  lemma {:induction false} DedupOfNoDup<T>(s: seq<T>)
    requires NoDup(s)
    ensures Dedup(s) == s
  {
    if s != [] {
      var init := s[..|s| - 1];
      var x := s[|s| - 1];
      assert NoDup(init);
      DedupOfNoDup(init);
      assert x !in init;
      assert s == init + [x];
    }
  }

  /** The elements of all the sequences, one after the other. */
  function Concat<T>(ss: seq<seq<T>>): (r: seq<T>)
  {
    if ss == [] then [] else Concat(ss[..|ss| - 1]) + ss[|ss| - 1]
  }

  lemma {:induction false} ConcatCons<T>(a: seq<T>, ss: seq<seq<T>>)
    ensures Concat([a] + ss) == a + Concat(ss)
  {
    if ss != [] {
      var init := ss[..|ss| - 1];
      assert ([a] + ss)[..|[a] + ss| - 1] == [a] + init;
      ConcatCons(a, init);
    }
  }

  lemma ConcatSnoc<T>(ss: seq<seq<T>>, n: nat)
    requires n < |ss|
    ensures Concat(ss[..n + 1]) == Concat(ss[..n]) + ss[n]
  {
    assert ss[..n + 1][..n] == ss[..n];
  }

  function SumInts(s: seq<int>): int {
    if s == [] then 0 else SumInts(s[..|s| - 1]) + s[|s| - 1]
  }

  /** `s` without the one occurrence of `v` it may hold. */
  function Without(s: seq<nat>, v: nat): (t: seq<nat>)
    requires NoDup(s)
    ensures NoDup(t) && |s| <= |t| + 1
    ensures forall k :: 0 <= k < |t| ==> t[k] != v && t[k] in s
  {
    if s == [] then []
    else if s[0] == v then s[1..]
    else [s[0]] + Without(s[1..], v)
  }

  /** Pigeonhole: distinct naturals below n number at most n. */
  lemma {:induction false} DistinctBelow(s: seq<nat>, n: nat)
    requires NoDup(s) && forall k :: 0 <= k < |s| ==> s[k] < n
    ensures |s| <= n
    decreases n
  {
    if s != [] {
      assert s[0] < n;
      var t := Without(s, n - 1);
      DistinctBelow(t, n - 1);
    }
  }

  /** Appending never disturbs what `Dedup` has already kept. */
  lemma {:induction false} DedupAppendPrefix<T>(a: seq<T>, b: seq<T>)
    ensures |Dedup(a)| <= |Dedup(a + b)| && Dedup(a + b)[..|Dedup(a)|] == Dedup(a)
  {
    if b == [] {
      assert a + b == a;
    } else {
      var b' := b[..|b| - 1];
      assert (a + b)[..|a + b| - 1] == a + b';
      DedupAppendPrefix(a, b');
    }
  }

  /** A duplicate-free `a` is kept whole, and first, by `Dedup(a + b)`. */
  lemma DedupKeepsFirstPart<T>(a: seq<T>, b: seq<T>)
    requires NoDup(a)
    ensures |a| <= |Dedup(a + b)| && Dedup(a + b)[..|a|] == a
  {
    DedupOfNoDup(a);
    DedupAppendPrefix(a, b);
  }

  /** A non-empty sequence is its prefix followed by its last element. */
  lemma InitLast<T>(s: seq<T>)
    requires s != []
    ensures s == s[..|s| - 1] + [s[|s| - 1]]
  {
  }

  /** A pointwise image of s is the image of all but its last element, then the image of that one. */
  lemma ImageSnoc<T, U>(s: seq<T>, f: T -> U, a: seq<U>, b: seq<U>)
    requires s != [] && |a| == |s| && |b| == |s| - 1
    requires forall k :: 0 <= k < |s| ==> a[k] == f(s[k])
    requires forall k :: 0 <= k < |b| ==> b[k] == f(s[k])
    ensures a == b + [f(s[|s| - 1])]
  {
  }

  /** Filtering one more element keeps it at the end exactly when it passes. */
  lemma FilterSnoc<T>(s: seq<T>, p: T -> bool, x: T)
    ensures Filter(s + [x], p) == Filter(s, p) + (if p(x) then [x] else [])
  {
    assert (s + [x])[..|s + [x]| - 1] == s;
  }

  /** Membership in a filtered sequence. */
  lemma FilterMember<T>(s: seq<T>, p: T -> bool, x: T)
    ensures x in Filter(s, p) <==> x in s && p(x)
  {
    var r := Filter(s, p);
    if x in r {
      var k :| 0 <= k < |r| && r[k] == x;
    }
    if x in s && p(x) {
      var k :| 0 <= k < |s| && s[k] == x;
    }
  }

  /** Filtering keeps a sequence free of duplicates. */
  lemma {:induction false} FilterNoDup<T>(s: seq<T>, p: T -> bool)
    requires NoDup(s)
    ensures NoDup(Filter(s, p))
  {
    if s != [] {
      var init := s[..|s| - 1];
      var x := s[|s| - 1];
      assert NoDup(init);
      FilterNoDup(init, p);
      FilterMember(init, p, x);
    }
  }
}
