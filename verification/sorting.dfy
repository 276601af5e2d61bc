/** `Array.prototype.sort` with a numeric comparator `(a, b) => key(a) - key(b)`, which is a
    stable sort by `key`, and `Array.prototype.find`. Both are used by app/page.js on the
    entries of a constant table. */
module Sorting {
  import opened JsSemantics

  ghost predicate SortedBy<T>(s: seq<T>, key: T -> real) {
    forall i, j :: 0 <= i < j < |s| ==> key(s[i]) <= key(s[j])
  }

  /** Places `x` after every leading element whose key is not greater than its own, so that
      equal keys keep their arrival order. */
  function Insert<T>(sorted: seq<T>, x: T, key: T -> real): (r: seq<T>)
    ensures |r| == |sorted| + 1
  {
    if |sorted| == 0 then [x]
    else if key(x) < key(sorted[0]) then [x] + sorted
    else [sorted[0]] + Insert(sorted[1..], x, key)
  }

  /** A stable insertion sort. */
  function SortBy<T>(s: seq<T>, key: T -> real): (r: seq<T>)
    ensures |r| == |s|
  {
    if |s| == 0 then []
    else Insert(SortBy(s[..|s| - 1], key), s[|s| - 1], key)
  }

  lemma {:induction false} InsertPermutes<T>(sorted: seq<T>, x: T, key: T -> real)
    ensures multiset(Insert(sorted, x, key)) == multiset(sorted) + multiset{x}
  {
    if |sorted| > 0 && key(sorted[0]) <= key(x) {
      InsertPermutes(sorted[1..], x, key);
      assert sorted == [sorted[0]] + sorted[1..];
    }
  }

  lemma {:induction false} InsertSorted<T>(sorted: seq<T>, x: T, key: T -> real)
    requires SortedBy(sorted, key)
    ensures SortedBy(Insert(sorted, x, key), key)
  {
    if |sorted| > 0 && key(sorted[0]) <= key(x) {
      var tail := Insert(sorted[1..], x, key);
      InsertSorted(sorted[1..], x, key);
      InsertPermutes(sorted[1..], x, key);
      forall j | 0 <= j < |tail|
        ensures key(sorted[0]) <= key(tail[j])
      {
        assert tail[j] in multiset(tail);
        if tail[j] != x {
          assert tail[j] in multiset(sorted[1..]);
          var i :| 0 <= i < |sorted[1..]| && sorted[1..][i] == tail[j];
          assert sorted[i + 1] == tail[j];
        }
      }
    }
  }

  /** Sorting neither loses nor invents elements. */
  lemma {:induction false} SortByPermutes<T>(s: seq<T>, key: T -> real)
    ensures multiset(SortBy(s, key)) == multiset(s)
  {
    if |s| > 0 {
      SortByPermutes(s[..|s| - 1], key);
      InsertPermutes(SortBy(s[..|s| - 1], key), s[|s| - 1], key);
      assert s == s[..|s| - 1] + [s[|s| - 1]];
    }
  }

  /** Sorting orders by non-decreasing key. */
  lemma {:induction false} SortBySorted<T>(s: seq<T>, key: T -> real)
    ensures SortedBy(SortBy(s, key), key)
  {
    if |s| > 0 {
      SortBySorted(s[..|s| - 1], key);
      InsertSorted(SortBy(s[..|s| - 1], key), s[|s| - 1], key);
    }
  }

  lemma SortBySnoc<T>(s: seq<T>, x: T, key: T -> real)
    ensures SortBy(s + [x], key) == Insert(SortBy(s, key), x, key)
  {
    assert (s + [x])[..|s|] == s;
  }

  /** An element whose key is not below any key already present goes last. */
  lemma {:induction false} InsertAppends<T>(sorted: seq<T>, x: T, key: T -> real)
    requires forall i :: 0 <= i < |sorted| ==> key(sorted[i]) <= key(x)
    ensures Insert(sorted, x, key) == sorted + [x]
  {
    if |sorted| > 0 {
      InsertAppends(sorted[1..], x, key);
      assert sorted == [sorted[0]] + sorted[1..];
    }
  }

  lemma InsertPrepends<T>(sorted: seq<T>, x: T, key: T -> real)
    requires |sorted| > 0 && key(x) < key(sorted[0])
    ensures Insert(sorted, x, key) == [x] + sorted
  {
  }

  lemma InsertSkipsHead<T>(sorted: seq<T>, x: T, key: T -> real)
    requires |sorted| > 0 && key(sorted[0]) <= key(x)
    ensures Insert(sorted, x, key) == [sorted[0]] + Insert(sorted[1..], x, key)
  {
  }

  /** `find`: the position of the first element satisfying `p`, if any. */
  function FindFirst<T>(s: seq<T>, p: T -> bool): (r: Option<nat>)
    ensures r.Some? ==> r.value < |s| && p(s[r.value]) && forall j :: 0 <= j < r.value ==> !p(s[j])
    ensures r.None? <==> forall j :: 0 <= j < |s| ==> !p(s[j])
  {
    if |s| == 0 then None
    else if p(s[0]) then Some(0)
    else
      match FindFirst(s[1..], p)
      case None => None
      case Some(k) => Some(k + 1)
  }

  /** The head of a sorted permutation has the least key of the whole input. */
  lemma HeadIsMinimum<T>(s: seq<T>, r: seq<T>, key: T -> real)
    requires SortedBy(r, key) && multiset(r) == multiset(s) && |r| > 0
    ensures forall x :: x in s ==> key(r[0]) <= key(x)
    ensures r[0] in s
  {
    forall x | x in s
      ensures key(r[0]) <= key(x)
    {
      assert x in multiset(r);
      var i :| 0 <= i < |r| && r[i] == x;
    }
    assert r[0] in multiset(s);
  }

  /** The position of the first element with the least key: an independent description of
      what the head of a stable sort is. */
  function FirstMinIndex<T>(s: seq<T>, key: T -> real): (k: nat)
    requires |s| > 0
    ensures k < |s|
    ensures forall j :: 0 <= j < |s| ==> key(s[k]) <= key(s[j])
    ensures forall j :: 0 <= j < k ==> key(s[k]) < key(s[j])
  {
    if |s| == 1 then 0
    else
      var k := FirstMinIndex(s[..|s| - 1], key);
      if key(s[|s| - 1]) < key(s[k]) then |s| - 1 else k
  }

  /** Stability at the head: the first element of the sorted sequence is the earliest element
      of the input among those with the least key. */
  lemma {:induction false} SortHeadIsFirstMin<T>(s: seq<T>, key: T -> real)
    requires |s| > 0
    ensures SortBy(s, key)[0] == s[FirstMinIndex(s, key)]
  {
    if |s| > 1 {
      var prefix := s[..|s| - 1];
      SortHeadIsFirstMin(prefix, key);
      var sorted := SortBy(prefix, key);
      var k := FirstMinIndex(prefix, key);
      assert prefix[k] == s[k];
      if key(s[|s| - 1]) < key(sorted[0]) {
        InsertPrepends(sorted, s[|s| - 1], key);
      } else {
        InsertSkipsHead(sorted, s[|s| - 1], key);
      }
    }
  }
}
