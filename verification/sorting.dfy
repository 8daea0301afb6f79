/** Sorting by a numeric key (pandas' sort_values). The model sorts by
    insertion; contracts only promise "sorted and a permutation", which is all
    that pandas' unstable quicksort promises too. */
module Sorting {

  predicate SortedBy<T>(s: seq<T>, key: T -> real)
  {
    forall i, j :: 0 <= i < j < |s| ==> key(s[i]) <= key(s[j])
  }

  predicate StrictlySortedBy<T>(s: seq<T>, key: T -> real)
  {
    forall i, j :: 0 <= i < j < |s| ==> key(s[i]) < key(s[j])
  }

  function Insert<T>(x: T, s: seq<T>, key: T -> real): seq<T>
  {
    if s == [] then [x]
    else if key(x) <= key(s[0]) then [x] + s
    else [s[0]] + Insert(x, s[1..], key)
  }

  lemma {:induction false} InsertPermutes<T>(x: T, s: seq<T>, key: T -> real)
    ensures multiset(Insert(x, s, key)) == multiset(s) + multiset{x}
    ensures |Insert(x, s, key)| == |s| + 1
  {
    if s != [] && key(s[0]) < key(x) {
      InsertPermutes(x, s[1..], key);
      assert s == [s[0]] + s[1..];
    }
  }

  lemma {:induction false} InsertSorted<T>(x: T, s: seq<T>, key: T -> real)
    requires SortedBy(s, key)
    ensures SortedBy(Insert(x, s, key), key)
  {
    if s != [] && key(s[0]) < key(x) {
      InsertSorted(x, s[1..], key);
      InsertPermutes(x, s[1..], key);
      var tail := Insert(x, s[1..], key);
      forall k | 0 <= k < |tail|
        ensures key(s[0]) <= key(tail[k])
      {
        assert tail[k] in multiset(s[1..]) + multiset{x};
        if tail[k] != x {
          assert tail[k] in s[1..];
        }
      }
    }
  }

  /** Sorts by the key; equal keys may come out in any order. */
  function SortBy<T>(s: seq<T>, key: T -> real): (r: seq<T>)
    ensures SortedBy(r, key)
    ensures multiset(r) == multiset(s)
    ensures |r| == |s|
  {
    if s == [] then []
    else
      var tail := SortBy(s[1..], key);
      InsertSorted(s[0], tail, key);
      InsertPermutes(s[0], tail, key);
      TailMultiset(s);
      Insert(s[0], tail, key)
  }

  /** The head of a sorted sequence has the least key. */
  lemma HeadIsLeast<T>(s: seq<T>, key: T -> real, x: T)
    requires SortedBy(s, key) && x in s
    ensures key(s[0]) <= key(x)
  {
    var j :| 0 <= j < |s| && s[j] == x;
  }

  /** In a strictly sorted sequence only the head has the head's key. */
  lemma OnlyHeadHasHeadKey<T>(s: seq<T>, key: T -> real, x: T)
    requires StrictlySortedBy(s, key) && x in s && key(x) <= key(s[0])
    ensures x == s[0]
  {
    var j :| 0 <= j < |s| && s[j] == x;
  }

  /** A sorted permutation of a strictly sorted sequence is that sequence:
      sorting input whose keys are already strictly increasing changes nothing. */
  lemma {:induction false} SortedPermutationUnique<T>(a: seq<T>, b: seq<T>, key: T -> real)
    requires SortedBy(a, key) && StrictlySortedBy(b, key)
    requires multiset(a) == multiset(b)
    ensures a == b
    decreases |a|
  {
    assert |a| == |multiset(a)| == |b|;
    if a != [] {
      assert a[0] in multiset(b) && b[0] in multiset(a);
      HeadIsLeast(a, key, b[0]);
      OnlyHeadHasHeadKey(b, key, a[0]);
      TailMultiset(a);
      TailMultiset(b);
      MultisetCancel(multiset(a[1..]), multiset(b[1..]), a[0]);
      SortedTail(a, key);
      StrictlySortedTail(b, key);
      SortedPermutationUnique(a[1..], b[1..], key);
      assert a == [a[0]] + a[1..] && b == [b[0]] + b[1..];
    }
  }

  lemma TailMultiset<T>(s: seq<T>)
    requires s != []
    ensures multiset(s) == multiset(s[1..]) + multiset{s[0]}
  {
    assert s == [s[0]] + s[1..];
  }

  lemma MultisetCancel<T>(m: multiset<T>, n: multiset<T>, x: T)
    requires m + multiset{x} == n + multiset{x}
    ensures m == n
  {
    assert m == (m + multiset{x}) - multiset{x};
    assert n == (n + multiset{x}) - multiset{x};
  }

  lemma SortedTail<T>(s: seq<T>, key: T -> real)
    requires SortedBy(s, key) && s != []
    ensures SortedBy(s[1..], key)
  {
  }

  lemma StrictlySortedTail<T>(s: seq<T>, key: T -> real)
    requires StrictlySortedBy(s, key) && s != []
    ensures StrictlySortedBy(s[1..], key)
  {
  }

  /** Sorting a strictly sorted sequence returns it unchanged. */
  lemma SortStrictlySorted<T>(s: seq<T>, key: T -> real)
    requires StrictlySortedBy(s, key)
    ensures SortBy(s, key) == s
  {
    SortedPermutationUnique(SortBy(s, key), s, key);
  }
}
