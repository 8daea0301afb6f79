/** Sums over columns of reals (numpy's np.sum), boolean-mask selection
    (df[mask]) and the facts about them that the stages need. */
module Seqs {

  /** Sum of a column; defined from the back so that a running total that
      grows by one element per loop step is Sum of the prefix seen so far. */
  function Sum(s: seq<real>): real
    decreases |s|
  {
    if s == [] then 0.0 else Sum(s[..|s| - 1]) + s[|s| - 1]
  }

  lemma {:induction false} SumAppend(a: seq<real>, b: seq<real>)
    ensures Sum(a + b) == Sum(a) + Sum(b)
    decreases |b|
  {
    if b == [] {
      assert a + b == a;
    } else {
      assert (a + b)[..|a + b| - 1] == a + b[..|b| - 1];
      SumAppend(a, b[..|b| - 1]);
    }
  }

  /** A slice sum splits at any inner position. */
  lemma SumSplit(s: seq<real>, lo: nat, mid: nat, hi: nat)
    requires lo <= mid <= hi <= |s|
    ensures Sum(s[lo..hi]) == Sum(s[lo..mid]) + Sum(s[mid..hi])
  {
    assert s[lo..hi] == s[lo..mid] + s[mid..hi];
    SumAppend(s[lo..mid], s[mid..hi]);
  }

  /** Extending a slice by the element after it adds that element. */
  lemma SumExtend(s: seq<real>, lo: nat, hi: nat)
    requires lo <= hi < |s|
    ensures Sum(s[lo..hi + 1]) == Sum(s[lo..hi]) + s[hi]
  {
    assert s[lo..hi + 1][..hi - lo] == s[lo..hi];
  }

  lemma {:induction false} SumNonNegative(s: seq<real>)
    requires forall i :: 0 <= i < |s| ==> s[i] >= 0.0
    ensures Sum(s) >= 0.0
    decreases |s|
  {
    if s != [] {
      SumNonNegative(s[..|s| - 1]);
    }
  }

  /** Every element of a non-negative column is at most its sum. */
  lemma {:induction false} SumAtLeastElement(s: seq<real>, k: nat)
    requires forall i :: 0 <= i < |s| ==> s[i] >= 0.0
    requires k < |s|
    ensures Sum(s) >= s[k]
    decreases |s|
  {
    if k == |s| - 1 {
      SumNonNegative(s[..|s| - 1]);
    } else {
      SumAtLeastElement(s[..|s| - 1], k);
    }
  }

  /** The elements satisfying p, in their order. */
  function Filter<T(!new)>(s: seq<T>, p: T -> bool): (r: seq<T>)
    ensures |r| <= |s|
    ensures forall x :: x in r <==> x in s && p(x)
    ensures multiset(r) <= multiset(s)
  {
    if s == [] then []
    else
      assert s == [s[0]] + s[1..];
      (if p(s[0]) then [s[0]] else []) + Filter(s[1..], p)
  }

  /** A relation that holds between every earlier and later element still
      holds after selection. */
  lemma {:induction false} FilterPairwise<T(!new)>(s: seq<T>, p: T -> bool, R: (T, T) -> bool)
    requires forall i, j :: 0 <= i < j < |s| ==> R(s[i], s[j])
    ensures forall i, j :: 0 <= i < j < |Filter(s, p)| ==> R(Filter(s, p)[i], Filter(s, p)[j])
  {
    if s != [] {
      var rest := Filter(s[1..], p);
      FilterPairwise(s[1..], p, R);
      forall y | y in rest ensures R(s[0], y) {
        var k :| 0 <= k < |s[1..]| && s[1..][k] == y;
        assert s[k + 1] == y;
      }
    }
  }

  /** 0, 1, ..., n - 1 (a fresh RangeIndex). */
  function Range(n: nat): (r: seq<nat>)
    ensures |r| == n && forall i :: 0 <= i < n ==> r[i] == i
  {
    seq(n, i requires 0 <= i < n => i)
  }

  /** The elements at the given positions (s.iloc[idx]). */
  function Pick<T>(s: seq<T>, idx: seq<nat>): (r: seq<T>)
    requires forall k :: 0 <= k < |idx| ==> idx[k] < |s|
    ensures |r| == |idx| && forall k :: 0 <= k < |idx| ==> r[k] == s[idx[k]]
  {
    seq(|idx|, k requires 0 <= k < |idx| => s[idx[k]])
  }

  lemma PickAppend<T>(s: seq<T>, a: seq<nat>, b: seq<nat>)
    requires forall k :: 0 <= k < |a| ==> a[k] < |s|
    requires forall k :: 0 <= k < |b| ==> b[k] < |s|
    ensures Pick(s, a + b) == Pick(s, a) + Pick(s, b)
  {
  }

  /** Removing one occurrence of the head of a from b keeps the multisets
      equal. */
  lemma RemoveMatched<T>(a: seq<T>, b: seq<T>, p: nat)
    requires a != [] && p < |b| && b[p] == a[0] && multiset(a) == multiset(b)
    ensures multiset(a[1..]) == multiset(b[..p] + b[p + 1..])
  {
    assert b == b[..p] + [b[p]] + b[p + 1..];
    assert a == [a[0]] + a[1..];
    calc {
      multiset(a[1..]);
      multiset(a) - multiset{a[0]};
      multiset(b) - multiset{a[0]};
      multiset(b[..p]) + multiset(b[p + 1..]);
      multiset(b[..p] + b[p + 1..]);
    }
  }

  /** Picking the same positions in another order picks the same elements. */
  lemma {:induction false} PickPermutation<T>(s: seq<T>, a: seq<nat>, b: seq<nat>)
    requires forall k :: 0 <= k < |a| ==> a[k] < |s|
    requires forall k :: 0 <= k < |b| ==> b[k] < |s|
    requires multiset(a) == multiset(b)
    ensures multiset(Pick(s, a)) == multiset(Pick(s, b))
    decreases |a|
  {
    if a != [] {
      var x := a[0];
      assert x in multiset(a);
      var p :| 0 <= p < |b| && b[p] == x;
      var b' := b[..p] + b[p + 1..];
      RemoveMatched(a, b, p);
      PickPermutation(s, a[1..], b');
      PickSplit(s, a, b, p);
    }
  }

  lemma PickSplit<T>(s: seq<T>, a: seq<nat>, b: seq<nat>, p: nat)
    requires forall k :: 0 <= k < |a| ==> a[k] < |s|
    requires forall k :: 0 <= k < |b| ==> b[k] < |s|
    requires a != [] && p < |b| && b[p] == a[0]
    requires multiset(Pick(s, a[1..])) == multiset(Pick(s, b[..p] + b[p + 1..]))
    ensures multiset(Pick(s, a)) == multiset(Pick(s, b))
  {
    assert a == [a[0]] + a[1..];
    assert b == b[..p] + [b[p]] + b[p + 1..];
    PickAppend(s, [a[0]], a[1..]);
    PickAppend(s, b[..p], b[p + 1..]);
    PickAppend(s, b[..p] + [b[p]], b[p + 1..]);
    PickAppend(s, b[..p], [b[p]]);
  }

  /** A strictly ascending sequence holds each value at most once. */
  lemma {:induction false} AscendingCount(s: seq<nat>, x: nat)
    requires forall a, b :: 0 <= a < b < |s| ==> s[a] < s[b]
    ensures multiset(s)[x] == if x in s then 1 else 0
    decreases |s|
  {
    if s != [] {
      assert s == [s[0]] + s[1..];
      AscendingCount(s[1..], x);
      assert s[0] !in s[1..];
    }
  }

  /** Concatenation is associative (stated for the solver, which otherwise
      has to rediscover it element by element). */
  lemma ConcatAssoc<T>(a: seq<T>, b: seq<T>, c: seq<T>)
    ensures a + (b + c) == (a + b) + c
  {
  }
}
