/** Maximal runs of equal labels. The source takes the positions whose label
    is x (`df[df.detection == x].index.values`, a reset 0..n-1 index) and
    splits them with more_itertools.consecutive_groups; on such an index list
    the groups are exactly the maximal blocks of consecutive positions
    labelled x, in ascending order. A run is a half-open range (lo, hi). */
module Runs {

  ghost predicate AllIn<T>(s: seq<T>, x: T, lo: nat, hi: nat)
    requires lo <= hi <= |s|
  {
    forall k :: lo <= k < hi ==> s[k] == x
  }

  ghost predicate NoneIn<T>(s: seq<T>, x: T, lo: nat, hi: nat)
    requires hi <= |s|
  {
    forall k :: lo <= k < hi ==> s[k] != x
  }

  /** End (exclusive) of the block of x-labels that starts at i. */
  function RunEnd<T(==)>(s: seq<T>, x: T, i: nat): (e: nat)
    requires i <= |s|
    ensures i <= e <= |s|
    ensures AllIn(s, x, i, e)
    ensures e == |s| || s[e] != x
    ensures i < |s| && s[i] == x ==> i < e
    decreases |s| - i
  {
    if i < |s| && s[i] == x then RunEnd(s, x, i + 1) else i
  }

  /** Start of the block of x-labels that ends just after k. */
  function RunStart<T(==)>(s: seq<T>, x: T, k: nat): (b: nat)
    requires k <= |s|
    ensures b <= k
    ensures AllIn(s, x, b, k)
    ensures b == 0 || s[b - 1] != x
  {
    if k > 0 && s[k - 1] == x then RunStart(s, x, k - 1) else k
  }

  /** The groups of consecutive x-positions at or after position i. */
  function RunsFrom<T(==)>(s: seq<T>, x: T, i: nat): seq<(nat, nat)>
    requires i <= |s|
    decreases |s| - i
  {
    if i == |s| then []
    else if s[i] != x then RunsFrom(s, x, i + 1)
    else
      var e := RunEnd(s, x, i);
      [(i, e)] + RunsFrom(s, x, e)
  }

  function RunsOf<T(==)>(s: seq<T>, x: T): seq<(nat, nat)>
  {
    RunsFrom(s, x, 0)
  }

  /** Where the gap before run j begins. */
  function GapStart(runs: seq<(nat, nat)>, j: nat, from: nat): nat
    requires j <= |runs|
  {
    if j == 0 then from else runs[j - 1].1
  }

  /** (lo, hi) is a maximal x-block and no x lies between gap and lo. */
  ghost predicate RunOk<T>(s: seq<T>, x: T, lo: nat, hi: nat, gap: nat)
  {
    && gap <= lo < hi <= |s|
    && AllIn(s, x, lo, hi)
    && (hi == |s| || s[hi] != x)
    && NoneIn(s, x, gap, lo)
  }

  /** runs are the maximal x-blocks of s[from..], in ascending order, and no
      x-position lies outside them. */
  ghost predicate IsRunPartition<T>(s: seq<T>, x: T, runs: seq<(nat, nat)>, from: nat)
  {
    && from <= |s|
    && (forall j :: 0 <= j < |runs| ==> RunOk(s, x, runs[j].0, runs[j].1, GapStart(runs, j, from)))
    && GapStart(runs, |runs|, from) <= |s|
    && NoneIn(s, x, GapStart(runs, |runs|, from), |s|)
  }

  lemma {:induction false} RunsFromPartition<T>(s: seq<T>, x: T, i: nat)
    requires i <= |s|
    ensures IsRunPartition(s, x, RunsFrom(s, x, i), i)
    decreases |s| - i
  {
    if i == |s| {
    } else if s[i] != x {
      RunsFromPartition(s, x, i + 1);
      PartitionSkip(s, x, RunsFrom(s, x, i + 1), i);
    } else {
      var e := RunEnd(s, x, i);
      RunsFromPartition(s, x, e);
      PartitionTake(s, x, RunsFrom(s, x, e), i, e);
    }
  }

  /** A non-x position in front of a partition widens its first gap. */
  lemma {:induction false} PartitionSkip<T>(s: seq<T>, x: T, runs: seq<(nat, nat)>, i: nat)
    requires i < |s| && s[i] != x
    requires IsRunPartition(s, x, runs, i + 1)
    ensures IsRunPartition(s, x, runs, i)
  {
    forall j | 0 <= j < |runs|
      ensures RunOk(s, x, runs[j].0, runs[j].1, GapStart(runs, j, i))
    {
      assert RunOk(s, x, runs[j].0, runs[j].1, GapStart(runs, j, i + 1));
      if j == 0 {
        NoneInWiden(s, x, i, runs[0].0);
      } else {
        assert GapStart(runs, j, i) == GapStart(runs, j, i + 1);
      }
    }
    if runs == [] {
      NoneInWiden(s, x, i, |s|);
    }
  }

  lemma NoneInWiden<T>(s: seq<T>, x: T, i: nat, hi: nat)
    requires i < |s| && s[i] != x && hi <= |s| && NoneIn(s, x, i + 1, hi)
    ensures NoneIn(s, x, i, hi)
  {
  }

  /** A maximal block in front of a partition becomes its first run. */
  lemma {:induction false} PartitionTake<T>(s: seq<T>, x: T, rest: seq<(nat, nat)>, i: nat, e: nat)
    requires i < e <= |s| && AllIn(s, x, i, e) && (e == |s| || s[e] != x)
    requires IsRunPartition(s, x, rest, e)
    ensures IsRunPartition(s, x, [(i, e)] + rest, i)
  {
    var runs := [(i, e)] + rest;
    assert RunOk(s, x, i, e, i);
    forall j | 0 <= j < |runs|
      ensures RunOk(s, x, runs[j].0, runs[j].1, GapStart(runs, j, i))
    {
      if j > 0 {
        RunOkShift(s, x, rest, runs, i, e, j);
      }
    }
    assert GapStart(runs, |runs|, i) == GapStart(rest, |rest|, e);
  }

  lemma {:induction false} RunOkShift<T>(s: seq<T>, x: T, rest: seq<(nat, nat)>, runs: seq<(nat, nat)>, i: nat, e: nat, j: nat)
    requires runs == [(i, e)] + rest && 0 < j < |runs|
    requires IsRunPartition(s, x, rest, e)
    ensures RunOk(s, x, runs[j].0, runs[j].1, GapStart(runs, j, i))
  {
    assert runs[j] == rest[j - 1];
    assert GapStart(runs, j, i) == GapStart(rest, j - 1, e);
    assert RunOk(s, x, rest[j - 1].0, rest[j - 1].1, GapStart(rest, j - 1, e));
  }

  lemma RunsOfPartition<T>(s: seq<T>, x: T)
    ensures IsRunPartition(s, x, RunsOf(s, x), 0)
  {
    RunsFromPartition(s, x, 0);
  }

  /** Runs of a partition from 0 are also maximal on the left. */
  lemma RunIsLeftMaximal<T>(s: seq<T>, x: T, runs: seq<(nat, nat)>, j: nat)
    requires IsRunPartition(s, x, runs, 0) && j < |runs|
    ensures runs[j].0 == 0 || s[runs[j].0 - 1] != x
  {
    assert RunOk(s, x, runs[j].0, runs[j].1, GapStart(runs, j, 0));
    if j > 0 {
      assert RunOk(s, x, runs[j - 1].0, runs[j - 1].1, GapStart(runs, j - 1, 0));
    }
  }

  lemma {:induction false} RunEndOfBlock<T>(s: seq<T>, x: T, k: nat, hi: nat)
    requires k <= hi <= |s| && AllIn(s, x, k, hi)
    requires hi == |s| || s[hi] != x
    ensures RunEnd(s, x, k) == hi
    decreases hi - k
  {
    if k < hi {
      RunEndOfBlock(s, x, k + 1, hi);
    }
  }

  lemma {:induction false} RunStartOfBlock<T>(s: seq<T>, x: T, lo: nat, k: nat)
    requires lo <= k <= |s| && AllIn(s, x, lo, k)
    requires lo == 0 || s[lo - 1] != x
    ensures RunStart(s, x, k) == lo
    decreases k - lo
  {
    if lo < k {
      RunStartOfBlock(s, x, lo, k - 1);
    }
  }

  /** The maximal block of equal labels around position k, as (lo, hi). */
  function BlockAt<T(==)>(s: seq<T>, k: nat): (r: (nat, nat))
    requires k < |s|
    ensures r.0 <= k < r.1 <= |s|
    ensures AllIn(s, s[k], r.0, r.1)
    ensures r.0 == 0 || s[r.0 - 1] != s[k]
    ensures r.1 == |s| || s[r.1] != s[k]
  {
    (RunStart(s, s[k], k), RunEnd(s, s[k], k))
  }

  /** Every position of a run has that run as its block. */
  lemma BlockOfRun<T>(s: seq<T>, x: T, runs: seq<(nat, nat)>, j: nat, k: nat)
    requires IsRunPartition(s, x, runs, 0) && j < |runs|
    requires runs[j].0 <= k < runs[j].1
    ensures s[k] == x && BlockAt(s, k) == runs[j]
  {
    assert RunOk(s, x, runs[j].0, runs[j].1, GapStart(runs, j, 0));
    RunIsLeftMaximal(s, x, runs, j);
    RunEndOfBlock(s, x, k, runs[j].1);
    RunStartOfBlock(s, x, runs[j].0, k);
  }

  /** Positions of one block share it. */
  lemma SameBlock<T>(s: seq<T>, k: nat, k': nat)
    requires k < |s| && BlockAt(s, k).0 <= k' < BlockAt(s, k).1
    ensures s[k'] == s[k] && BlockAt(s, k') == BlockAt(s, k)
  {
    var b := BlockAt(s, k);
    RunEndOfBlock(s, s[k], k', b.1);
    RunStartOfBlock(s, s[k], b.0, k');
  }

  /** Run j of x's runs lies after the previous one, nothing between them is
      labelled x, and every position of the run has the run as its block. */
  lemma RunAt<T>(s: seq<T>, x: T, j: nat)
    requires j < |RunsOf(s, x)|
    ensures GapStart(RunsOf(s, x), j, 0) <= RunsOf(s, x)[j].0 < RunsOf(s, x)[j].1 <= |s|
    ensures RunsOf(s, x)[j].1 == GapStart(RunsOf(s, x), j + 1, 0)
    ensures forall k :: GapStart(RunsOf(s, x), j, 0) <= k < RunsOf(s, x)[j].0 ==> s[k] != x
    ensures forall k :: RunsOf(s, x)[j].0 <= k < RunsOf(s, x)[j].1 ==>
      s[k] == x && BlockAt(s, k) == RunsOf(s, x)[j]
  {
    var runs := RunsOf(s, x);
    RunsOfPartition(s, x);
    assert RunOk(s, x, runs[j].0, runs[j].1, GapStart(runs, j, 0));
    forall k | runs[j].0 <= k < runs[j].1 ensures s[k] == x && BlockAt(s, k) == runs[j] {
      BlockOfRun(s, x, runs, j, k);
    }
  }

  /** Nothing after the last run is labelled x. */
  lemma RunsEnd<T>(s: seq<T>, x: T)
    ensures GapStart(RunsOf(s, x), |RunsOf(s, x)|, 0) <= |s|
    ensures forall k :: GapStart(RunsOf(s, x), |RunsOf(s, x)|, 0) <= k < |s| ==> s[k] != x
  {
    RunsOfPartition(s, x);
  }

  /** The runs of x come in order: an earlier run ends before a later one
      starts. */
  lemma {:induction false} RunsOrdered<T>(s: seq<T>, x: T, j: nat, j': nat)
    requires j < j' < |RunsOf(s, x)|
    ensures RunsOf(s, x)[j].1 <= RunsOf(s, x)[j'].0
    decreases j' - j
  {
    RunAt(s, x, j');
    if j + 1 < j' {
      RunsOrdered(s, x, j, j' - 1);
      RunAt(s, x, j' - 1);
    }
  }

  lemma {:induction false} FindRun<T>(s: seq<T>, x: T, k: nat, i: nat) returns (j: nat)
    requires k < |s| && s[k] == x
    requires i <= |RunsOf(s, x)| && GapStart(RunsOf(s, x), i, 0) <= k
    ensures i <= j < |RunsOf(s, x)| && RunsOf(s, x)[j].0 <= k < RunsOf(s, x)[j].1
    decreases |RunsOf(s, x)| - i
  {
    RunsEnd(s, x);
    assert i < |RunsOf(s, x)|;
    RunAt(s, x, i);
    if k < RunsOf(s, x)[i].1 {
      j := i;
    } else {
      j := FindRun(s, x, k, i + 1);
    }
  }

  /** Every position labelled x lies in exactly one run of x. */
  lemma RunContaining<T>(s: seq<T>, x: T, k: nat) returns (j: nat)
    requires k < |s| && s[k] == x
    ensures j < |RunsOf(s, x)| && RunsOf(s, x)[j].0 <= k < RunsOf(s, x)[j].1
    ensures forall j' :: 0 <= j' < |RunsOf(s, x)| && RunsOf(s, x)[j'].0 <= k < RunsOf(s, x)[j'].1 ==> j' == j
  {
    var runs := RunsOf(s, x);
    j := FindRun(s, x, k, 0);
    forall j' | 0 <= j' < |runs| && runs[j'].0 <= k < runs[j'].1 ensures j' == j {
      if j' < j {
        RunsOrdered(s, x, j', j);
      } else if j < j' {
        RunsOrdered(s, x, j, j');
      }
    }
  }

  /** Every run is a non-empty range of positions of s. */
  lemma RunsInRange<T>(s: seq<T>, x: T)
    ensures forall j :: 0 <= j < |RunsOf(s, x)| ==> RunsOf(s, x)[j].0 < RunsOf(s, x)[j].1 <= |s|
  {
    forall j | 0 <= j < |RunsOf(s, x)|
      ensures RunsOf(s, x)[j].0 < RunsOf(s, x)[j].1 <= |s|
    {
      RunAt(s, x, j);
    }
  }

  /** A run of x is a maximal block: x at both ends, and not x just outside. */
  lemma RunEnds<T>(s: seq<T>, x: T, j: nat)
    requires j < |RunsOf(s, x)|
    ensures RunsOf(s, x)[j].0 < RunsOf(s, x)[j].1 <= |s|
    ensures s[RunsOf(s, x)[j].0] == x && s[RunsOf(s, x)[j].1 - 1] == x
    ensures RunsOf(s, x)[j].0 == 0 || s[RunsOf(s, x)[j].0 - 1] != x
    ensures RunsOf(s, x)[j].1 == |s| || s[RunsOf(s, x)[j].1] != x
  {
    var run := RunsOf(s, x)[j];
    RunAt(s, x, j);
    assert BlockAt(s, run.0) == run;
  }

  /** Inside a run, a position whose left neighbour differs is the run's
      start, and one whose right neighbour differs is its last position. */
  lemma InsideRun<T>(s: seq<T>, x: T, j: nat, k: nat)
    requires j < |RunsOf(s, x)| && RunsOf(s, x)[j].0 <= k < RunsOf(s, x)[j].1
    ensures k < |s| && s[k] == x
    ensures (k == 0 || s[k - 1] != s[k]) ==> k == RunsOf(s, x)[j].0
    ensures (k + 1 == |s| || s[k + 1] != s[k]) ==> k == RunsOf(s, x)[j].1 - 1
  {
    var run := RunsOf(s, x)[j];
    RunAt(s, x, j);
    assert run.0 < k ==> s[k - 1] == x;
    assert k + 1 < run.1 ==> s[k + 1] == x;
  }
}
