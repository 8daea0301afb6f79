/** prepare (mobilipy/preparation.py): drop inaccurate points, then smooth
    every coordinate with a Gaussian kernel over its neighbours in time. */
module Preparation {
  import opened Seqs
  import opened CivilTime
  import opened Waypoints

  /** Points whose reported accuracy is this or worse are dropped. */
  const MaxAccuracy: real := 1000.0

  /** The kernel reaches five points back and five points ahead. */
  const HalfWindow: nat := 5

  /** accuracy < 1000; a missing accuracy (NaN) compares false. */
  predicate AccurateEnough(r: Row)
  {
    r.accuracy.Some? && r.accuracy.value < MaxAccuracy
  }

  /** The accuracy filter of prepare, applied only when the column exists. */
  function FilterAccuracy(f: Frame): (g: Frame)
    ensures g.columns == f.columns
    ensures "accuracy" in f.columns ==> forall x :: x in g.rows <==> x in f.rows && AccurateEnough(x)
    ensures "accuracy" !in f.columns ==> g.rows == f.rows
    ensures |g.rows| <= |f.rows|
  {
    if "accuracy" in f.columns then Frame(f.columns, Filter(f.rows, AccurateEnough)) else f
  }

  /** Filtering keeps the time order established on ingestion. */
  lemma FilterAccuracyKeepsOrder(f: Frame)
    requires TimeOrdered(f.rows)
    ensures TimeOrdered(FilterAccuracy(f).rows)
  {
    if "accuracy" in f.columns {
      FilterPairwise(f.rows, AccurateEnough, InOrder);
    }
  }

  /** Whole seconds since the epoch: nanoseconds floor-divided by 10**9. */
  function EpochSeconds(r: Row): int
  {
    if TimeOf(r).Some? then TimeOf(r).value / 1000000 else 0
  }

  /** The kernel as a function of the gap in seconds: it stands for
      exp(-gap**2 / sigma**2) with sigma = 10, of which the model uses that
      it is 1 at a zero gap and never negative (the float exp underflows to
      0.0 for long gaps). */
  type Kernel = int -> real

  ghost predicate GaussianLike(w: Kernel)
  {
    w(0) == 1.0 && forall d :: w(d) >= 0.0
  }

  /** First index of the window around point i. */
  function WindowStart(i: nat): (lo: nat)
    ensures lo <= i && i - lo <= HalfWindow
  {
    if i - HalfWindow > 0 then i - HalfWindow else 0
  }

  /** One past the last index of the window around point i of n. */
  function WindowEnd(n: nat, i: nat): (hi: nat)
    requires i < n
    ensures i < hi <= n && hi - i <= HalfWindow + 1
  {
    if i + HalfWindow + 1 < n then i + HalfWindow + 1 else n
  }

  /** Kernel weight of every window point relative to point i. */
  function WindowWeights(rows: seq<Row>, w: Kernel, i: nat): (ws: seq<real>)
    requires i < |rows|
    ensures |ws| == WindowEnd(|rows|, i) - WindowStart(i)
  {
    var lo := WindowStart(i);
    seq(WindowEnd(|rows|, i) - lo, k requires 0 <= k < WindowEnd(|rows|, i) - lo =>
      w(EpochSeconds(rows[lo + k]) - EpochSeconds(rows[i])))
  }

  function Longitudes(rows: seq<Row>): (xs: seq<real>)
    ensures |xs| == |rows|
  {
    seq(|rows|, k requires 0 <= k < |rows| => rows[k].longitude)
  }

  function Latitudes(rows: seq<Row>): (xs: seq<real>)
    ensures |xs| == |rows|
  {
    seq(|rows|, k requires 0 <= k < |rows| => rows[k].latitude)
  }

  /** The pairwise products (weights * values). */
  function Products(ws: seq<real>, xs: seq<real>): (ps: seq<real>)
    requires |ws| == |xs|
    ensures |ps| == |ws| && forall k :: 0 <= k < |ws| ==> ps[k] == ws[k] * xs[k]
  {
    seq(|ws|, k requires 0 <= k < |ws| => ws[k] * xs[k])
  }

  /** Sum of the pairwise products (np.sum(weights * values)). */
  function Dot(ws: seq<real>, xs: seq<real>): real
    requires |ws| == |xs|
  {
    Sum(Products(ws, xs))
  }

  /** The weighted mean of a column. */
  function WeightedMean(ws: seq<real>, xs: seq<real>): real
    requires |ws| == |xs| && Sum(ws) > 0.0
  {
    Dot(ws, xs) / Sum(ws)
  }

  /** n copies of c. */
  function Constant(n: nat, c: real): (r: seq<real>)
    ensures |r| == n && forall k :: 0 <= k < n ==> r[k] == c
  {
    seq(n, k => c)
  }

  /** A sum grows with its terms. */
  lemma {:induction false} SumMonotone(a: seq<real>, b: seq<real>)
    requires |a| == |b| && forall k :: 0 <= k < |a| ==> a[k] <= b[k]
    ensures Sum(a) <= Sum(b)
    decreases |a|
  {
    if a != [] {
      var n := |a| - 1;
      SumMonotone(a[..n], b[..n]);
    }
  }

  /** Scaling every term scales the sum. */
  lemma {:induction false} SumScale(ps: seq<real>, ws: seq<real>, cs: seq<real>, c: real)
    requires |ps| == |ws| == |cs|
    requires forall k :: 0 <= k < |ws| ==> ps[k] == ws[k] * cs[k] && cs[k] == c
    ensures Sum(ps) == c * Sum(ws)
    decreases |ws|
  {
    if ws != [] {
      var n := |ws| - 1;
      SumScale(ps[..n], ws[..n], cs[..n], c);
      Distribute(c, Sum(ws[..n]), ws[n]);
    }
  }

  lemma Distribute(c: real, s: real, a: real)
    ensures c * (s + a) == c * s + c * a
  {
  }

  lemma ScaledLess(a: real, x: real, y: real)
    requires a >= 0.0 && x <= y
    ensures a * x <= a * y
  {
    assert a * (y - x) >= 0.0;
  }

  /** With non-negative weights, the weighted sum grows with the values. */
  lemma DotMonotone(ws: seq<real>, xs: seq<real>, ys: seq<real>)
    requires |ws| == |xs| == |ys|
    requires forall k :: 0 <= k < |ws| ==> ws[k] >= 0.0 && xs[k] <= ys[k]
    ensures Dot(ws, xs) <= Dot(ws, ys)
  {
    forall k | 0 <= k < |ws| ensures Products(ws, xs)[k] <= Products(ws, ys)[k] {
      ScaledLess(ws[k], xs[k], ys[k]);
    }
    SumMonotone(Products(ws, xs), Products(ws, ys));
  }

  /** Weighting a constant gives the constant times the weight sum. */
  lemma DotConstant(ws: seq<real>, cs: seq<real>, c: real)
    requires |cs| == |ws| && forall k :: 0 <= k < |cs| ==> cs[k] == c
    ensures Dot(ws, cs) == c * Sum(ws)
  {
    SumScale(Products(ws, cs), ws, cs, c);
  }

  /** With non-negative weights, the weighted sum lies between the bounds of
      the values times the weight sum. */
  lemma DotBetween(ws: seq<real>, xs: seq<real>, m: real, M: real)
    requires |ws| == |xs|
    requires forall k :: 0 <= k < |ws| ==> ws[k] >= 0.0
    requires forall k :: 0 <= k < |xs| ==> m <= xs[k] <= M
    ensures m * Sum(ws) <= Dot(ws, xs) <= M * Sum(ws)
  {
    DotMonotone(ws, Constant(|ws|, m), xs);
    DotMonotone(ws, xs, Constant(|ws|, M));
    DotConstant(ws, Constant(|ws|, m), m);
    DotConstant(ws, Constant(|ws|, M), M);
  }

  /** A weighted mean with non-negative weights lies between any bounds of
      the values. */
  lemma WeightedMeanBetween(ws: seq<real>, xs: seq<real>, m: real, M: real)
    requires |ws| == |xs| && Sum(ws) > 0.0
    requires forall k :: 0 <= k < |ws| ==> ws[k] >= 0.0
    requires forall k :: 0 <= k < |xs| ==> m <= xs[k] <= M
    ensures m <= WeightedMean(ws, xs) <= M
  {
    DotBetween(ws, xs, m, M);
    QuotientBetween(Dot(ws, xs), Sum(ws), m, M);
  }

  lemma QuotientBetween(d: real, s: real, m: real, M: real)
    requires s > 0.0 && m * s <= d <= M * s
    ensures m <= d / s <= M
  {
    assert d / s * s == d;
  }

  /** The weights of a window are non-negative and sum to at least 1 (the
      weight of the centre point). */
  lemma WindowWeightsPositive(rows: seq<Row>, w: Kernel, i: nat)
    requires i < |rows| && GaussianLike(w)
    ensures forall k :: 0 <= k < |WindowWeights(rows, w, i)| ==> WindowWeights(rows, w, i)[k] >= 0.0
    ensures Sum(WindowWeights(rows, w, i)) >= 1.0
  {
    var ws := WindowWeights(rows, w, i);
    assert ws[i - WindowStart(i)] == w(0);
    SumAtLeastElement(ws, i - WindowStart(i));
  }

  /** Point i after smoothing: both coordinates replaced by their
      kernel-weighted means over the window; all other fields kept. */
  function SmoothedAt(rows: seq<Row>, w: Kernel, i: nat): (r: Row)
    requires i < |rows| && GaussianLike(w)
    ensures r.trackedAt == rows[i].trackedAt && r.userId == rows[i].userId
    ensures r.accuracy == rows[i].accuracy && r.speed == rows[i].speed
  {
    var lo, hi := WindowStart(i), WindowEnd(|rows|, i);
    var ws := WindowWeights(rows, w, i);
    WindowWeightsPositive(rows, w, i);
    rows[i].(longitude := WeightedMean(ws, Longitudes(rows)[lo..hi]),
             latitude := WeightedMean(ws, Latitudes(rows)[lo..hi]))
  }

  /** A smoothed point stays inside every box that holds its window. */
  lemma SmoothedWithinWindow(rows: seq<Row>, w: Kernel, i: nat,
                             minLon: real, maxLon: real, minLat: real, maxLat: real)
    requires i < |rows| && GaussianLike(w)
    requires forall k :: WindowStart(i) <= k < WindowEnd(|rows|, i) ==>
      minLon <= rows[k].longitude <= maxLon && minLat <= rows[k].latitude <= maxLat
    ensures minLon <= SmoothedAt(rows, w, i).longitude <= maxLon
    ensures minLat <= SmoothedAt(rows, w, i).latitude <= maxLat
  {
    var lo, hi := WindowStart(i), WindowEnd(|rows|, i);
    var ws := WindowWeights(rows, w, i);
    WindowWeightsPositive(rows, w, i);
    WeightedMeanBetween(ws, Longitudes(rows)[lo..hi], minLon, maxLon);
    WeightedMeanBetween(ws, Latitudes(rows)[lo..hi], minLat, maxLat);
  }

  /** A point whose whole window sits at one place is not moved. */
  lemma StationaryWindowUnmoved(rows: seq<Row>, w: Kernel, i: nat)
    requires i < |rows| && GaussianLike(w)
    requires forall k :: WindowStart(i) <= k < WindowEnd(|rows|, i) ==>
      rows[k].longitude == rows[i].longitude && rows[k].latitude == rows[i].latitude
    ensures SmoothedAt(rows, w, i) == rows[i]
  {
    SmoothedWithinWindow(rows, w, i, rows[i].longitude, rows[i].longitude, rows[i].latitude, rows[i].latitude);
  }

  /** _gaussian_smoothing: one pass over the points collecting the new
      longitudes and latitudes, then both columns replaced. */
  method GaussianSmoothing(rows: seq<Row>, w: Kernel) returns (out: seq<Row>)
    requires GaussianLike(w) && TimeOrdered(rows)
    ensures |out| == |rows|
    ensures forall i :: 0 <= i < |out| ==> out[i] == SmoothedAt(rows, w, i)
  {
    var lons, lats := SmoothedColumns(rows, w);
    out := seq(|rows|, k requires 0 <= k < |rows| => rows[k].(longitude := lons[k], latitude := lats[k]));
    forall i | 0 <= i < |out| ensures out[i] == SmoothedAt(rows, w, i) {
      SmoothedAtFields(rows, w, i);
    }
  }

  /** The loop of _gaussian_smoothing: for each point in turn, the weighted
      means of longitude and latitude over its window are appended. */
  method SmoothedColumns(rows: seq<Row>, w: Kernel) returns (lons: seq<real>, lats: seq<real>)
    requires GaussianLike(w)
    ensures |lons| == |rows| && |lats| == |rows|
    ensures forall k :: 0 <= k < |rows| ==>
      lons[k] == SmoothedAt(rows, w, k).longitude && lats[k] == SmoothedAt(rows, w, k).latitude
  {
    lons, lats := [], [];
    for i := 0 to |rows|
      invariant |lons| == i && |lats| == i
      invariant forall k :: 0 <= k < i ==>
        lons[k] == SmoothedAt(rows, w, k).longitude && lats[k] == SmoothedAt(rows, w, k).latitude
    {
      var smoothed := SmoothedAt(rows, w, i);
      lons := lons + [smoothed.longitude];
      lats := lats + [smoothed.latitude];
    }
  }

  /** Smoothing changes nothing of point i but its coordinates. */
  lemma SmoothedAtFields(rows: seq<Row>, w: Kernel, i: nat)
    requires i < |rows| && GaussianLike(w)
    ensures SmoothedAt(rows, w, i) == rows[i].(longitude := SmoothedAt(rows, w, i).longitude,
                                                latitude := SmoothedAt(rows, w, i).latitude)
  {
  }

  /** prepare: the accuracy filter, then smoothing. */
  method Prepare(f: Frame, w: Kernel) returns (g: Frame)
    requires GaussianLike(w) && TimeOrdered(f.rows)
    ensures g.columns == f.columns
    ensures |g.rows| == |FilterAccuracy(f).rows|
    ensures forall i :: 0 <= i < |g.rows| ==> g.rows[i] == SmoothedAt(FilterAccuracy(f).rows, w, i)
  {
    var kept := FilterAccuracy(f);
    FilterAccuracyKeepsOrder(f);
    var smoothed := GaussianSmoothing(kept.rows, w);
    g := Frame(f.columns, smoothed);
  }
}
