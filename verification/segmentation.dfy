/** segment (mobilipy/segmentation.py): consecutive waypoints become edges,
    every edge starts as a trip, density clusters of each day turn edges into
    activities, a correction pass flips runs that are too short or too slow,
    and edges spanning a long gap are dropped. */
module Segmentation {
  import opened Wrappers
  import opened Seqs
  import opened Sorting
  import opened Runs
  import opened CivilTime
  import opened Waypoints

  /** The detection column: "trip", "activity", and "walk" once modes are
      detected. */
  datatype Detection = Trip | Activity | Walk

  /** One row of _create_route: a waypoint joined with its successor. */
  datatype Route = Route(startAt: Instant, startLat: real, startLon: real,
                         endAt: Instant, endLat: real, endLon: real,
                         distance: real, timeDelta: real, speed: real, acceleration: real)

  /** A route row with its detection and, after mode detection, its mode. */
  datatype Edge = Edge(route: Route, detection: Detection, mode: Option<string>)

  /** Haversine distance in metres between (lat1, lon1) and (lat2, lon2). */
  type Distance = (real, real, real, real) -> real

  /** A value that dropna() treats as missing: a NaT timestamp, or a missing
      value in a column the frame has. */
  predicate Missing(f: Frame, r: Row)
  {
    || r.trackedAt.None?
    || ("accuracy" in f.columns && r.accuracy.None?)
    || ("speed" in f.columns && r.speed.None?)
  }

  /** A well-formed prepared frame, as ingestion and preparation leave it. */
  predicate Prepared(f: Frame)
  {
    ValidRows(f.rows) && TimeOrdered(f.rows)
  }

  /** Only the last row of a time-ordered frame can lack a timestamp. */
  lemma OnlyLastUntimed(f: Frame, i: nat)
    requires Prepared(f) && i + 1 < |f.rows|
    ensures f.rows[i].trackedAt.Some? && ValidInstant(f.rows[i].trackedAt.value)
  {
    assert InOrder(f.rows[i], f.rows[i + 1]);
  }

  /** Start positions i, from `from` on, whose successor survives dropna():
      shift(-1).dropna() keeps row i + 1 under label i exactly when it has no
      missing value, and the merge on that label pairs it with row i. */
  function RouteIndicesFrom(f: Frame, from: nat): (idx: seq<nat>)
    ensures forall i: nat :: i in idx <==> from <= i && i + 1 < |f.rows| && !Missing(f, f.rows[i + 1])
    ensures forall a :: 0 <= a < |idx| ==> from <= idx[a] && idx[a] + 1 < |f.rows|
    ensures forall a, b :: 0 <= a < b < |idx| ==> idx[a] < idx[b]
    decreases |f.rows| - from
  {
    if from + 1 >= |f.rows| then []
    else
      var rest := RouteIndicesFrom(f, from + 1);
      if Missing(f, f.rows[from + 1]) then rest else [from] + rest
  }

  function RouteIndices(f: Frame): (idx: seq<nat>)
    ensures forall i: nat :: i in idx <==> i + 1 < |f.rows| && !Missing(f, f.rows[i + 1])
    ensures forall a :: 0 <= a < |idx| ==> idx[a] + 1 < |f.rows|
    ensures forall a, b :: 0 <= a < b < |idx| ==> idx[a] < idx[b]
  {
    RouteIndicesFrom(f, 0)
  }

  lemma {:induction false} RouteIndicesAllFrom(f: Frame, from: nat)
    requires forall i :: 0 <= i < |f.rows| ==> !Missing(f, f.rows[i])
    requires from < |f.rows|
    ensures RouteIndicesFrom(f, from) == seq(|f.rows| - 1 - from, k requires 0 <= k < |f.rows| - 1 - from => from + k)
    decreases |f.rows| - from
  {
    if from + 1 < |f.rows| {
      RouteIndicesAllFrom(f, from + 1);
    }
  }

  /** The route row joining waypoint a to its successor b. */
  function RouteOf(a: Row, b: Row, dist: Distance): (r: Route)
    requires a.trackedAt.Some? && b.trackedAt.Some?
    requires ValidInstant(a.trackedAt.value) && ValidInstant(b.trackedAt.value)
    requires UtcMicros(a.trackedAt.value) < UtcMicros(b.trackedAt.value)
    ensures r.timeDelta > 0.0
    ensures r.speed * r.timeDelta == r.distance && r.acceleration * r.timeDelta == r.speed
  {
    var td := SecondsBetween(a.trackedAt.value, b.trackedAt.value);
    var d := dist(a.latitude, a.longitude, b.latitude, b.longitude);
    Route(a.trackedAt.value, a.latitude, a.longitude, b.trackedAt.value, b.latitude, b.longitude,
          d, td, d / td, d / td / td)
  }

  /** Route row r joins waypoints a and b. */
  predicate Joins(r: Route, a: Row, b: Row)
  {
    && a.trackedAt == Some(r.startAt) && b.trackedAt == Some(r.endAt)
    && r.startLat == a.latitude && r.startLon == a.longitude
    && r.endLat == b.latitude && r.endLon == b.longitude
  }

  /** The end is later than the start, time_delta is positive, speed is
      distance per second and acceleration is speed per second. */
  predicate WellTimed(r: Route)
  {
    && ValidInstant(r.startAt) && ValidInstant(r.endAt) && UtcMicros(r.startAt) < UtcMicros(r.endAt)
    && r.timeDelta > 0.0
    && r.speed * r.timeDelta == r.distance && r.acceleration * r.timeDelta == r.speed
  }

  function StartKey(e: Edge): real
  {
    if ValidInstant(e.route.startAt) then UtcMicros(e.route.startAt) as real else 0.0
  }

  /** _create_route: one row per surviving consecutive pair, in order. */
  function CreateRoute(f: Frame, dist: Distance): (r: seq<Route>)
    requires Prepared(f)
    ensures |r| == |RouteIndices(f)|
    ensures forall k :: 0 <= k < |r| ==>
      Joins(r[k], f.rows[RouteIndices(f)[k]], f.rows[RouteIndices(f)[k] + 1])
    ensures forall k :: 0 <= k < |r| ==> WellTimed(r[k])
  {
    var idx := RouteIndices(f);
    seq(|idx|, k requires 0 <= k < |idx| => assert idx[k] in idx; RouteAt(f, dist, idx[k]))
  }

  /** The route row starting at waypoint i. */
  function RouteAt(f: Frame, dist: Distance, i: nat): (r: Route)
    requires Prepared(f) && i + 1 < |f.rows| && !Missing(f, f.rows[i + 1])
    ensures Joins(r, f.rows[i], f.rows[i + 1])
    ensures WellTimed(r)
  {
    OnlyLastUntimed(f, i);
    assert InOrder(f.rows[i], f.rows[i + 1]);
    RouteOf(f.rows[i], f.rows[i + 1], dist)
  }

  /** With no missing values, n waypoints give n - 1 edges, edge i joining
      waypoint i to waypoint i + 1; an empty frame gives no edge. */
  lemma CreateRouteAllPairs(f: Frame, dist: Distance)
    requires Prepared(f)
    requires forall i :: 0 <= i < |f.rows| ==> !Missing(f, f.rows[i])
    ensures |CreateRoute(f, dist)| == if |f.rows| == 0 then 0 else |f.rows| - 1
    ensures forall i :: 0 <= i < |CreateRoute(f, dist)| ==> Joins(CreateRoute(f, dist)[i], f.rows[i], f.rows[i + 1])
  {
    if |f.rows| > 0 {
      RouteIndicesAllFrom(f, 0);
    }
  }

  /** _prepare_for_detection: every edge is a trip. */
  function PrepareForDetection(routes: seq<Route>): (r: seq<Edge>)
    ensures |r| == |routes|
    ensures forall k :: 0 <= k < |r| ==> r[k].route == routes[k] && r[k].detection == Trip && r[k].mode.None?
  {
    seq(|routes|, k requires 0 <= k < |routes| => Edge(routes[k], Trip, None))
  }

  /** Edges start strictly later than the edges before them. */
  lemma CreateRouteIncreasing(f: Frame, dist: Distance)
    requires Prepared(f)
    ensures StrictlySortedBy(PrepareForDetection(CreateRoute(f, dist)), StartKey)
  {
    var r := CreateRoute(f, dist);
    var idx := RouteIndices(f);
    var e := PrepareForDetection(r);
    forall a, b | 0 <= a < b < |e| ensures StartKey(e[a]) < StartKey(e[b]) {
      assert InOrder(f.rows[idx[a]], f.rows[idx[b]]);
    }
  }

  // ---- density relabelling (_activities_density) ----

  /** The (day, month, year) of an edge's start, in its own zone. */
  function DayOf(e: Edge): Date
  {
    e.route.startAt.date
  }

  /** The first position from j on whose edge starts on day d. */
  function ScanDay(edges: seq<Edge>, d: Date, j: nat): (r: Option<nat>)
    ensures r.Some? ==> j <= r.value < |edges| && DayOf(edges[r.value]) == d
    ensures r.Some? ==> forall i :: j <= i < r.value ==> DayOf(edges[i]) != d
    ensures r.None? ==> forall i :: j <= i < |edges| ==> DayOf(edges[i]) != d
    decreases |edges| - j
  {
    if j >= |edges| then None
    else if DayOf(edges[j]) == d then Some(j)
    else ScanDay(edges, d, j + 1)
  }

  /** The edge after k within k's day partition, if any. */
  function NextSameDay(edges: seq<Edge>, k: nat): (r: Option<nat>)
    requires k < |edges|
    ensures r.Some? ==> k < r.value < |edges| && DayOf(edges[r.value]) == DayOf(edges[k])
    ensures r.Some? ==> forall i :: k < i < r.value ==> DayOf(edges[i]) != DayOf(edges[k])
    ensures r.None? ==> forall i :: k < i < |edges| ==> DayOf(edges[i]) != DayOf(edges[k])
  {
    ScanDay(edges, DayOf(edges[k]), k + 1)
  }

  /** cluster_end: the cluster of the next edge of the same day, 0 after the
      last one (shift(-1).fillna(0)). */
  function ClusterEnd(edges: seq<Edge>, clusters: seq<int>, k: nat): int
    requires |clusters| == |edges| && k < |edges|
  {
    match NextSameDay(edges, k)
    case Some(j) => clusters[j]
    case None => 0
  }

  /** The relabelling condition of _activities_density for edge k. */
  predicate Dense(edges: seq<Edge>, clusters: seq<int>, k: nat)
    requires |clusters| == |edges| && k < |edges|
  {
    edges[k].detection == Trip && clusters[k] == ClusterEnd(edges, clusters, k) && clusters[k] != -1
  }

  /** The detection column after every day partition has been relabelled:
      a trip edge becomes an activity exactly when its cluster equals the
      next same-day edge's cluster and is not noise (-1); nothing else
      changes. */
  function Density(edges: seq<Edge>, clusters: seq<int>): (r: seq<Edge>)
    requires |clusters| == |edges|
    ensures |r| == |edges|
    ensures forall k :: 0 <= k < |r| ==> r[k].route == edges[k].route && r[k].mode == edges[k].mode
    ensures forall k :: 0 <= k < |r| ==>
      (r[k].detection == Activity <==> edges[k].detection == Activity || Dense(edges, clusters, k))
    ensures forall k :: 0 <= k < |r| ==>
      r[k].detection != edges[k].detection ==> edges[k].detection == Trip && r[k].detection == Activity
  {
    seq(|edges|, k requires 0 <= k < |edges| =>
      if Dense(edges, clusters, k) then edges[k].(detection := Activity) else edges[k])
  }

  /** _activities_density on one partition, given its own cluster ids. */
  function ActivitiesDensity(part: seq<Edge>, clusters: seq<int>): (r: seq<Edge>)
    requires |clusters| == |part|
    ensures |r| == |part|
  {
    seq(|part|, k requires 0 <= k < |part| =>
      var clusterEnd := if k + 1 < |part| then clusters[k + 1] else 0;
      if part[k].detection == Trip && clusters[k] == clusterEnd && clusters[k] != -1
      then part[k].(detection := Activity) else part[k])
  }

  /** Positions from `from` on of the edges starting on day d: the group of
      d in groupby(['day', 'month', 'year']). */
  function DayIndicesFrom(edges: seq<Edge>, d: Date, from: nat): (idx: seq<nat>)
    ensures forall i: nat :: i in idx <==> from <= i < |edges| && DayOf(edges[i]) == d
    ensures forall a :: 0 <= a < |idx| ==> from <= idx[a] < |edges|
    ensures forall a, b :: 0 <= a < b < |idx| ==> idx[a] < idx[b]
    decreases |edges| - from
  {
    if from >= |edges| then []
    else
      var rest := DayIndicesFrom(edges, d, from + 1);
      if DayOf(edges[from]) == d then [from] + rest else rest
  }

  /** No member of an ascending sequence lies strictly between two
      neighbours (or after the last one). */
  lemma AscendingGap(g: seq<nat>, p: nat, i: nat)
    requires forall a, b :: 0 <= a < b < |g| ==> g[a] < g[b]
    requires p < |g| && g[p] < i && (p + 1 < |g| ==> i < g[p + 1])
    ensures i !in g
  {
    forall q | 0 <= q < |g| ensures g[q] != i {
      if q < p {
        assert g[q] < g[p];
      } else if q > p + 1 {
        assert g[p + 1] < g[q];
      }
    }
  }

  /** Within a day's group, the next member is the next same-day edge. */
  lemma NextInGroup(edges: seq<Edge>, d: Date, p: nat)
    requires p < |DayIndicesFrom(edges, d, 0)|
    ensures NextSameDay(edges, DayIndicesFrom(edges, d, 0)[p]) ==
      if p + 1 < |DayIndicesFrom(edges, d, 0)| then Some(DayIndicesFrom(edges, d, 0)[p + 1]) else None
  {
    var g := DayIndicesFrom(edges, d, 0);
    var k := g[p];
    assert k in g;
    forall i | k < i < |edges| && (p + 1 < |g| ==> i < g[p + 1])
      ensures DayOf(edges[i]) != d
    {
      AscendingGap(g, p, i);
    }
    if p + 1 < |g| {
      assert g[p + 1] in g;
    }
  }

  lemma PartitionDensityAt(edges: seq<Edge>, clusters: seq<int>, d: Date, p: nat)
    requires |clusters| == |edges| && p < |DayIndicesFrom(edges, d, 0)|
    ensures ActivitiesDensity(Pick(edges, DayIndicesFrom(edges, d, 0)), Pick(clusters, DayIndicesFrom(edges, d, 0)))[p]
         == Density(edges, clusters)[DayIndicesFrom(edges, d, 0)[p]]
  {
    var g := DayIndicesFrom(edges, d, 0);
    NextInGroup(edges, d, p);
    var k := g[p];
    var part, pc := Pick(edges, g), Pick(clusters, g);
    var clusterEnd := if p + 1 < |pc| then pc[p + 1] else 0;
    assert part[p] == edges[k] && pc[p] == clusters[k];
    assert ClusterEnd(edges, clusters, k) == clusterEnd;
    assert Dense(edges, clusters, k) == (part[p].detection == Trip && pc[p] == clusterEnd && pc[p] != -1);
  }

  /** Relabelling one group as a partition gives the group's share of the
      global relabelling. */
  lemma PartitionDensity(edges: seq<Edge>, clusters: seq<int>, d: Date)
    requires |clusters| == |edges|
    ensures ActivitiesDensity(Pick(edges, DayIndicesFrom(edges, d, 0)), Pick(clusters, DayIndicesFrom(edges, d, 0)))
         == Pick(Density(edges, clusters), DayIndicesFrom(edges, d, 0))
  {
    var g := DayIndicesFrom(edges, d, 0);
    var lhs := ActivitiesDensity(Pick(edges, g), Pick(clusters, g));
    var rhs := Pick(Density(edges, clusters), g);
    forall p | 0 <= p < |g| ensures lhs[p] == rhs[p] {
      PartitionDensityAt(edges, clusters, d, p);
    }
  }

  // ---- correction pass (_correct_clusters) ----

  /** Runs lasting under two minutes are flipped. */
  const MinRunSeconds: real := 120.0

  /** Trip runs slower than 1 m/s on average become activities. */
  const MinMeanSpeed: real := 1.0

  function Labels(edges: seq<Edge>): (r: seq<Detection>)
    ensures |r| == |edges| && forall k :: 0 <= k < |edges| ==> r[k] == edges[k].detection
  {
    seq(|edges|, k requires 0 <= k < |edges| => edges[k].detection)
  }

  function TimeDeltas(edges: seq<Edge>): (r: seq<real>)
    ensures |r| == |edges| && forall k :: 0 <= k < |edges| ==> r[k] == edges[k].route.timeDelta
  {
    seq(|edges|, k requires 0 <= k < |edges| => edges[k].route.timeDelta)
  }

  function Speeds(edges: seq<Edge>): (r: seq<real>)
    ensures |r| == |edges| && forall k :: 0 <= k < |edges| ==> r[k] == edges[k].route.speed
  {
    seq(|edges|, k requires 0 <= k < |edges| => edges[k].route.speed)
  }

  /** An activity run whose time deltas sum to under two minutes. */
  predicate ShortActivity(td: seq<real>, lo: nat, hi: nat)
  {
    lo <= hi <= |td| && Sum(td[lo..hi]) < MinRunSeconds
  }

  /** A trip run that lasts under two minutes or whose mean speed is under
      1 m/s. */
  predicate ShortOrSlowTrip(td: seq<real>, speed: seq<real>, lo: nat, hi: nat)
  {
    && lo < hi <= |td| && |speed| == |td|
    && (Sum(td[lo..hi]) < MinRunSeconds || Sum(speed[lo..hi]) / (hi - lo) as real < MinMeanSpeed)
  }

  /** The label of position k after the pass. The run containing k is taken
      from the labels before the pass, so a flipped run is never merged with
      its neighbours and looked at again. */
  function CorrectedLabel(labels: seq<Detection>, td: seq<real>, speed: seq<real>, k: nat): Detection
    requires |td| == |labels| && |speed| == |labels| && k < |labels|
  {
    var b := BlockAt(labels, k);
    match labels[k]
    case Activity => if ShortActivity(td, b.0, b.1) then Trip else Activity
    case Trip => if ShortOrSlowTrip(td, speed, b.0, b.1) then Activity else Trip
    case Walk => Walk
  }

  /** The pass swaps trip and activity only and leaves walks alone. */
  lemma CorrectedLabelSwapsOnly(labels: seq<Detection>, td: seq<real>, speed: seq<real>, k: nat)
    requires |td| == |labels| && |speed| == |labels| && k < |labels|
    ensures labels[k] == Walk <==> CorrectedLabel(labels, td, speed, k) == Walk
  {
  }

  /** The pass treats every run as a whole: all positions of one run end
      with the same label. */
  lemma CorrectedLabelUniform(labels: seq<Detection>, td: seq<real>, speed: seq<real>, k: nat, k': nat)
    requires |td| == |labels| && |speed| == |labels| && k < |labels|
    requires BlockAt(labels, k).0 <= k' < BlockAt(labels, k).1
    ensures CorrectedLabel(labels, td, speed, k') == CorrectedLabel(labels, td, speed, k)
  {
    SameBlock(labels, k, k');
  }

  /** The two loops of _correct_clusters. */
  datatype Pass = ActivityPass | TripPass

  /** The label a pass looks for and the label it writes. */
  function From(pass: Pass): Detection
  {
    if pass == ActivityPass then Activity else Trip
  }

  function To(pass: Pass): Detection
  {
    if pass == ActivityPass then Trip else Activity
  }

  /** Whether the pass flips the run [lo, hi). */
  predicate RunFlips(pass: Pass, td: seq<real>, speed: seq<real>, lo: nat, hi: nat)
  {
    match pass
    case ActivityPass => ShortActivity(td, lo, hi)
    case TripPass => ShortOrSlowTrip(td, speed, lo, hi)
  }

  /** Position k holds the pass's label and its run is flipped. */
  predicate Flips(labels: seq<Detection>, td: seq<real>, speed: seq<real>, pass: Pass, k: nat)
    requires k < |labels|
  {
    labels[k] == From(pass) && RunFlips(pass, td, speed, BlockAt(labels, k).0, BlockAt(labels, k).1)
  }

  /** Run j of the pass's label lies after the previous one; between them
      nothing flips, and inside it every position flips exactly when the run
      does. */
  lemma RunStep(labels: seq<Detection>, td: seq<real>, speed: seq<real>, pass: Pass, j: nat)
    requires j < |RunsOf(labels, From(pass))|
    ensures GapStart(RunsOf(labels, From(pass)), j, 0) <= RunsOf(labels, From(pass))[j].0
    ensures RunsOf(labels, From(pass))[j].0 < RunsOf(labels, From(pass))[j].1 <= |labels|
    ensures RunsOf(labels, From(pass))[j].1 == GapStart(RunsOf(labels, From(pass)), j + 1, 0)
    ensures forall k :: GapStart(RunsOf(labels, From(pass)), j, 0) <= k < RunsOf(labels, From(pass))[j].0 ==>
      !Flips(labels, td, speed, pass, k)
    ensures forall k :: RunsOf(labels, From(pass))[j].0 <= k < RunsOf(labels, From(pass))[j].1 ==>
      (Flips(labels, td, speed, pass, k) <==>
       RunFlips(pass, td, speed, RunsOf(labels, From(pass))[j].0, RunsOf(labels, From(pass))[j].1))
  {
    var x := From(pass);
    var runs := RunsOf(labels, x);
    RunsOfPartition(labels, x);
    assert RunOk(labels, x, runs[j].0, runs[j].1, GapStart(runs, j, 0));
    forall k | runs[j].0 <= k < runs[j].1 ensures BlockAt(labels, k) == runs[j] {
      BlockOfRun(labels, x, runs, j, k);
    }
  }

  /** After the last run nothing flips. */
  lemma RunTail(labels: seq<Detection>, td: seq<real>, speed: seq<real>, pass: Pass)
    ensures GapStart(RunsOf(labels, From(pass)), |RunsOf(labels, From(pass))|, 0) <= |labels|
    ensures forall k :: GapStart(RunsOf(labels, From(pass)), |RunsOf(labels, From(pass))|, 0) <= k < |labels| ==>
      !Flips(labels, td, speed, pass, k)
  {
    RunsOfPartition(labels, From(pass));
  }

  /** One loop of _correct_clusters: for every maximal run of the pass's
      label (a consecutive group of its index list) that the pass flips, set
      the run's positions to the other label. */
  method FlipRuns(a: array<Detection>, labels: seq<Detection>, td: seq<real>, speed: seq<real>, pass: Pass)
    requires a.Length == |labels|
    modifies a
    ensures forall k :: 0 <= k < a.Length ==>
      a[k] == if Flips(labels, td, speed, pass, k) then To(pass) else old(a[k])
  {
    var runs := RunsOf(labels, From(pass));
    for j := 0 to |runs|
      invariant forall k :: 0 <= k < a.Length ==>
        a[k] == if k < GapStart(runs, j, 0) && Flips(labels, td, speed, pass, k) then To(pass) else old(a[k])
    {
      RunStep(labels, td, speed, pass, j);
      var lo, hi := runs[j].0, runs[j].1;
      if RunFlips(pass, td, speed, lo, hi) {
        for k := lo to hi
          invariant forall i :: 0 <= i < a.Length ==>
            a[i] == if (i < GapStart(runs, j, 0) && Flips(labels, td, speed, pass, i)) || lo <= i < k
                    then To(pass) else old(a[i])
        {
          a[k] := To(pass);
        }
      }
    }
    RunTail(labels, td, speed, pass);
  }

  /** The corrected label is what the two passes leave: the trip pass wins
      on trip positions, the activity pass on activity positions. */
  lemma CorrectedByPasses(labels: seq<Detection>, td: seq<real>, speed: seq<real>, k: nat)
    requires |td| == |labels| && |speed| == |labels| && k < |labels|
    ensures CorrectedLabel(labels, td, speed, k) ==
      if Flips(labels, td, speed, TripPass, k) then Activity
      else if Flips(labels, td, speed, ActivityPass, k) then Trip
      else labels[k]
  {
  }

  /** _correct_clusters: both loops over runs of the labels before the pass,
      writing into one detection array. */
  method CorrectClusters(edges: seq<Edge>) returns (r: seq<Edge>)
    ensures r == CorrectedEdges(edges)
  {
    var labels, td, speed := Labels(edges), TimeDeltas(edges), Speeds(edges);
    var detection := new Detection[|edges|](k requires 0 <= k < |edges| => edges[k].detection);
    FlipRuns(detection, labels, td, speed, ActivityPass);
    FlipRuns(detection, labels, td, speed, TripPass);
    r := seq(|edges|, k requires 0 <= k < |edges| reads detection => edges[k].(detection := detection[k]));
    forall k | 0 <= k < |edges| ensures r[k] == CorrectedEdges(edges)[k] {
      CorrectedByPasses(labels, td, speed, k);
    }
  }

  /** The corrected table: every edge with the label of CorrectedLabel. */
  function CorrectedEdges(edges: seq<Edge>): (r: seq<Edge>)
    ensures |r| == |edges|
    ensures forall k :: 0 <= k < |r| ==> r[k].route == edges[k].route && r[k].mode == edges[k].mode
  {
    seq(|edges|, k requires 0 <= k < |edges| =>
      edges[k].(detection := CorrectedLabel(Labels(edges), TimeDeltas(edges), Speeds(edges), k)))
  }

  // ---- gap filter and the whole of segment ----

  /** Edges whose time_delta is at most the gap (those above it are
      dropped), in their order. */
  function GapFilter(edges: seq<Edge>, timeGap: real): (r: seq<Edge>)
    ensures forall e :: e in r <==> e in edges && e.route.timeDelta <= timeGap
    ensures |r| <= |edges|
  {
    Filter(edges, (e: Edge) => e.route.timeDelta <= timeGap)
  }

  /** Dropping edges keeps the rest in start order. */
  lemma GapFilterKeepsOrder(edges: seq<Edge>, timeGap: real)
    requires StrictlySortedBy(edges, StartKey)
    ensures StrictlySortedBy(GapFilter(edges, timeGap), StartKey)
  {
    FilterPairwise(edges, (e: Edge) => e.route.timeDelta <= timeGap, (a: Edge, b: Edge) => StartKey(a) < StartKey(b));
  }

  /** What segment returns. */
  function Segmented(f: Frame, dist: Distance, clusters: seq<int>, timeGap: real): seq<Edge>
    requires Prepared(f) && |clusters| == |RouteIndices(f)|
  {
    GapFilter(CorrectedEdges(Density(PrepareForDetection(CreateRoute(f, dist)), clusters)), timeGap)
  }

  /** The distinct start days, in order of first appearance. */
  function DaysOf(edges: seq<Edge>): (ds: seq<Date>)
    ensures forall k :: 0 <= k < |edges| ==> DayOf(edges[k]) in ds
    ensures forall a, b :: 0 <= a < b < |ds| ==> ds[a] != ds[b]
    decreases |edges|
  {
    if edges == [] then []
    else
      var init := DaysOf(edges[..|edges| - 1]);
      assert forall k :: 0 <= k < |edges| - 1 ==> edges[..|edges| - 1][k] == edges[k];
      var d := DayOf(edges[|edges| - 1]);
      if d in init then init else init + [d]
  }

  /** Adding one more day's group to the positions covered so far. */
  lemma CoverStep(edges: seq<Edge>, days: seq<Date>, g: nat, covered: seq<nat>)
    requires g < |days| && forall a, b :: 0 <= a < b < |days| ==> days[a] != days[b]
    requires forall j: nat :: multiset(covered)[j] == if j < |edges| && DayOf(edges[j]) in days[..g] then 1 else 0
    ensures forall j: nat ::
      multiset(covered + DayIndicesFrom(edges, days[g], 0))[j] == if j < |edges| && DayOf(edges[j]) in days[..g + 1] then 1 else 0
  {
    forall j: nat ensures multiset(covered + DayIndicesFrom(edges, days[g], 0))[j] == if j < |edges| && DayOf(edges[j]) in days[..g + 1] then 1 else 0 {
      CoverStepAt(edges, days, g, multiset(covered)[j], j);
    }
  }

  lemma CoverStepAt(edges: seq<Edge>, days: seq<Date>, g: nat, before: nat, j: nat)
    requires g < |days| && forall a, b :: 0 <= a < b < |days| ==> days[a] != days[b]
    requires before == if j < |edges| && DayOf(edges[j]) in days[..g] then 1 else 0
    ensures before + multiset(DayIndicesFrom(edges, days[g], 0))[j] == if j < |edges| && DayOf(edges[j]) in days[..g + 1] then 1 else 0
  {
    var group := DayIndicesFrom(edges, days[g], 0);
    assert days[..g + 1] == days[..g] + [days[g]];
    assert days[g] !in days[..g];
    AscendingCount(group, j);
  }

  /** Once every day is covered, the covered positions are a permutation of
      all positions. */
  lemma CoverAll(edges: seq<Edge>, days: seq<Date>, covered: seq<nat>)
    requires forall k :: 0 <= k < |edges| ==> DayOf(edges[k]) in days
    requires forall j: nat :: multiset(covered)[j] == if j < |edges| && DayOf(edges[j]) in days[..|days|] then 1 else 0
    ensures multiset(covered) == multiset(Range(|edges|))
  {
    assert days[..|days|] == days;
    forall j: nat ensures multiset(covered)[j] == multiset(Range(|edges|))[j] {
      AscendingCount(Range(|edges|), j);
      if j < |edges| { assert Range(|edges|)[j] == j; }
    }
  }

  /** Sorting the appended partitions by start gives back the relabelled
      table in its original order. */
  lemma SortRestoresOrder(f: Frame, dist: Distance, clusters: seq<int>, covered: seq<nat>)
    requires Prepared(f) && |clusters| == |RouteIndices(f)|
    requires forall k :: 0 <= k < |covered| ==> covered[k] < |RouteIndices(f)|
    requires multiset(covered) == multiset(Range(|RouteIndices(f)|))
    ensures SortBy(Pick(Density(PrepareForDetection(CreateRoute(f, dist)), clusters), covered), StartKey)
         == Density(PrepareForDetection(CreateRoute(f, dist)), clusters)
  {
    var edges := PrepareForDetection(CreateRoute(f, dist));
    var relabelled := Density(edges, clusters);
    PickPermutation(relabelled, covered, Range(|edges|));
    assert Pick(relabelled, Range(|edges|)) == relabelled;
    CreateRouteIncreasing(f, dist);
    assert StrictlySortedBy(relabelled, StartKey);
    SortedPermutationUnique(SortBy(Pick(relabelled, covered), StartKey), relabelled, StartKey);
  }

  /** segment, with the sequential branch: relabel each day partition and
      append it, sort by start, correct, and drop edges over the gap. */
  method Segment(f: Frame, dist: Distance, clusters: seq<int>, timeGap: real) returns (r: seq<Edge>)
    requires Prepared(f) && |clusters| == |RouteIndices(f)|
    ensures r == Segmented(f, dist, clusters, timeGap)
  {
    var edges := PrepareForDetection(CreateRoute(f, dist));
    var days := DaysOf(edges);
    ghost var relabelled := Density(edges, clusters);
    var detected: seq<Edge> := [];
    ghost var covered: seq<nat> := [];
    for g := 0 to |days|
      invariant forall k :: 0 <= k < |covered| ==> covered[k] < |edges|
      invariant detected == Pick(relabelled, covered)
      invariant forall j: nat :: multiset(covered)[j] == if j < |edges| && DayOf(edges[j]) in days[..g] then 1 else 0
    {
      var group := DayIndicesFrom(edges, days[g], 0);
      var res := ActivitiesDensity(Pick(edges, group), Pick(clusters, group));
      PartitionDensity(edges, clusters, days[g]);
      PickAppend(relabelled, covered, group);
      CoverStep(edges, days, g, covered);
      detected := detected + res;
      covered := covered + group;
    }
    CoverAll(edges, days, covered);
    var sorted := SortBy(detected, StartKey);
    SortRestoresOrder(f, dist, clusters, covered);
    var corrected := CorrectClusters(sorted);
    r := GapFilter(corrected, timeGap);
  }

  /** segment's table is in strictly increasing start order, every edge
      spans at most the gap, and every label is trip or activity with no
      mode yet. */
  lemma SegmentedShape(f: Frame, dist: Distance, clusters: seq<int>, timeGap: real)
    requires Prepared(f) && |clusters| == |RouteIndices(f)|
    ensures StrictlySortedBy(Segmented(f, dist, clusters, timeGap), StartKey)
    ensures forall e :: e in Segmented(f, dist, clusters, timeGap) ==>
      e.route.timeDelta <= timeGap && e.detection != Walk && e.mode.None? && WellTimed(e.route)
  {
    var routes := CreateRoute(f, dist);
    var edges := PrepareForDetection(routes);
    var relabelled := Density(edges, clusters);
    var corrected := CorrectedEdges(relabelled);
    CreateRouteIncreasing(f, dist);
    assert StrictlySortedBy(corrected, StartKey) by {
      forall a, b | 0 <= a < b < |corrected| ensures StartKey(corrected[a]) < StartKey(corrected[b]) {
        assert corrected[a].route == edges[a].route && corrected[b].route == edges[b].route;
      }
    }
    GapFilterKeepsOrder(corrected, timeGap);
    forall k | 0 <= k < |corrected|
      ensures corrected[k].detection != Walk && corrected[k].mode.None? && WellTimed(corrected[k].route)
    {
      CorrectedLabelSwapsOnly(Labels(relabelled), TimeDeltas(relabelled), Speeds(relabelled), k);
      assert relabelled[k].route == routes[k];
    }
  }
}
