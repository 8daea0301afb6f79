/** get_user_legs (mobilipy/legs.py): every maximal run of activity edges
    becomes a Stay leg, and each maximal run of trip edges and each maximal
    run of walk edges a Track leg; a leg whose ends fall on different days
    of the month is split at the following midnight; the legs are finally
    sorted by start time. */
module Legs {
  import opened Wrappers
  import opened Seqs
  import opened CivilTime
  import opened Sorting
  import opened Runs
  import opened Segmentation

  datatype LegKind = Stay | Track

  /** (latitude, longitude) */
  type Point = (real, real)

  /** A Stay is stored as its centroid and the diameter (in metres) of its
      bounding box; a Track as its start points. */
  datatype Geometry = Area(centroid: Point, diameter: real) | Path(points: seq<Point>)

  /** Centroid and bounding-box diameter of a set of points (shapely's
      MultiPoint with a haversine distance). */
  type Footprint = seq<Point> -> (Point, real)

  datatype Leg = Leg(userId: string, startedAt: DateTime, finishedAt: DateTime, kind: LegKind,
                     mode: Option<string>, purpose: Option<string>, geometry: Geometry)

  /** Both timestamps of every edge are proper instants. */
  predicate Timed(edges: seq<Edge>)
  {
    forall k :: 0 <= k < |edges| ==> ValidInstant(edges[k].route.startAt) && ValidInstant(edges[k].route.endAt)
  }

  /** strptime(str(t), "%Y-%m-%d %H:%M:%S+00:00"): str() prints fractional
      seconds when there are any and prints the timestamp's own offset, so
      the format matches only whole-second UTC timestamps. */
  function ToNaive(t: Instant): (r: Result<DateTime>)
    requires ValidInstant(t)
    ensures r.Success? <==> t.micro == 0 && t.offset == 0
    ensures r.Failure? ==> r.error == ValueError
  {
    if t.micro == 0 && t.offset == 0 then Success(DateTime(t.date, t.second)) else Failure(ValueError)
  }

  /** A converted timestamp is a proper naive datetime naming the same
      instant on the UTC line. */
  lemma ToNaiveSameInstant(t: Instant)
    requires ValidInstant(t) && ToNaive(t).Success?
    ensures ValidDateTime(ToNaive(t).value) && WallSeconds(ToNaive(t).value) * 1000000 == UtcMicros(t)
  {
  }

  /** 00:00:00 of day d. */
  function Midnight(d: Date): DateTime
  {
    DateTime(d, 0)
  }

  /** The pieces of a leg: two legs meeting at midnight after the start when
      the days of the month differ, otherwise the leg itself. */
  function SplitAtMidnight(leg: Leg): (r: seq<Leg>)
    requires ValidDate(leg.startedAt.date)
    ensures |r| == (if leg.startedAt.date.day != leg.finishedAt.date.day then 2 else 1)
    ensures r[0].startedAt == leg.startedAt && r[|r| - 1].finishedAt == leg.finishedAt
    ensures |r| == 2 ==> r[0].finishedAt == Midnight(NextDay(leg.startedAt.date)) == r[1].startedAt
    ensures forall k :: 0 <= k < |r| ==> r[k].(startedAt := leg.startedAt, finishedAt := leg.finishedAt) == leg
  {
    if leg.startedAt.date.day != leg.finishedAt.date.day then
      var midnight := Midnight(NextDay(leg.startedAt.date));
      [leg.(finishedAt := midnight), leg.(startedAt := midnight)]
    else
      [leg]
  }

  predicate Ordered(leg: Leg)
  {
    ValidDateTime(leg.startedAt) && ValidDateTime(leg.finishedAt)
    && WallSeconds(leg.startedAt) <= WallSeconds(leg.finishedAt)
  }

  /** A split falls strictly after the start and no later than the finish,
      so both pieces of an ordered leg are ordered and cover it exactly. */
  lemma SplitOrdered(leg: Leg)
    requires Ordered(leg)
    ensures forall k :: 0 <= k < |SplitAtMidnight(leg)| ==> Ordered(SplitAtMidnight(leg)[k])
    ensures |SplitAtMidnight(leg)| == 2 ==>
      WallSeconds(leg.startedAt) < WallSeconds(SplitAtMidnight(leg)[0].finishedAt)
  {
    var s, f := leg.startedAt, leg.finishedAt;
    if s.date.day != f.date.day {
      if DayNumber(s.date) == DayNumber(f.date) {
        DayNumberInjective(s.date, f.date);
      }
      NextDayNumber(s.date);
    }
  }

  /** Only the day of the month is compared: a leg that ends on the same day
      of a later month is kept whole although it spans a midnight. */
  lemma SplitMissesMonthChange(leg: Leg)
    requires Ordered(leg) && leg.startedAt.date != leg.finishedAt.date
    requires leg.startedAt.date.day == leg.finishedAt.date.day
    ensures SplitAtMidnight(leg) == [leg]
    ensures DayNumber(leg.startedAt.date) < DayNumber(leg.finishedAt.date)
  {
    if DayNumber(leg.startedAt.date) == DayNumber(leg.finishedAt.date) {
      DayNumberInjective(leg.startedAt.date, leg.finishedAt.date);
    }
  }

  /** At most one split is made: a leg spanning two midnights keeps the
      second one inside its second piece. */
  lemma SplitOnce(leg: Leg)
    requires Ordered(leg) && leg.startedAt.date.day != leg.finishedAt.date.day
    requires DayNumber(leg.finishedAt.date) > DayNumber(leg.startedAt.date) + 1
    ensures |SplitAtMidnight(leg)| == 2
    ensures DayNumber(SplitAtMidnight(leg)[1].startedAt.date) < DayNumber(SplitAtMidnight(leg)[1].finishedAt.date)
  {
    NextDayNumber(leg.startedAt.date);
  }

  /** The start points of edges lo .. hi-1, in order. */
  function StartPoints(edges: seq<Edge>, lo: nat, hi: nat): (r: seq<Point>)
    requires lo <= hi <= |edges|
    ensures |r| == hi - lo
    ensures forall k :: lo <= k < hi ==> r[k - lo] == (edges[k].route.startLat, edges[k].route.startLon)
  {
    seq(hi - lo, i requires 0 <= i < hi - lo => (edges[lo + i].route.startLat, edges[lo + i].route.startLon))
  }

  function GeometryOf(edges: seq<Edge>, lo: nat, hi: nat, kind: LegKind, fp: Footprint): Geometry
    requires lo <= hi <= |edges|
  {
    match kind
    case Stay =>
      var (centroid, diameter) := fp(StartPoints(edges, lo, hi));
      Area(centroid, diameter)
    case Track => Path(StartPoints(edges, lo, hi))
  }

  /** A timestamp that str() prints as "%Y-%m-%d %H:%M:%S+00:00". */
  predicate Whole(t: Instant)
  {
    t.micro == 0 && t.offset == 0
  }

  /** The run's boundary timestamps can be converted. */
  predicate Convertible(edges: seq<Edge>, run: (nat, nat))
  {
    run.0 < run.1 <= |edges| && Whole(edges[run.0].route.startAt) && Whole(edges[run.1 - 1].route.endAt)
  }

  /** The run's leg would span a day-of-month change. */
  predicate Splits(edges: seq<Edge>, run: (nat, nat))
    requires run.0 < run.1 <= |edges|
  {
    edges[run.0].route.startAt.date.day != edges[run.1 - 1].route.endAt.date.day
  }

  /** leg carries the user, the kind, the first edge's mode, no purpose and
      the geometry of run [lo, hi), and both its times are proper. */
  predicate FromRun(leg: Leg, edges: seq<Edge>, lo: nat, hi: nat, userId: string, kind: LegKind, fp: Footprint)
    requires lo < hi <= |edges|
  {
    && leg.userId == userId && leg.kind == kind && leg.mode == edges[lo].mode && leg.purpose.None?
    && leg.geometry == GeometryOf(edges, lo, hi, kind, fp)
    && ValidDateTime(leg.startedAt) && ValidDateTime(leg.finishedAt)
  }

  /** The pieces start at instant a and finish at instant b, on the UTC line. */
  predicate Spans(pieces: seq<Leg>, a: Instant, b: Instant)
    requires ValidInstant(a) && ValidInstant(b)
  {
    && |pieces| > 0 && ValidDateTime(pieces[0].startedAt) && ValidDateTime(pieces[|pieces| - 1].finishedAt)
    && WallSeconds(pieces[0].startedAt) * 1000000 == UtcMicros(a)
    && WallSeconds(pieces[|pieces| - 1].finishedAt) * 1000000 == UtcMicros(b)
  }

  /** _append_one_category: the leg of run (lo, hi), split at midnight. */
  function AppendOneCategory(edges: seq<Edge>, run: (nat, nat), userId: string, kind: LegKind, fp: Footprint): (r: Result<seq<Leg>>)
    requires run.0 < run.1 <= |edges| && Timed(edges)
    ensures r.Success? <==> Convertible(edges, run)
    ensures r.Failure? ==> r.error == ValueError
    ensures r.Success? ==> |r.value| == if Splits(edges, run) then 2 else 1
  {
    var (lo, hi) := run;
    var started := ToNaive(edges[lo].route.startAt);
    var finished := ToNaive(edges[hi - 1].route.endAt);
    if started.Failure? then Failure(started.error)
    else if finished.Failure? then Failure(finished.error)
    else
      var leg := Leg(userId, started.value, finished.value, kind, edges[lo].mode, None,
                     GeometryOf(edges, lo, hi, kind, fp));
      Success(SplitAtMidnight(leg))
  }

  /** The legs of a converted run carry the user, the kind, the first
      edge's mode, no purpose and the run's geometry, and together they
      start at the run's first start and finish at its last end. */
  lemma AppendOneCategoryLegs(edges: seq<Edge>, run: (nat, nat), userId: string, kind: LegKind, fp: Footprint)
    requires run.0 < run.1 <= |edges| && Timed(edges)
    requires AppendOneCategory(edges, run, userId, kind, fp).Success?
    ensures forall k :: 0 <= k < |AppendOneCategory(edges, run, userId, kind, fp).value| ==>
      FromRun(AppendOneCategory(edges, run, userId, kind, fp).value[k], edges, run.0, run.1, userId, kind, fp)
    ensures Spans(AppendOneCategory(edges, run, userId, kind, fp).value, edges[run.0].route.startAt, edges[run.1 - 1].route.endAt)
  {
    ToNaiveSameInstant(edges[run.0].route.startAt);
    ToNaiveSameInstant(edges[run.1 - 1].route.endAt);
  }

  /** Every run's boundary timestamps can be converted. */
  predicate AllConvertible(edges: seq<Edge>, runs: seq<(nat, nat)>)
  {
    forall j :: 0 <= j < |runs| ==> Convertible(edges, runs[j])
  }

  predicate RunsWithin(runs: seq<(nat, nat)>, n: nat)
  {
    forall j :: 0 <= j < |runs| ==> runs[j].0 < runs[j].1 <= n
  }

  /** How many of the first n runs yield a split leg. */
  function SplitCount(edges: seq<Edge>, runs: seq<(nat, nat)>, n: nat): nat
    requires n <= |runs| && RunsWithin(runs, |edges|)
  {
    if n == 0 then 0
    else SplitCount(edges, runs, n - 1) + (if Splits(edges, runs[n - 1]) then 1 else 0)
  }

  /** The results of _append_one_category for each run, in run order. */
  function RunResults(edges: seq<Edge>, runs: seq<(nat, nat)>, userId: string, kind: LegKind, fp: Footprint): (rs: seq<Result<seq<Leg>>>)
    requires RunsWithin(runs, |edges|) && Timed(edges)
    ensures |rs| == |runs|
  {
    seq(|runs|, j requires 0 <= j < |runs| => AppendOneCategory(edges, runs[j], userId, kind, fp))
  }

  /** The results of the first n runs joined in order; the first failure
      is what is raised. */
  function Joined(rs: seq<Result<seq<Leg>>>, n: nat): Result<seq<Leg>>
    requires n <= |rs|
  {
    if n == 0 then Success([])
    else
      var front := Joined(rs, n - 1);
      if front.Failure? then front
      else if rs[n - 1].Failure? then rs[n - 1]
      else Success(front.value + rs[n - 1].value)
  }

  /** The legs of the first n runs, in order; the first run whose boundary
      cannot be converted raises. */
  function LegsOfRuns(edges: seq<Edge>, runs: seq<(nat, nat)>, n: nat, userId: string, kind: LegKind, fp: Footprint): Result<seq<Leg>>
    requires n <= |runs| && RunsWithin(runs, |edges|) && Timed(edges)
  {
    Joined(RunResults(edges, runs, userId, kind, fp), n)
  }

  /** The join succeeds exactly when every joined result does, and
      otherwise raises one of their errors. */
  lemma {:induction false} JoinedSucceeds(rs: seq<Result<seq<Leg>>>, n: nat)
    requires n <= |rs|
    ensures Joined(rs, n).Success? <==> forall j :: 0 <= j < n ==> rs[j].Success?
    ensures Joined(rs, n).Failure? ==> exists j :: 0 <= j < n && rs[j] == Joined(rs, n)
  {
    if n > 0 {
      JoinedSucceeds(rs, n - 1);
    }
  }

  /** The first failure is what the whole join raises. */
  lemma {:induction false} JoinedStaysFailed(rs: seq<Result<seq<Leg>>>, j: nat, n: nat)
    requires j < n <= |rs| && Joined(rs, j).Success? && rs[j].Failure?
    ensures Joined(rs, n) == rs[j]
  {
    if n > j + 1 {
      JoinedStaysFailed(rs, j, n - 1);
    }
  }

  /** Every item of a successful join comes from a joined result that
      satisfies p when all those results' items do. */
  lemma {:induction false} JoinedAll(rs: seq<Result<seq<Leg>>>, n: nat, p: Leg -> bool)
    requires n <= |rs| && Joined(rs, n).Success?
    requires forall j :: 0 <= j < n && rs[j].Success? ==> forall leg :: leg in rs[j].value ==> p(leg)
    ensures forall leg :: leg in Joined(rs, n).value ==> p(leg)
  {
    if n > 0 {
      JoinedAll(rs, n - 1, p);
    }
  }

  /** Total number of items in the first n results. */
  function Total(rs: seq<Result<seq<Leg>>>, n: nat): nat
    requires n <= |rs|
  {
    if n == 0 then 0 else Total(rs, n - 1) + (if rs[n - 1].Success? then |rs[n - 1].value| else 0)
  }

  lemma {:induction false} JoinedLength(rs: seq<Result<seq<Leg>>>, n: nat)
    requires n <= |rs| && Joined(rs, n).Success?
    ensures |Joined(rs, n).value| == Total(rs, n)
  {
    if n > 0 {
      JoinedLength(rs, n - 1);
    }
  }

  /** The runs of detection x. */
  function RunsOfKind(edges: seq<Edge>, x: Detection): (runs: seq<(nat, nat)>)
    ensures RunsWithin(runs, |edges|)
  {
    RunsInRange(Labels(edges), x);
    RunsOf(Labels(edges), x)
  }

  /** Sort key of a leg: its start on the naive time line. */
  function StartedKey(leg: Leg): real
  {
    if ValidDateTime(leg.startedAt) then WallSeconds(leg.startedAt) as real else 0.0
  }

  /** get_user_legs: activity runs give Stay legs, then trip and walk runs
      give Track legs; the legs are then sorted by started_at. */
  function UserLegs(edges: seq<Edge>, userId: string, fp: Footprint): (r: Result<seq<Leg>>)
    requires Timed(edges)
    ensures r.Success? <==>
      && AllConvertible(edges, RunsOfKind(edges, Activity))
      && AllConvertible(edges, RunsOfKind(edges, Trip))
      && AllConvertible(edges, RunsOfKind(edges, Walk))
    ensures r.Failure? ==> r.error == ValueError
    ensures r.Success? ==> SortedBy(r.value, StartedKey)
  {
    var acts := LegsOfRuns(edges, RunsOfKind(edges, Activity), |RunsOfKind(edges, Activity)|, userId, Stay, fp);
    var trips := LegsOfRuns(edges, RunsOfKind(edges, Trip), |RunsOfKind(edges, Trip)|, userId, Track, fp);
    var walks := LegsOfRuns(edges, RunsOfKind(edges, Walk), |RunsOfKind(edges, Walk)|, userId, Track, fp);
    LegsOfRunsConverts(edges, RunsOfKind(edges, Activity), |RunsOfKind(edges, Activity)|, userId, Stay, fp);
    LegsOfRunsConverts(edges, RunsOfKind(edges, Trip), |RunsOfKind(edges, Trip)|, userId, Track, fp);
    LegsOfRunsConverts(edges, RunsOfKind(edges, Walk), |RunsOfKind(edges, Walk)|, userId, Track, fp);
    if acts.Failure? then acts
    else if trips.Failure? then trips
    else if walks.Failure? then walks
    else
      var all := acts.value + trips.value + walks.value;
      Success(SortBy(all, StartedKey))
  }

  /** The first n runs convert exactly when each of their boundaries can
      be converted; otherwise a ValueError is raised. */
  lemma LegsOfRunsConverts(edges: seq<Edge>, runs: seq<(nat, nat)>, n: nat, userId: string, kind: LegKind, fp: Footprint)
    requires n <= |runs| && RunsWithin(runs, |edges|) && Timed(edges)
    ensures LegsOfRuns(edges, runs, n, userId, kind, fp).Success? <==> forall j :: 0 <= j < n ==> Convertible(edges, runs[j])
    ensures LegsOfRuns(edges, runs, n, userId, kind, fp).Failure? ==> LegsOfRuns(edges, runs, n, userId, kind, fp).error == ValueError
  {
    var rs := RunResults(edges, runs, userId, kind, fp);
    JoinedSucceeds(rs, n);
    assert forall j :: 0 <= j < n ==> (rs[j].Success? <==> Convertible(edges, runs[j]));
  }

  /** One more convertible run appends its legs. */
  lemma LegsOfRunsNext(edges: seq<Edge>, runs: seq<(nat, nat)>, j: nat, userId: string, kind: LegKind, fp: Footprint)
    requires j < |runs| && RunsWithin(runs, |edges|) && Timed(edges)
    requires LegsOfRuns(edges, runs, j, userId, kind, fp).Success?
    requires AppendOneCategory(edges, runs[j], userId, kind, fp).Success?
    ensures LegsOfRuns(edges, runs, j + 1, userId, kind, fp)
      == Success(LegsOfRuns(edges, runs, j, userId, kind, fp).value + AppendOneCategory(edges, runs[j], userId, kind, fp).value)
  {
    assert RunResults(edges, runs, userId, kind, fp)[j] == AppendOneCategory(edges, runs[j], userId, kind, fp);
  }

  /** A run that cannot be converted, after runs that can, is what the whole
      category raises. */
  lemma LegsOfRunsFail(edges: seq<Edge>, runs: seq<(nat, nat)>, j: nat, userId: string, kind: LegKind, fp: Footprint)
    requires j < |runs| && RunsWithin(runs, |edges|) && Timed(edges)
    requires LegsOfRuns(edges, runs, j, userId, kind, fp).Success?
    requires AppendOneCategory(edges, runs[j], userId, kind, fp).Failure?
    ensures LegsOfRuns(edges, runs, |runs|, userId, kind, fp) == AppendOneCategory(edges, runs[j], userId, kind, fp)
  {
    var rs := RunResults(edges, runs, userId, kind, fp);
    assert rs[j] == AppendOneCategory(edges, runs[j], userId, kind, fp);
    JoinedStaysFailed(rs, j, |runs|);
  }

  /** res followed by the legs of all runs, or the error of the first run
      that cannot be converted. */
  function Collected(edges: seq<Edge>, runs: seq<(nat, nat)>, userId: string, kind: LegKind, fp: Footprint, res: seq<Leg>): Result<seq<Leg>>
    requires RunsWithin(runs, |edges|) && Timed(edges)
  {
    var legs := LegsOfRuns(edges, runs, |runs|, userId, kind, fp);
    if legs.Success? then Success(res + legs.value) else legs
  }

  /** The loop of get_user_legs over one category's runs: the legs of each
      run are appended to res in turn. */
  method CollectLegs(edges: seq<Edge>, runs: seq<(nat, nat)>, userId: string, kind: LegKind, fp: Footprint, res: seq<Leg>)
    returns (r: Result<seq<Leg>>)
    requires RunsWithin(runs, |edges|) && Timed(edges)
    ensures r == Collected(edges, runs, userId, kind, fp, res)
  {
    var acc := res;
    var j := 0;
    while j < |runs|
      invariant Collecting(edges, runs, userId, kind, fp, res, j, acc)
    {
      var legs := AppendOneCategory(edges, runs[j], userId, kind, fp);
      if legs.Failure? {
        LegsOfRunsFail(edges, runs, j, userId, kind, fp);
        return legs;
      }
      CollectStep(edges, runs, userId, kind, fp, res, j, acc);
      acc := acc + legs.value;
      j := j + 1;
    }
    return Success(acc);
  }

  /** The invariant of CollectLegs: the first j runs have been converted
      and acc is res followed by their legs. */
  predicate Collecting(edges: seq<Edge>, runs: seq<(nat, nat)>, userId: string, kind: LegKind, fp: Footprint,
                       res: seq<Leg>, j: nat, acc: seq<Leg>)
    requires RunsWithin(runs, |edges|) && Timed(edges)
  {
    && j <= |runs|
    && LegsOfRuns(edges, runs, j, userId, kind, fp).Success?
    && acc == res + LegsOfRuns(edges, runs, j, userId, kind, fp).value
    && (j == |runs| ==> Collected(edges, runs, userId, kind, fp, res) == Success(acc))
  }

  lemma CollectStep(edges: seq<Edge>, runs: seq<(nat, nat)>, userId: string, kind: LegKind, fp: Footprint,
                    res: seq<Leg>, j: nat, acc: seq<Leg>)
    requires RunsWithin(runs, |edges|) && Timed(edges) && j < |runs|
    requires Collecting(edges, runs, userId, kind, fp, res, j, acc)
    requires AppendOneCategory(edges, runs[j], userId, kind, fp).Success?
    ensures Collecting(edges, runs, userId, kind, fp, res, j + 1, acc + AppendOneCategory(edges, runs[j], userId, kind, fp).value)
  {
    ghost var done := LegsOfRuns(edges, runs, j, userId, kind, fp).value;
    LegsOfRunsNext(edges, runs, j, userId, kind, fp);
    ConcatAssoc(res, done, AppendOneCategory(edges, runs[j], userId, kind, fp).value);
  }

  /** get_user_legs, sequential branch. */
  method GetUserLegs(edges: seq<Edge>, userId: string, fp: Footprint) returns (r: Result<seq<Leg>>)
    requires Timed(edges)
    ensures r == UserLegs(edges, userId, fp)
  {
    ghost var acts := LegsOfRuns(edges, RunsOfKind(edges, Activity), |RunsOfKind(edges, Activity)|, userId, Stay, fp);
    ghost var trips := LegsOfRuns(edges, RunsOfKind(edges, Trip), |RunsOfKind(edges, Trip)|, userId, Track, fp);
    ghost var walks := LegsOfRuns(edges, RunsOfKind(edges, Walk), |RunsOfKind(edges, Walk)|, userId, Track, fp);
    var res := CollectLegs(edges, RunsOfKind(edges, Activity), userId, Stay, fp, []);
    if res.Failure? {
      return res;
    }
    assert res.value == acts.value;
    res := CollectLegs(edges, RunsOfKind(edges, Trip), userId, Track, fp, res.value);
    if res.Failure? {
      return res;
    }
    assert res.value == acts.value + trips.value;
    res := CollectLegs(edges, RunsOfKind(edges, Walk), userId, Track, fp, res.value);
    if res.Failure? {
      return res;
    }
    assert res.value == acts.value + trips.value + walks.value;
    r := Success(SortBy(res.value, StartedKey));
  }

  // ---- properties ----

  /** There is one leg per run plus one per split run. */
  lemma LegsOfRunsCount(edges: seq<Edge>, runs: seq<(nat, nat)>, n: nat, userId: string, kind: LegKind, fp: Footprint)
    requires n <= |runs| && RunsWithin(runs, |edges|) && Timed(edges)
    requires LegsOfRuns(edges, runs, n, userId, kind, fp).Success?
    ensures |LegsOfRuns(edges, runs, n, userId, kind, fp).value| == n + SplitCount(edges, runs, n)
  {
    var rs := RunResults(edges, runs, userId, kind, fp);
    JoinedLength(rs, n);
    JoinedSucceeds(rs, n);
    forall j | 0 <= j < n
      ensures rs[j].Success? && |rs[j].value| == 1 + (if Splits(edges, runs[j]) then 1 else 0)
    {
      assert rs[j] == AppendOneCategory(edges, runs[j], userId, kind, fp);
    }
    TotalSplits(edges, runs, rs, n);
  }

  /** Results of one item per run, or two for a split run, total one per
      run plus one per split run. */
  lemma {:induction false} TotalSplits(edges: seq<Edge>, runs: seq<(nat, nat)>, rs: seq<Result<seq<Leg>>>, n: nat)
    requires n <= |runs| == |rs| && RunsWithin(runs, |edges|)
    requires forall j :: 0 <= j < n ==> rs[j].Success? && |rs[j].value| == 1 + (if Splits(edges, runs[j]) then 1 else 0)
    ensures Total(rs, n) == n + SplitCount(edges, runs, n)
  {
    if n > 0 {
      TotalSplits(edges, runs, rs, n - 1);
    }
  }

  /** Every leg of the first n runs carries the user, the category's kind,
      no purpose and the geometry of its kind. */
  lemma LegsOfRunsFields(edges: seq<Edge>, runs: seq<(nat, nat)>, n: nat, userId: string, kind: LegKind, fp: Footprint)
    requires n <= |runs| && RunsWithin(runs, |edges|) && Timed(edges)
    requires LegsOfRuns(edges, runs, n, userId, kind, fp).Success?
    ensures AllStamped(LegsOfRuns(edges, runs, n, userId, kind, fp).value, userId)
    ensures AllOfKind(LegsOfRuns(edges, runs, n, userId, kind, fp).value, kind)
  {
    var rs := RunResults(edges, runs, userId, kind, fp);
    var p := (leg: Leg) => Stamped(leg, userId) && leg.kind == kind;
    forall j | 0 <= j < n && rs[j].Success?
      ensures forall leg :: leg in rs[j].value ==> p(leg)
    {
      RunLegsStamped(edges, runs[j], userId, kind, fp);
    }
    JoinedAll(rs, n, p);
  }

  /** The legs of one run carry the user, the category's kind, no purpose
      and the geometry of its kind. */
  lemma RunLegsStamped(edges: seq<Edge>, run: (nat, nat), userId: string, kind: LegKind, fp: Footprint)
    requires run.0 < run.1 <= |edges| && Timed(edges)
    requires AppendOneCategory(edges, run, userId, kind, fp).Success?
    ensures AllStamped(AppendOneCategory(edges, run, userId, kind, fp).value, userId)
    ensures AllOfKind(AppendOneCategory(edges, run, userId, kind, fp).value, kind)
  {
    var last := AppendOneCategory(edges, run, userId, kind, fp).value;
    AppendOneCategoryLegs(edges, run, userId, kind, fp);
    forall leg | leg in last ensures Stamped(leg, userId) && leg.kind == kind {
      var k :| 0 <= k < |last| && last[k] == leg;
      assert FromRun(last[k], edges, run.0, run.1, userId, kind, fp);
    }
  }

  /** The leg belongs to the user, has no purpose yet, and is a Stay exactly
      when its geometry is an area. */
  predicate Stamped(leg: Leg, userId: string)
  {
    leg.userId == userId && leg.purpose.None? && (leg.kind == Stay <==> leg.geometry.Area?)
  }

  predicate AllStamped(legs: seq<Leg>, userId: string)
  {
    forall leg :: leg in legs ==> Stamped(leg, userId)
  }

  predicate AllOfKind(legs: seq<Leg>, kind: LegKind)
  {
    forall leg :: leg in legs ==> leg.kind == kind
  }

  lemma AllStampedConcat(a: seq<Leg>, b: seq<Leg>, userId: string)
    requires AllStamped(a, userId) && AllStamped(b, userId)
    ensures AllStamped(a + b, userId)
  {
  }

  lemma AllStampedPermuted(a: seq<Leg>, b: seq<Leg>, userId: string)
    requires AllStamped(a, userId) && multiset(a) == multiset(b)
    ensures AllStamped(b, userId)
  {
    forall leg | leg in b ensures Stamped(leg, userId) {
      assert leg in multiset(b);
      assert leg in a;
    }
  }

  /** The result has one leg per run of each category plus one per split
      run (the row count of the legs frame). */
  lemma UserLegsCount(edges: seq<Edge>, userId: string, fp: Footprint)
    requires Timed(edges) && UserLegs(edges, userId, fp).Success?
    ensures
      var (a, t, w) := (RunsOfKind(edges, Activity), RunsOfKind(edges, Trip), RunsOfKind(edges, Walk));
      |UserLegs(edges, userId, fp).value|
        == |a| + |t| + |w| + SplitCount(edges, a, |a|) + SplitCount(edges, t, |t|) + SplitCount(edges, w, |w|)
  {
    var (a, t, w) := (RunsOfKind(edges, Activity), RunsOfKind(edges, Trip), RunsOfKind(edges, Walk));
    LegsOfRunsCount(edges, a, |a|, userId, Stay, fp);
    LegsOfRunsCount(edges, t, |t|, userId, Track, fp);
    LegsOfRunsCount(edges, w, |w|, userId, Track, fp);
  }

  /** Every leg belongs to the user, has no purpose yet, and is a Stay
      exactly when its geometry is an area. */
  lemma UserLegsFields(edges: seq<Edge>, userId: string, fp: Footprint)
    requires Timed(edges) && UserLegs(edges, userId, fp).Success?
    ensures AllStamped(UserLegs(edges, userId, fp).value, userId)
  {
    var (a, t, w) := (RunsOfKind(edges, Activity), RunsOfKind(edges, Trip), RunsOfKind(edges, Walk));
    var (la, lt, lw) := (LegsOfRuns(edges, a, |a|, userId, Stay, fp).value,
                         LegsOfRuns(edges, t, |t|, userId, Track, fp).value,
                         LegsOfRuns(edges, w, |w|, userId, Track, fp).value);
    LegsOfRunsFields(edges, a, |a|, userId, Stay, fp);
    LegsOfRunsFields(edges, t, |t|, userId, Track, fp);
    LegsOfRunsFields(edges, w, |w|, userId, Track, fp);
    AllStampedConcat(la, lt, userId);
    AllStampedConcat(la + lt, lw, userId);
    AllStampedPermuted(la + lt + lw, UserLegs(edges, userId, fp).value, userId);
  }

  /** Edge k opens a run of its label and its start cannot be converted. */
  predicate BadStart(edges: seq<Edge>, k: nat)
    requires k < |edges|
  {
    (k == 0 || edges[k - 1].detection != edges[k].detection) && !Whole(edges[k].route.startAt)
  }

  /** Edge k closes a run of its label and its end cannot be converted. */
  predicate BadEnd(edges: seq<Edge>, k: nat)
    requires k < |edges|
  {
    (k + 1 == |edges| || edges[k + 1].detection != edges[k].detection) && !Whole(edges[k].route.endAt)
  }

  /** A run converts exactly when neither its opening start nor its closing
      end is a bad boundary. */
  lemma RunBoundaries(edges: seq<Edge>, x: Detection, j: nat)
    requires j < |RunsOfKind(edges, x)|
    ensures RunsOfKind(edges, x)[j].0 < RunsOfKind(edges, x)[j].1 <= |edges|
    ensures Convertible(edges, RunsOfKind(edges, x)[j])
      <==> !BadStart(edges, RunsOfKind(edges, x)[j].0) && !BadEnd(edges, RunsOfKind(edges, x)[j].1 - 1)
  {
    RunEnds(Labels(edges), x, j);
  }

  /** A bad boundary belongs to a run that cannot be converted. */
  lemma BadBoundaryRun(edges: seq<Edge>, k: nat) returns (x: Detection, j: nat)
    requires k < |edges| && (BadStart(edges, k) || BadEnd(edges, k))
    ensures j < |RunsOfKind(edges, x)| && !Convertible(edges, RunsOfKind(edges, x)[j])
  {
    var labels := Labels(edges);
    x := labels[k];
    j := RunContaining(labels, x, k);
    InsideRun(labels, x, j, k);
    RunBoundaries(edges, x, j);
  }

  lemma BadBoundaryFails(edges: seq<Edge>, userId: string, fp: Footprint, k: nat)
    requires Timed(edges) && k < |edges| && (BadStart(edges, k) || BadEnd(edges, k))
    ensures UserLegs(edges, userId, fp).Failure?
  {
    var x, j := BadBoundaryRun(edges, k);
    match x
    case Activity => assert !AllConvertible(edges, RunsOfKind(edges, Activity));
    case Trip => assert !AllConvertible(edges, RunsOfKind(edges, Trip));
    case Walk => assert !AllConvertible(edges, RunsOfKind(edges, Walk));
  }

  lemma FailureHasBadBoundary(edges: seq<Edge>, userId: string, fp: Footprint) returns (k: nat)
    requires Timed(edges) && UserLegs(edges, userId, fp).Failure?
    ensures k < |edges| && (BadStart(edges, k) || BadEnd(edges, k))
  {
    var x: Detection :| !AllConvertible(edges, RunsOfKind(edges, x));
    var runs := RunsOfKind(edges, x);
    assert !AllConvertible(edges, runs);
    var j :| 0 <= j < |runs| && !Convertible(edges, runs[j]);
    RunBoundaries(edges, x, j);
    k := if BadStart(edges, runs[j].0) then runs[j].0 else runs[j].1 - 1;
  }

  /** get_user_legs raises exactly when some edge opening a run starts, or
      some edge closing a run ends, at a timestamp with fractional seconds
      or an offset other than +00:00. */
  lemma UserLegsFailure(edges: seq<Edge>, userId: string, fp: Footprint)
    requires Timed(edges)
    ensures UserLegs(edges, userId, fp).Failure?
      <==> exists k :: 0 <= k < |edges| && (BadStart(edges, k) || BadEnd(edges, k))
  {
    forall k | 0 <= k < |edges| && (BadStart(edges, k) || BadEnd(edges, k))
      ensures UserLegs(edges, userId, fp).Failure?
    {
      BadBoundaryFails(edges, userId, fp, k);
    }
    if UserLegs(edges, userId, fp).Failure? {
      var k := FailureHasBadBoundary(edges, userId, fp);
    }
  }
}
