/** Home and work detection (mobilipy/poi_detection.py): waypoints are
    binned into grid cells numbered by the Cantor pairing of the cell
    indices; home is the cell with the most waypoints, work the busiest
    workday cell other than home's, each located at the mean position of
    its waypoints; Stay legs close to either get the purpose Home or Work. */
module PoiDetection {
  import opened Wrappers
  import opened CivilTime
  import opened Sorting
  import opened Seqs
  import Privacy
  import opened Legs

  // ---- cell numbers ----

  /** km // cell_size on floats. */
  function CellIndex(km: real, cell: real): int
    requires cell > 0.0
  {
    (km / cell).Floor
  }

  lemma ConsecutiveEven(s: int)
    ensures (s * (s + 1)) % 2 == 0
  {
    var h := s / 2;
    if s % 2 == 0 {
      assert s * (s + 1) == 2 * (h * (s + 1));
    } else {
      assert s + 1 == 2 * (h + 1);
      assert s * (s + 1) == 2 * (s * (h + 1));
    }
  }

  /** (1/2)(y + x)(y + x + 1) + x: the product of two consecutive integers is
      even, so the float formula yields this integer exactly. */
  function CellNumber(x: int, y: int): (n: int)
    ensures 2 * n == (x + y) * (x + y + 1) + 2 * x
  {
    ConsecutiveEven(x + y);
    (x + y) * (x + y + 1) / 2 + x
  }

  /** The triangular numbers, 0 + 1 + ... + s. */
  function Triangle(s: nat): nat
  {
    if s == 0 then 0 else Triangle(s - 1) + s
  }

  lemma {:induction false} TriangleFormula(s: nat)
    ensures 2 * Triangle(s) == s * (s + 1)
  {
    if s > 0 {
      TriangleFormula(s - 1);
      assert (s - 1) * s + 2 * s == s * (s + 1);
    }
  }

  lemma {:induction false} TriangleGrows(a: nat, b: nat)
    requires a < b
    ensures Triangle(a) + a + 1 <= Triangle(b)
    decreases b
  {
    if a + 1 < b {
      TriangleGrows(a, b - 1);
    }
  }

  /** On non-negative indices the cell number is Cantor's pairing, which
      tells cells apart. */
  lemma CantorInjective(x: nat, y: nat, x': nat, y': nat)
    requires CellNumber(x, y) == CellNumber(x', y')
    ensures x == x' && y == y'
  {
    TriangleFormula(x + y);
    TriangleFormula(x' + y');
    assert CellNumber(x, y) == Triangle(x + y) + x;
    assert CellNumber(x', y') == Triangle(x' + y') + x';
    if x + y < x' + y' {
      TriangleGrows(x + y, x' + y');
    } else if x' + y' < x + y {
      TriangleGrows(x' + y', x + y);
    }
  }

  /** On all integers it does not: cell (x, y) shares its number with cell
      (x, -1 - 2x - y), which is always a different cell; for instance
      (-1, 0) and (-1, 1) west of the prime meridian. */
  lemma CellNumberMirror(x: int, y: int)
    ensures CellNumber(x, y) == CellNumber(x, -1 - 2 * x - y)
    ensures y != -1 - 2 * x - y
  {
    var s := x + y;
    assert (-1 - s) * (-1 - s + 1) == s * (s + 1);
  }

  /** assign_cell: the grid indices of a position in kilometres east and
      north, paired into one number. */
  function AssignCell(lat: real, lon: real, cell: real, cos: Privacy.Cos): int
    requires cell > 0.0
  {
    CellNumber(CellIndex(Privacy.LonToKm(lat, lon, cos), cell), CellIndex(Privacy.LatToKm(lat), cell))
  }

  // ---- waypoints, cells and workdays ----

  /** A waypoint row; tracked_at is None for NaT, which to_datetime's
      coercion produces for an unparseable timestamp. */
  datatype Waypoint = Waypoint(at: Option<Instant>, lat: real, lon: real)

  /** The cell number of each waypoint. */
  type Cells = Waypoint -> int

  /** The cell numbers assign_cell gives, column-wise. */
  function CellKey(cell: real, cos: Privacy.Cos): Cells
    requires cell > 0.0
  {
    (p: Waypoint) => AssignCell(p.lat, p.lon, cell, cos)
  }

  /** The workday filter: hours 7 to 19 inclusive, Monday to Friday. */
  predicate WorkTime(t: Instant)
    requires ValidInstant(t)
  {
    7 <= Hour(t) <= 19 && Weekday(t.date) < 5
  }

  /** The window runs from 07:00:00 up to but excluding 20:00:00, so any time
      in the hour after 19:00 still counts. */
  lemma WorkTimeWindow(t: Instant)
    requires ValidInstant(t)
    ensures WorkTime(t) <==> 7 * 3600 <= t.second < 20 * 3600 && Weekday(t.date) < 5
  {
  }

  /** The workday filter on a row: a NaT timestamp has a NaN hour and
      weekday, which fail every comparison, so such a row is never kept. */
  predicate AtWork(p: Waypoint)
  {
    p.at.Some? && ValidInstant(p.at.value) && WorkTime(p.at.value)
  }

  function WorkPoints(points: seq<Waypoint>): (r: seq<Waypoint>)
    ensures forall p :: p in r <==> p in points && AtWork(p)
  {
    if points == [] then []
    else
      var rest := WorkPoints(points[1..]);
      assert forall p :: p in points <==> p == points[0] || p in points[1..];
      if AtWork(points[0]) then [points[0]] + rest else rest
  }

  /** A NaT row still has a cell and is counted for home, but never for
      work. */
  lemma NaTCountsForHomeOnly(points: seq<Waypoint>, key: Cells, p: Waypoint)
    requires p in points && p.at.None?
    ensures p in InCell(points, key(p), key)
    ensures p !in WorkPoints(points)
    ensures VisitsOf(points, key(p), key) in Tally(points, key)
  {
    TallyHas(points, key, p);
  }

  /** The waypoints of one cell. */
  function InCell(points: seq<Waypoint>, c: int, key: Cells): (r: seq<Waypoint>)
    ensures forall p :: p in r <==> p in points && key(p) == c
  {
    if points == [] then []
    else
      var rest := InCell(points[1..], c, key);
      assert forall p :: p in points <==> p == points[0] || p in points[1..];
      if key(points[0]) == c then [points[0]] + rest else rest
  }

  function Lats(points: seq<Waypoint>): seq<real>
  {
    seq(|points|, i requires 0 <= i < |points| => points[i].lat)
  }

  function Lons(points: seq<Waypoint>): seq<real>
  {
    seq(|points|, i requires 0 <= i < |points| => points[i].lon)
  }

  function Mean(xs: seq<real>): real
    requires |xs| > 0
  {
    Sum(xs) / |xs| as real
  }

  /** The mean position of the waypoints of a cell that has some. */
  function Location(points: seq<Waypoint>, c: int, key: Cells): Point
    requires |InCell(points, c, key)| > 0
  {
    var ps := InCell(points, c, key);
    (Mean(Lats(ps)), Mean(Lons(ps)))
  }

  function CellsOf(points: seq<Waypoint>, key: Cells): (r: seq<int>)
    ensures forall p :: p in points ==> key(p) in r
    ensures forall c :: c in r ==> |InCell(points, c, key)| > 0
  {
    if points == [] then []
    else
      var rest := CellsOf(points[1..], key);
      assert points[0] in InCell(points, key(points[0]), key);
      assert forall p :: p in points <==> p == points[0] || p in points[1..];
      assert forall c :: c in rest ==> InCell(points[1..], c, key)[0] in InCell(points, c, key);
      [key(points[0])] + rest
  }

  /** The values of xs without repetitions, in order of first appearance. */
  function Distinct(xs: seq<int>): (r: seq<int>)
    ensures forall x :: x in r <==> x in xs
    ensures forall i, j :: 0 <= i < j < |r| ==> r[i] != r[j]
  {
    if xs == [] then []
    else
      var rest := Distinct(xs[..|xs| - 1]);
      assert forall x :: x in xs <==> x == xs[|xs| - 1] || x in xs[..|xs| - 1];
      if xs[|xs| - 1] in rest then rest else rest + [xs[|xs| - 1]]
  }

  /** One row of groupby("cell_number").agg(["count", "mean"]). */
  datatype Visits = Visits(cell: int, count: nat, lat: real, lon: real)

  function VisitsOf(points: seq<Waypoint>, c: int, key: Cells): Visits
    requires |InCell(points, c, key)| > 0
  {
    var loc := Location(points, c, key);
    Visits(c, |InCell(points, c, key)|, loc.0, loc.1)
  }

  /** A row of the tally of points. */
  ghost predicate RowOf(points: seq<Waypoint>, key: Cells, v: Visits)
  {
    |InCell(points, v.cell, key)| > 0 && v == VisitsOf(points, v.cell, key)
  }

  /** One row per cell that holds a waypoint. */
  function Tally(points: seq<Waypoint>, key: Cells): (r: seq<Visits>)
    ensures forall v :: v in r ==> RowOf(points, key, v)
    ensures forall i, j :: 0 <= i < j < |r| ==> r[i].cell != r[j].cell
  {
    var cs := Distinct(CellsOf(points, key));
    seq(|cs|, i requires 0 <= i < |cs| => VisitsOf(points, cs[i], key))
  }

  /** Every cell holding a waypoint has its row in the tally. */
  lemma TallyHas(points: seq<Waypoint>, key: Cells, p: Waypoint)
    requires p in points
    ensures p in InCell(points, key(p), key)
    ensures VisitsOf(points, key(p), key) in Tally(points, key)
  {
    var cs := Distinct(CellsOf(points, key));
    assert key(p) in cs;
    var i :| 0 <= i < |cs| && cs[i] == key(p);
    assert Tally(points, key)[i] == VisitsOf(points, cs[i], key);
  }

  function Busiest(v: Visits): real
  {
    -(v.count as real)
  }

  /** The tally sorted by descending count; pandas' quicksort leaves the
      order of equal counts unspecified, and so do the contracts below. */
  function Ranked(points: seq<Waypoint>, key: Cells): (r: seq<Visits>)
    ensures SortedBy(r, Busiest)
    ensures multiset(r) == multiset(Tally(points, key)) && |r| == |Tally(points, key)|
    ensures forall v :: v in r ==> RowOf(points, key, v)
  {
    var r := SortBy(Tally(points, key), Busiest);
    assert forall v :: v in r ==> v in multiset(Tally(points, key));
    r
  }

  /** Every waypoint's cell is ranked. */
  lemma RankedHas(points: seq<Waypoint>, key: Cells, p: Waypoint) returns (k: nat)
    requires p in points
    ensures k < |Ranked(points, key)| && Ranked(points, key)[k] == VisitsOf(points, key(p), key)
  {
    TallyHas(points, key, p);
    assert VisitsOf(points, key(p), key) in multiset(Ranked(points, key));
    k :| 0 <= k < |Ranked(points, key)| && Ranked(points, key)[k] == VisitsOf(points, key(p), key);
  }

  lemma RankedNonEmpty(points: seq<Waypoint>, key: Cells)
    requires |points| > 0
    ensures |Ranked(points, key)| > 0
  {
    var _ := RankedHas(points, key, points[0]);
  }

  /** Home is the first ranked cell, work the first ranked workday cell unless
      it is home's, then the second if there is one; reading the first row
      of an empty workday ranking fails. */
  function Select(points: seq<Waypoint>, key: Cells): Result<(Point, Option<Point>)>
    requires |points| > 0
  {
    var ranked := Ranked(points, key);
    RankedNonEmpty(points, key);
    var home := ranked[0];
    var work := Ranked(WorkPoints(points), key);
    if |work| == 0 then Failure(IndexError)
    else
      var second := if |work| > 1 then Some((work[1].lat, work[1].lon)) else None;
      Success(((home.lat, home.lon), if work[0].cell != home.cell then Some((work[0].lat, work[0].lon)) else second))
  }

  /** The selection on assign_cell's cell numbers. */
  function HomeWork(points: seq<Waypoint>, cell: real, cos: Privacy.Cos): Result<(Point, Option<Point>)>
    requires cell > 0.0 && |points| > 0
  {
    Select(points, CellKey(cell, cos))
  }

  /** c has at least as many waypoints as any other cell. */
  ghost predicate MostVisited(points: seq<Waypoint>, c: int, key: Cells)
  {
    && |InCell(points, c, key)| > 0
    && forall p :: p in points ==> |InCell(points, key(p), key)| <= |InCell(points, c, key)|
  }

  /** The work choice given home's cell hc: none exactly when every workday
      waypoint lies in hc, else the location of a cell other than hc with at
      least as many workday waypoints as any cell other than hc. */
  ghost predicate WorkChoice(points: seq<Waypoint>, hc: int, work: Option<Point>, key: Cells)
  {
    var ws := WorkPoints(points);
    && (work.None? <==> forall p :: p in ws ==> key(p) == hc)
    && (work.Some? ==> exists wc ::
          && wc != hc
          && |InCell(ws, wc, key)| > 0
          && work.value == Location(ws, wc, key)
          && forall p :: p in ws && key(p) != hc ==> |InCell(ws, key(p), key)| <= |InCell(ws, wc, key)|)
  }

  /** The selection fails exactly when there is no workday waypoint. */
  lemma SelectFails(points: seq<Waypoint>, key: Cells)
    requires |points| > 0
    ensures Select(points, key).Failure? <==> WorkPoints(points) == []
    ensures Select(points, key).Failure? ==> Select(points, key).error == IndexError
  {
    var ws := WorkPoints(points);
    if ws != [] {
      RankedNonEmpty(ws, key);
    } else {
      RankedEmpty(key);
    }
  }

  lemma RankedEmpty(key: Cells)
    ensures Ranked([], key) == []
  {
  }

  /** The head of a ranking has the most waypoints of all cells. */
  lemma HeadMostVisited(points: seq<Waypoint>, key: Cells)
    requires |Ranked(points, key)| > 0
    ensures RowOf(points, key, Ranked(points, key)[0])
    ensures MostVisited(points, Ranked(points, key)[0].cell, key)
  {
    var ranked := Ranked(points, key);
    forall p | p in points
      ensures |InCell(points, key(p), key)| <= ranked[0].count
    {
      var k := RankedHas(points, key, p);
      HeadIsLeast(ranked, Busiest, ranked[k]);
    }
  }

  /** Home is located at the mean position of a most visited cell, and work
      follows the work rule for that cell. */
  lemma SelectSpec(points: seq<Waypoint>, key: Cells)
    requires |points| > 0
    requires Select(points, key).Success?
    ensures exists hc :: (MostVisited(points, hc, key)
      && Select(points, key).value.0 == Location(points, hc, key)
      && WorkChoice(points, hc, Select(points, key).value.1, key))
  {
    var ranked := Ranked(points, key);
    HeadMostVisited(points, key);
    var hc := ranked[0].cell;
    WorkChosen(points, hc, key);
    assert MostVisited(points, hc, key) && Select(points, key).value.0 == Location(points, hc, key);
  }

  /** When all waypoints lie in one cell the ranking has a single row. */
  lemma OneCellOneRow(ws: seq<Waypoint>, hc: int, key: Cells)
    requires forall p :: p in ws ==> key(p) == hc
    ensures |Ranked(ws, key)| <= 1
  {
    var t := Tally(ws, key);
    forall v | v in t
      ensures v.cell == hc
    {
      var p := InCell(ws, v.cell, key)[0];
      assert p in InCell(ws, v.cell, key);
    }
    CellsCount(t);
    WithinSingleton(CellSet(t), hc);
  }

  function CellSet(t: seq<Visits>): set<int>
  {
    set v | v in t :: v.cell
  }

  lemma WithinSingleton(a: set<int>, x: int)
    requires forall y :: y in a ==> y == x
    ensures |a| <= 1
  {
    var b := a - {x};
    assert b == {} by {
      forall y | y in b
        ensures false
      {
      }
    }
    assert a == (a * {x}) + b;
  }

  /** Rows with pairwise different cells have as many cells as rows. */
  lemma {:induction false} CellsCount(t: seq<Visits>)
    requires forall a, b :: 0 <= a < b < |t| ==> t[a].cell != t[b].cell
    ensures |CellSet(t)| == |t|
  {
    if t != [] {
      var init := t[..|t| - 1];
      CellsCount(init);
      assert t == init + [t[|t| - 1]];
      assert CellSet(t) == CellSet(init) + {t[|t| - 1].cell};
      assert t[|t| - 1].cell !in CellSet(init);
    }
  }

  /** Rows with pairwise different cells occur once each. */
  lemma {:induction false} DistinctRowsOnce(t: seq<Visits>, i: nat)
    requires i < |t|
    requires forall a, b :: 0 <= a < b < |t| ==> t[a].cell != t[b].cell
    ensures multiset(t)[t[i]] == 1
  {
    var x := t[i];
    assert t == t[..i] + [x] + t[i + 1..];
    assert x !in t[..i] && x !in t[i + 1..] by {
      forall k | 0 <= k < |t| && k != i
        ensures t[k] != x
      {
        if k < i {
          assert t[k].cell != t[i].cell;
        } else {
          assert t[i].cell != t[k].cell;
        }
      }
    }
    assert multiset(t) == multiset(t[..i]) + multiset{x} + multiset(t[i + 1..]);
  }

  lemma TwoEqualHeads<T>(r: seq<T>)
    requires |r| > 1 && r[0] == r[1]
    ensures multiset(r)[r[0]] >= 2
  {
    assert r == [r[0], r[1]] + r[2..];
  }

  /** The first two rows of a ranking are different cells. */
  lemma RankedHeadsDiffer(points: seq<Waypoint>, key: Cells)
    requires |Ranked(points, key)| > 1
    ensures Ranked(points, key)[0].cell != Ranked(points, key)[1].cell
  {
    var t := Tally(points, key);
    var r := Ranked(points, key);
    if r[0].cell == r[1].cell {
      assert RowOf(points, key, r[0]) && RowOf(points, key, r[1]);
      TwoEqualHeads(r);
      assert r[0] in multiset(t);
      var i :| 0 <= i < |t| && t[i] == r[0];
      DistinctRowsOnce(t, i);
    }
  }

  /** Work when the busiest workday cell is not home's: that cell. */
  lemma WorkIsTop(ws: seq<Waypoint>, hc: int, key: Cells)
    requires |Ranked(ws, key)| > 0 && Ranked(ws, key)[0].cell != hc
    ensures var v := Ranked(ws, key)[0];
      && |InCell(ws, v.cell, key)| > 0 && (v.lat, v.lon) == Location(ws, v.cell, key)
      && (exists p :: p in ws && key(p) != hc)
      && forall p :: p in ws && key(p) != hc ==> |InCell(ws, key(p), key)| <= |InCell(ws, v.cell, key)|
  {
    var v := Ranked(ws, key)[0];
    HeadMostVisited(ws, key);
    var p := InCell(ws, v.cell, key)[0];
    assert p in ws && key(p) != hc;
  }

  /** Work when the busiest workday cell is home's and there is another one:
      the second. */
  lemma WorkIsSecond(ws: seq<Waypoint>, hc: int, key: Cells)
    requires |Ranked(ws, key)| > 1 && Ranked(ws, key)[0].cell == hc
    ensures var v := Ranked(ws, key)[1];
      && v.cell != hc && |InCell(ws, v.cell, key)| > 0 && (v.lat, v.lon) == Location(ws, v.cell, key)
      && (exists p :: p in ws && key(p) != hc)
      && forall p :: p in ws && key(p) != hc ==> |InCell(ws, key(p), key)| <= |InCell(ws, v.cell, key)|
  {
    var work := Ranked(ws, key);
    var v := work[1];
    assert RowOf(ws, key, v);
    RankedHeadsDiffer(ws, key);
    forall p | p in ws && key(p) != hc
      ensures |InCell(ws, key(p), key)| <= v.count
    {
      var k := RankedHas(ws, key, p);
      assert k != 0;
    }
    var p := InCell(ws, v.cell, key)[0];
    assert p in ws && key(p) != hc;
  }

  /** No work when the only workday cell is home's. */
  lemma WorkIsNone(ws: seq<Waypoint>, hc: int, key: Cells)
    requires |Ranked(ws, key)| == 1 && Ranked(ws, key)[0].cell == hc
    ensures forall p :: p in ws ==> key(p) == hc
  {
    forall p | p in ws
      ensures key(p) == hc
    {
      var k := RankedHas(ws, key, p);
    }
  }

  /** The work rule of the selection, for home's cell hc. */
  lemma WorkChosen(points: seq<Waypoint>, hc: int, key: Cells)
    requires |points| > 0
    requires Select(points, key).Success? && hc == Ranked(points, key)[0].cell
    ensures WorkChoice(points, hc, Select(points, key).value.1, key)
  {
    var ws := WorkPoints(points);
    var work := Ranked(ws, key);
    if work[0].cell != hc {
      WorkIsTop(ws, hc, key);
      assert Select(points, key).value.1 == Some((work[0].lat, work[0].lon));
    } else if |work| > 1 {
      WorkIsSecond(ws, hc, key);
      assert Select(points, key).value.1 == Some((work[1].lat, work[1].lon));
    } else {
      WorkIsNone(ws, hc, key);
    }
  }

  /** detect_home_work's selection fails exactly when there is no workday
      waypoint. */
  lemma HomeWorkFails(points: seq<Waypoint>, cell: real, cos: Privacy.Cos)
    requires cell > 0.0 && |points| > 0
    ensures HomeWork(points, cell, cos).Failure? <==> WorkPoints(points) == []
    ensures HomeWork(points, cell, cos).Failure? ==> HomeWork(points, cell, cos).error == IndexError
  {
    SelectFails(points, CellKey(cell, cos));
  }

  /** Home is located at the mean position of a cell with the most waypoints;
      work is none exactly when every workday waypoint lies in home's cell,
      and otherwise the mean position of another cell with the most workday
      waypoints outside home's cell. */
  lemma HomeIsMostVisited(points: seq<Waypoint>, cell: real, cos: Privacy.Cos)
    requires cell > 0.0 && |points| > 0
    requires HomeWork(points, cell, cos).Success?
    ensures exists hc :: (MostVisited(points, hc, CellKey(cell, cos))
      && HomeWork(points, cell, cos).value.0 == Location(points, hc, CellKey(cell, cos))
      && WorkChoice(points, hc, HomeWork(points, cell, cos).value.1, CellKey(cell, cos)))
  {
    SelectSpec(points, CellKey(cell, cos));
  }

  // ---- tagging ----

  /** Distance in kilometres between two positions (haversine). */
  type Distance = (Point, Point) -> real

  const NearKm: real := 0.03

  /** Stay legs carry an area whose centroid can be read. */
  predicate StayAreas(legs: seq<Leg>)
  {
    forall i :: 0 <= i < |legs| ==> legs[i].kind == Stay ==> legs[i].geometry.Area?
  }

  /** find_centroid: a Stay leg within 0.03 km of home gets the purpose Home,
      then one within 0.03 km of work gets Work. */
  function Tag(leg: Leg, home: Option<Point>, work: Option<Point>, dist: Distance): Leg
    requires leg.kind == Stay ==> leg.geometry.Area?
  {
    if leg.kind != Stay then leg
    else
      var c := leg.geometry.centroid;
      var afterHome := if home.Some? && dist(home.value, c) < NearKm then Some("Home") else leg.purpose;
      var afterWork := if work.Some? && dist(work.value, c) < NearKm then Some("Work") else afterHome;
      leg.(purpose := afterWork)
  }

  predicate Near(p: Option<Point>, leg: Leg, dist: Distance)
    requires leg.geometry.Area?
  {
    p.Some? && dist(p.value, leg.geometry.centroid) < NearKm
  }

  /** Tagging changes only the purpose and only of Stay legs; Work wins over
      Home, and a leg near neither keeps its purpose. */
  lemma TagPurpose(leg: Leg, home: Option<Point>, work: Option<Point>, dist: Distance)
    requires leg.kind == Stay ==> leg.geometry.Area?
    ensures Tag(leg, home, work, dist).(purpose := leg.purpose) == leg
    ensures leg.kind != Stay ==> Tag(leg, home, work, dist) == leg
    ensures leg.kind == Stay ==>
      Tag(leg, home, work, dist).purpose ==
        if Near(work, leg, dist) then Some("Work")
        else if Near(home, leg, dist) then Some("Home")
        else leg.purpose
  {
  }

  /** Tagging twice tags once. */
  lemma TagIdempotent(leg: Leg, home: Option<Point>, work: Option<Point>, dist: Distance)
    requires leg.kind == Stay ==> leg.geometry.Area?
    ensures Tag(Tag(leg, home, work, dist), home, work, dist) == Tag(leg, home, work, dist)
  {
  }

  /** The loop over the Stay legs, updating each leg's purpose in place. */
  method TagLegs(legs: array<Leg>, home: Option<Point>, work: Option<Point>, dist: Distance)
    requires StayAreas(legs[..])
    modifies legs
    ensures forall i :: 0 <= i < legs.Length ==> old(legs[i]).kind == Stay ==> old(legs[i]).geometry.Area?
    ensures forall i :: 0 <= i < legs.Length ==> legs[i] == Tag(old(legs[i]), home, work, dist)
  {
    for i := 0 to legs.Length
      invariant forall k :: 0 <= k < legs.Length ==> old(legs[k]).kind == Stay ==> old(legs[k]).geometry.Area?
      invariant forall k :: 0 <= k < i ==> legs[k] == Tag(old(legs[k]), home, work, dist)
      invariant forall k :: i <= k < legs.Length ==> legs[k] == old(legs[k])
    {
      if legs[i].kind == Stay {
        legs[i] := Tag(legs[i], home, work, dist);
      }
    }
  }

  /** detect_home_work: with no legs or no waypoints nothing is detected and
      no leg changes; otherwise the selection runs and, when it succeeds,
      the legs are tagged with the home and work found. */
  method DetectHomeWork(legs: array<Leg>, points: seq<Waypoint>, cell: real, cos: Privacy.Cos, dist: Distance)
    returns (r: Result<(Option<Point>, Option<Point>)>)
    requires cell > 0.0 && StayAreas(legs[..])
    modifies legs
    ensures legs.Length == 0 || points == [] ==> r == Success((None, None)) && legs[..] == old(legs[..])
    ensures legs.Length > 0 && points != [] ==>
      match HomeWork(points, cell, cos)
      case Failure(e) => r == Failure(e) && legs[..] == old(legs[..])
      case Success(hw) =>
        && r == Success((Some(hw.0), hw.1))
        && (forall i :: 0 <= i < legs.Length ==>
             (old(legs[i]).kind == Stay ==> old(legs[i]).geometry.Area?))
        && forall i :: 0 <= i < legs.Length ==> legs[i] == Tag(old(legs[i]), Some(hw.0), hw.1, dist)
  {
    if legs.Length == 0 || points == [] {
      return Success((None, None));
    }
    var hw := HomeWork(points, cell, cos);
    if hw.Failure? {
      return Failure(hw.error);
    }
    var (home, work) := hw.value;
    TagLegs(legs, Some(home), work, dist);
    r := Success((Some(home), work));
  }
}
