/** Privacy helpers (mobilipy/privacy.py): conversions between degrees and
    kilometres, snapping to the centre of a square grid cell, flooring a
    timestamp to a multiple of a time step, the share of legs left untouched
    by an obfuscation, and distinct-user counts per time step and cell. */
module Privacy {
  import opened Wrappers

  /** Kilometres per degree of latitude. */
  const KmPerLatDegree: real := 110.574

  /** Kilometres per degree of longitude on the equator. */
  const KmPerLonDegree: real := 111.320

  /** np.cos(np.deg2rad(x)): the cosine of an angle given in degrees. */
  type Cos = real -> real

  type Point = (real, real)

  // ---- unit conversions ----

  function LatToKm(lat: real): real
  {
    KmPerLatDegree * lat
  }

  function KmToLat(km: real): (lat: real)
    ensures LatToKm(lat) == km
  {
    km / KmPerLatDegree
  }

  function LonToKm(lat: real, lon: real, cos: Cos): real
  {
    KmPerLonDegree * cos(lat) * lon
  }

  function KmToLon(km: real, lat: real, cos: Cos): (lon: real)
    requires cos(lat) != 0.0
    ensures LonToKm(lat, lon, cos) == km
  {
    km / (KmPerLonDegree * cos(lat))
  }

  /** Converting a latitude to kilometres and back gives it back. */
  lemma LatRoundTrip(lat: real)
    ensures KmToLat(LatToKm(lat)) == lat
  {
  }

  /** Converting a longitude to kilometres and back at the same latitude
      gives it back, wherever the cosine does not vanish. */
  lemma LonRoundTrip(lat: real, lon: real, cos: Cos)
    requires cos(lat) != 0.0
    ensures KmToLon(LonToKm(lat, lon, cos), lat, cos) == lon
  {
    var c := KmPerLonDegree * cos(lat);
    assert LonToKm(lat, lon, cos) == c * lon;
    assert (c * lon) / c == lon;
  }

  /** shift_point: moves a point by the given kilometres north and east,
      converting longitude at the point's own latitude. */
  function ShiftPoint(p: Point, northKm: real, eastKm: real, cos: Cos): (r: Point)
    requires cos(p.0) != 0.0
    ensures r.0 == p.0 + northKm / KmPerLatDegree
    ensures r.1 == p.1 + eastKm / (KmPerLonDegree * cos(p.0))
  {
    var (lat, lon) := p;
    var c := KmPerLonDegree * cos(lat);
    assert (c * lon + eastKm) / c == lon + eastKm / c;
    (KmToLat(LatToKm(lat) + northKm), KmToLon(LonToKm(lat, lon, cos) + eastKm, lat, cos))
  }

  /** A zero shift leaves the point where it is. */
  lemma ShiftByNothing(p: Point, cos: Cos)
    requires cos(p.0) != 0.0
    ensures ShiftPoint(p, 0.0, 0.0, cos) == p
  {
  }

  // ---- grid cells ----

  /** Python's % on floats: the remainder takes the sign of the divisor. */
  function FloatMod(a: real, b: real): (m: real)
    requires b > 0.0
    ensures 0.0 <= m < b
  {
    FloorMultiple(a, b);
    a - ((a / b).Floor as real) * b
  }

  /** The largest multiple of b not above a is within b of it. */
  lemma FloorMultiple(a: real, b: real)
    requires b > 0.0
    ensures ((a / b).Floor as real) * b <= a < ((a / b).Floor as real) * b + b
  {
    var x := a / b;
    assert x * b == a;
    BelowMultiple(a, b, x, x.Floor as real);
    AboveMultiple(a, b, x, x.Floor as real);
  }

  lemma BelowMultiple(a: real, b: real, x: real, q: real)
    requires b > 0.0 && x * b == a && q <= x
    ensures q * b <= a
  {
    MulMonotone(q, x, b);
  }

  lemma AboveMultiple(a: real, b: real, x: real, q: real)
    requires b > 0.0 && x * b == a && x < q + 1.0
    ensures a < q * b + b
  {
    var y := q + 1.0;
    MulMonotone(x, y, b);
    assert y * b == q * b + 1.0 * b;
  }

  lemma MulMonotone(x: real, y: real, c: real)
    requires x <= y && c > 0.0
    ensures x * c <= y * c
    ensures x < y ==> x * c < y * c
  {
  }

  lemma DivOf(r: real, x: real, c: real)
    requires c != 0.0 && r == x * c
    ensures r / c == x
  {
  }

  /** km - km % cell + cell / 2: the centre of the cell holding km. */
  function Snap(km: real, cell: real): (r: real)
    requires cell > 0.0
    ensures r == cell * ((km / cell).Floor as real) + cell / 2.0
    ensures r - cell / 2.0 <= km < r + cell / 2.0
  {
    km - FloatMod(km, cell) + cell / 2.0
  }

  /** A cell centre snaps to itself. */
  lemma SnapIdempotent(km: real, cell: real)
    requires cell > 0.0
    ensures Snap(Snap(km, cell), cell) == Snap(km, cell)
  {
    var n := (km / cell).Floor;
    var f := n as real;
    var r := Snap(km, cell);
    assert r == (f + 0.5) * cell;
    DivOf(r, f + 0.5, cell);
    assert (f + 0.5).Floor == n;
    assert Snap(r, cell) == cell * f + cell / 2.0;
  }

  /** assign_cell_center: snaps both coordinates to the cell grid in
      kilometres; the longitude is converted back at the snapped latitude. */
  function AssignCellCenter(lat: real, lon: real, cell: real, cos: Cos): (r: Point)
    requires cell > 0.0 && cos(KmToLat(Snap(LatToKm(lat), cell))) != 0.0
    ensures LatToKm(r.0) == Snap(LatToKm(lat), cell)
    ensures LonToKm(r.0, r.1, cos) == Snap(LonToKm(lat, lon, cos), cell)
    ensures r.0 == KmToLat(Snap(LatToKm(lat), cell))
  {
    var centreLat := KmToLat(Snap(LatToKm(lat), cell));
    (centreLat, KmToLon(Snap(LonToKm(lat, lon, cos), cell), centreLat, cos))
  }

  /** The centre of a cell is its own centre; this relies on the longitude
      being converted back at the snapped latitude. */
  lemma CellCenterIdempotent(lat: real, lon: real, cell: real, cos: Cos)
    requires cell > 0.0 && cos(KmToLat(Snap(LatToKm(lat), cell))) != 0.0
    ensures var c := AssignCellCenter(lat, lon, cell, cos);
      cos(KmToLat(Snap(LatToKm(c.0), cell))) != 0.0 && AssignCellCenter(c.0, c.1, cell, cos) == c
  {
    var c := AssignCellCenter(lat, lon, cell, cos);
    SnapIdempotent(LatToKm(lat), cell);
    SnapIdempotent(LonToKm(lat, lon, cos), cell);
    var d := AssignCellCenter(c.0, c.1, cell, cos);
    assert d.0 == c.0;
    assert LonToKm(c.0, d.1, cos) == LonToKm(c.0, c.1, cos);
    var k := KmPerLonDegree * cos(c.0);
    assert k * d.1 == k * c.1;
  }

  // ---- time steps ----

  const MicrosPerSecond: int := 1000000

  /** Python's % with a non-zero divisor: the remainder takes the divisor's
      sign and differs from the dividend by a multiple of the divisor.
      Dafny's own % never returns a negative value. */
  function PyMod(a: int, b: int): (r: int)
    requires b != 0
    ensures b > 0 ==> 0 <= r < b
    ensures b < 0 ==> b < r <= 0
    ensures OnGrid(a - r, b)
  {
    var e := a % b;
    assert a - e == (a / b) * b;
    if b > 0 || e == 0 then e
    else
      assert a - (e + b) == (a / b - 1) * b;
      e + b
  }

  /** On whole numbers and a positive divisor, PyMod is the float % of the
      snapping code: dt_floor's remainder is the same operation counted in
      microseconds. */
  lemma PyModIsFloatMod(a: int, b: int)
    requires b > 0
    ensures FloatMod(a as real, b as real) == PyMod(a, b) as real
  {
    var q := a / b;
    var br := b as real;
    var e := (a % b) as real;
    var x := a as real / br;
    assert a as real == (q as real) * br + e by {
      assert a == q * b + a % b;
      assert (q * b) as real == (q as real) * br;
    }
    var f := x - q as real;
    assert f * br == e by {
      assert x * br == a as real;
      assert f * br == x * br - (q as real) * br;
    }
    if f < 0.0 {
      MulMonotone(f, 0.0, br);
    }
    if f >= 1.0 {
      MulMonotone(1.0, f, br);
    }
    FloorOf(x, q);
  }

  lemma FloorOf(x: real, q: int)
    requires q as real <= x < q as real + 1.0
    ensures x.Floor == q
  {
  }

  /** m is a whole number of steps after 0001-01-01 00:00:00. */
  ghost predicate OnGrid(m: int, step: int)
  {
    exists n: int :: m == n * step
  }

  /** The time truncated to whole seconds, as int() of total_seconds does for
      times after datetime.min. */
  function Truncated(t: nat): (w: nat)
    ensures w <= t < w + MicrosPerSecond && OnGrid(w, MicrosPerSecond)
  {
    (t / MicrosPerSecond) * MicrosPerSecond
  }

  /** dt_floor on a timestamp held as microseconds since 0001-01-01
      00:00:00 and a timedelta held as microseconds: the whole seconds are
      reduced modulo the step with Python's %, which fails on a zero step,
      and the microseconds are dropped. For a positive step the result is
      the last step boundary at or before the truncated time, for a negative
      one the first boundary at or after it. */
  function DtFloor(t: nat, stepMicros: int): (r: Result<nat>)
    ensures r.Failure? <==> stepMicros == 0
    ensures r.Failure? ==> r.error == ZeroDivisionError
    ensures r.Success? ==> OnGrid(r.value, stepMicros)
    ensures r.Success? && stepMicros > 0 ==> r.value <= Truncated(t) < r.value + stepMicros
    ensures r.Success? && stepMicros < 0 ==> Truncated(t) <= r.value < Truncated(t) - stepMicros
  {
    if stepMicros == 0 then Failure(ZeroDivisionError)
    else
      var w := Truncated(t);
      var remainder := PyMod(w, stepMicros) + t % MicrosPerSecond;
      assert t - remainder == w - PyMod(w, stepMicros);
      if stepMicros > 0 then
        GridNotNegative(w - PyMod(w, stepMicros), stepMicros);
        Success(t - remainder)
      else
        Success(t - remainder)
  }

  /** A multiple of a positive step above minus one step is not negative. */
  lemma GridNotNegative(m: int, step: int)
    requires step > 0 && OnGrid(m, step) && m > -step
    ensures m >= 0
  {
    var n :| m == n * step;
    if n < 0 {
      MulLess(n, 0, step);
    }
  }

  lemma MulLess(a: int, b: int, c: int)
    requires a < b && c > 0
    ensures a * c + c <= b * c
  {
    var d := b - a;
    assert d >= 1;
    assert d * c >= c;
    assert b * c == a * c + d * c;
  }

  /** Two multiples of a positive step less than one step apart are equal. */
  lemma GridWithinStep(m: int, n: int, step: int)
    requires step > 0 && OnGrid(m, step) && OnGrid(n, step)
    requires m <= n < m + step
    ensures m == n
  {
    var a :| m == a * step;
    var b :| n == b * step;
    if a < b {
      MulLess(a, b, step);
    } else if b < a {
      MulLess(b, a, step);
    }
  }

  /** With a positive whole-second step the floor is the only step boundary
      within one step at or below t, as the docstring promises. */
  lemma DtFloorUnique(t: nat, stepMicros: int, m: int)
    requires stepMicros > 0 && stepMicros % MicrosPerSecond == 0
    requires OnGrid(m, stepMicros) && m <= t < m + stepMicros
    ensures DtFloor(t, stepMicros) == Success(m)
  {
    var r := DtFloor(t, stepMicros).value;
    var w := Truncated(t);
    assert OnGrid(m, MicrosPerSecond) by {
      var k := stepMicros / MicrosPerSecond;
      var n :| m == n * stepMicros;
      assert stepMicros == k * MicrosPerSecond;
      assert m == (n * k) * MicrosPerSecond;
    }
    if w < m {
      GridWithinStep(w, m, MicrosPerSecond);
    }
    if r < m {
      GridWithinStep(r, m, stepMicros);
    } else if m < r {
      GridWithinStep(m, r, stepMicros);
    }
  }

  /** The documented example: hh:21:47 with a 15 s step gives hh:21:45, on
      any day (d is the day's number since 0001-01-01). */
  lemma DtFloorExample(d: nat)
    ensures DtFloor((d * 86400 + 12 * 3600 + 21 * 60 + 47) * MicrosPerSecond, 15 * MicrosPerSecond)
         == Success((d * 86400 + 12 * 3600 + 21 * 60 + 45) * MicrosPerSecond)
  {
    var m := (d * 86400 + 12 * 3600 + 21 * 60 + 45) * MicrosPerSecond;
    assert m == (d * 5760 + 2967) * (15 * MicrosPerSecond);
    DtFloorUnique((d * 86400 + 12 * 3600 + 21 * 60 + 47) * MicrosPerSecond, 15 * MicrosPerSecond, m);
  }

  /** A step that is not whole seconds: 10.7 s with a 1.5 s step floors to
      9.0 s, because only the truncated 10 s are reduced, although 10.5 s is
      a later step boundary at or before the time. */
  lemma DtFloorFractionalStep()
    ensures DtFloor(10700000, 1500000) == Success(9000000)
    ensures OnGrid(10500000, 1500000) && 9000000 < 10500000 <= 10700000
  {
    assert 10500000 == 7 * 1500000;
  }

  /** A negative step moves the time forward: 10 s with a step of -15 s
      gives 15 s. */
  lemma DtFloorNegativeStep()
    ensures DtFloor(10000000, -15000000) == Success(15000000)
  {
  }

  /** With a whole-second step the result has no microseconds. */
  lemma DtFloorWholeSeconds(t: nat, stepMicros: int)
    requires stepMicros != 0 && stepMicros % MicrosPerSecond == 0
    ensures DtFloor(t, stepMicros).value % MicrosPerSecond == 0
  {
    var r := DtFloor(t, stepMicros).value;
    var k := stepMicros / MicrosPerSecond;
    var n :| r == n * stepMicros;
    assert stepMicros == k * MicrosPerSecond;
    assert r == (n * k) * MicrosPerSecond;
  }

  // ---- obfuscation utility ----

  /** A waypoint: its time stamp in microseconds and its position. */
  datatype Fix = Fix(at: int, lat: real, lon: real)

  /** The time span of a leg, both ends included. */
  datatype Span = Span(startedAt: int, finishedAt: int)

  function TimesOf(fixes: seq<Fix>): (r: set<int>)
    ensures forall t :: t in r <==> exists f :: f in fixes && f.at == t
  {
    set f | f in fixes :: f.at
  }

  /** Time stamps of the prepared waypoints whose time stamp does not occur
      among the obfuscated ones (the rows the remove mode dropped). */
  function Removed(prepared: seq<Fix>, kept: set<int>): (ts: seq<int>)
    ensures forall t :: t in ts <==> t !in kept && exists f :: f in prepared && f.at == t
  {
    if prepared == [] then []
    else
      var rest := Removed(prepared[1..], kept);
      assert forall f :: f in prepared <==> f == prepared[0] || f in prepared[1..];
      if prepared[0].at in kept then rest else [prepared[0].at] + rest
  }

  predicate Moved(p: Fix, o: Fix)
  {
    p.lat != o.lat || p.lon != o.lon
  }

  /** Time stamps of the prepared waypoints whose position differs from the
      obfuscated waypoint in the same row (the rows the assign mode moved). */
  function Relocated(prepared: seq<Fix>, obfuscated: seq<Fix>): (ts: seq<int>)
    requires |prepared| == |obfuscated|
    ensures forall t :: t in ts <==>
      exists i :: 0 <= i < |prepared| && Moved(prepared[i], obfuscated[i]) && prepared[i].at == t
  {
    if prepared == [] then []
    else
      var rest := Relocated(prepared[1..], obfuscated[1..]);
      assert forall t :: t in rest <==>
        exists i :: 1 <= i < |prepared| && Moved(prepared[i], obfuscated[i]) && prepared[i].at == t by {
        forall t | t in rest
          ensures exists i :: 1 <= i < |prepared| && Moved(prepared[i], obfuscated[i]) && prepared[i].at == t
        {
          var i :| 0 <= i < |prepared| - 1 && Moved(prepared[1..][i], obfuscated[1..][i]) && prepared[1..][i].at == t;
          assert prepared[i + 1] == prepared[1..][i] && obfuscated[i + 1] == obfuscated[1..][i];
        }
        forall t, i | 1 <= i < |prepared| && Moved(prepared[i], obfuscated[i]) && prepared[i].at == t
          ensures t in rest
        {
          assert prepared[1..][i - 1] == prepared[i] && obfuscated[1..][i - 1] == obfuscated[i];
        }
      }
      if Moved(prepared[0], obfuscated[0]) then [prepared[0].at] + rest else rest
  }

  /** The time stamps the obfuscation touched: when the two frames differ in
      size the remove mode is assumed, otherwise the assign mode. */
  function Affected(prepared: seq<Fix>, obfuscated: seq<Fix>): seq<int>
  {
    if |obfuscated| != |prepared| then Removed(prepared, TimesOf(obfuscated))
    else Relocated(prepared, obfuscated)
  }

  /** The number of affected time stamps within a leg's span. */
  function CountWithin(ts: seq<int>, leg: Span): (n: nat)
    ensures n <= |ts|
  {
    if ts == [] then 0
    else (if leg.startedAt <= ts[0] <= leg.finishedAt then 1 else 0) + CountWithin(ts[1..], leg)
  }

  /** A leg is hit when an affected time stamp lies within its span. */
  predicate Hit(ts: seq<int>, leg: Span)
  {
    exists t :: t in ts && leg.startedAt <= t <= leg.finishedAt
  }

  lemma {:induction false} CountWithinPositive(ts: seq<int>, leg: Span)
    ensures CountWithin(ts, leg) > 0 <==> Hit(ts, leg)
  {
    if ts != [] {
      CountWithinPositive(ts[1..], leg);
      if leg.startedAt <= ts[0] <= leg.finishedAt {
        assert ts[0] in ts;
      } else if Hit(ts, leg) {
        var t :| t in ts && leg.startedAt <= t <= leg.finishedAt;
        assert t in ts[1..];
      }
      if Hit(ts[1..], leg) {
        var t :| t in ts[1..] && leg.startedAt <= t <= leg.finishedAt;
        assert t in ts;
      }
    }
  }

  /** The number of legs that are hit. */
  function HitCount(legs: seq<Span>, ts: seq<int>): (n: nat)
    ensures n <= |legs|
  {
    if legs == [] then 0
    else HitCount(legs[..|legs| - 1], ts) + (if Hit(ts, legs[|legs| - 1]) then 1 else 0)
  }

  /** get_obfuscation_utility: one minus the share of legs that are hit;
      without legs the division fails. */
  function Utility(prepared: seq<Fix>, obfuscated: seq<Fix>, legs: seq<Span>): Result<real>
  {
    if |legs| == 0 then Failure(ZeroDivisionError)
    else Success(1.0 - HitCount(legs, Affected(prepared, obfuscated)) as real / |legs| as real)
  }

  method ObfuscationUtility(prepared: seq<Fix>, obfuscated: seq<Fix>, legs: seq<Span>) returns (r: Result<real>)
    ensures r == Utility(prepared, obfuscated, legs)
  {
    var ts := Affected(prepared, obfuscated);
    var count := 0;
    for i := 0 to |legs|
      invariant count == HitCount(legs[..i], ts)
    {
      assert legs[..i + 1][..i] == legs[..i];
      CountWithinPositive(ts, legs[i]);
      if CountWithin(ts, legs[i]) > 0 {
        count := count + 1;
      }
    }
    assert legs[..|legs|] == legs;
    if |legs| == 0 {
      return Failure(ZeroDivisionError);
    }
    r := Success(1.0 - count as real / |legs| as real);
  }

  lemma {:induction false} HitCountNone(legs: seq<Span>, ts: seq<int>)
    ensures HitCount(legs, ts) == 0 <==> forall i :: 0 <= i < |legs| ==> !Hit(ts, legs[i])
  {
    if legs != [] {
      var init := legs[..|legs| - 1];
      HitCountNone(init, ts);
      assert forall i :: 0 <= i < |init| ==> init[i] == legs[i];
    }
  }

  lemma {:induction false} HitCountAll(legs: seq<Span>, ts: seq<int>)
    ensures HitCount(legs, ts) == |legs| <==> forall i :: 0 <= i < |legs| ==> Hit(ts, legs[i])
  {
    if legs != [] {
      var init := legs[..|legs| - 1];
      HitCountAll(init, ts);
      assert forall i :: 0 <= i < |init| ==> init[i] == legs[i];
    }
  }

  /** A share c / n of n items. */
  lemma Share(c: real, n: real)
    requires 0.0 <= c <= n && n > 0.0
    ensures 0.0 <= c / n <= 1.0
    ensures c / n == 1.0 <==> c == n
    ensures c / n == 0.0 <==> c == 0.0
  {
    var x := c / n;
    DivOf(c, x, n);
    if x > 1.0 {
      MulMonotone(1.0, x, n);
    } else if x < 0.0 {
      MulMonotone(x, 0.0, n);
    }
  }

  /** The utility fails exactly when there are no legs, lies in [0, 1]
      otherwise, and is 1 exactly when no leg is hit and 0 exactly when
      every leg is. */
  lemma UtilityRange(prepared: seq<Fix>, obfuscated: seq<Fix>, legs: seq<Span>)
    ensures Utility(prepared, obfuscated, legs).Failure? <==> |legs| == 0
    ensures Utility(prepared, obfuscated, legs).Failure? ==>
      Utility(prepared, obfuscated, legs).error == ZeroDivisionError
    ensures Utility(prepared, obfuscated, legs).Success? ==>
      var u := Utility(prepared, obfuscated, legs).value;
      var ts := Affected(prepared, obfuscated);
      && 0.0 <= u <= 1.0
      && (u == 1.0 <==> forall i :: 0 <= i < |legs| ==> !Hit(ts, legs[i]))
      && (u == 0.0 <==> forall i :: 0 <= i < |legs| ==> Hit(ts, legs[i]))
  {
    if |legs| > 0 {
      var ts := Affected(prepared, obfuscated);
      var hits := HitCount(legs, ts);
      HitCountNone(legs, ts);
      HitCountAll(legs, ts);
      Share(hits as real, |legs| as real);
      assert hits as real == |legs| as real <==> hits == |legs|;
    }
  }

  /** Remove mode: the affected time stamps are those of the dropped rows. */
  lemma AffectedRemoved(prepared: seq<Fix>, obfuscated: seq<Fix>, t: int)
    requires |prepared| != |obfuscated|
    ensures t in Affected(prepared, obfuscated) <==>
      (exists p :: p in prepared && p.at == t) && !(exists o :: o in obfuscated && o.at == t)
  {
  }

  /** An obfuscation that changed nothing leaves every leg untouched. */
  lemma UnchangedFullUtility(prepared: seq<Fix>, legs: seq<Span>)
    requires |legs| > 0
    ensures Utility(prepared, prepared, legs) == Success(1.0)
  {
    var ts := Affected(prepared, prepared);
    HitCountNone(legs, ts);
  }

  // ---- aggregation ----

  /** The default cell size in kilometres and time step in seconds. */
  const DefaultCellKm: real := 0.2
  const DefaultStepSeconds: int := 900

  /** A waypoint of some user. */
  datatype Sample = Sample(userId: string, at: nat, lat: real, lon: real)

  /** The floored time and the cell centre a sample is counted in. */
  type Key = (nat, Point)

  /** The snapped latitude admits converting longitudes back. */
  predicate Snappable(s: Sample, cell: real, cos: Cos)
    requires cell > 0.0
  {
    cos(KmToLat(Snap(LatToKm(s.lat), cell))) != 0.0
  }

  function KeyOf(s: Sample, cell: real, stepMicros: int, cos: Cos): Key
    requires cell > 0.0 && stepMicros != 0 && Snappable(s, cell, cos)
  {
    (DtFloor(s.at, stepMicros).value, AssignCellCenter(s.lat, s.lon, cell, cos))
  }

  predicate AllSnappable(samples: seq<Sample>, cell: real, cos: Cos)
    requires cell > 0.0
  {
    forall s :: s in samples ==> Snappable(s, cell, cos)
  }

  /** The distinct (user, key) rows left by drop_duplicates. */
  function Rows(samples: seq<Sample>, cell: real, stepMicros: int, cos: Cos): set<(string, Key)>
    requires cell > 0.0 && stepMicros != 0 && AllSnappable(samples, cell, cos)
  {
    set s | s in samples :: (s.userId, KeyOf(s, cell, stepMicros, cos))
  }

  /** The users seen at a key. */
  function UsersAt(samples: seq<Sample>, cell: real, stepMicros: int, cos: Cos, k: Key): set<string>
    requires cell > 0.0 && stepMicros != 0 && AllSnappable(samples, cell, cos)
  {
    set s | s in samples && KeyOf(s, cell, stepMicros, cos) == k :: s.userId
  }

  /** aggregate: the rows left after drop_duplicates counted per key; the
      time zone of the first row is read, which fails on an empty frame, and
      then every time is floored, which fails on a zero step. */
  function Aggregate(samples: seq<Sample>, cell: real, stepMicros: int, cos: Cos): (r: Result<map<Key, nat>>)
    requires cell > 0.0 && AllSnappable(samples, cell, cos)
    ensures r.Failure? <==> samples == [] || stepMicros == 0
    ensures samples == [] ==> r == Failure(IndexError)
    ensures samples != [] && stepMicros == 0 ==> r == Failure(ZeroDivisionError)
  {
    if samples == [] then Failure(IndexError)
    else if stepMicros == 0 then Failure(ZeroDivisionError)
    else
      var rows := Rows(samples, cell, stepMicros, cos);
      Success(map k | k in KeysOf(rows) :: |RowsAt(rows, k)|)
  }

  function KeysOf(rows: set<(string, Key)>): set<Key>
  {
    set row | row in rows :: row.1
  }

  function RowsAt(rows: set<(string, Key)>, k: Key): set<(string, Key)>
  {
    set row | row in rows && row.1 == k
  }

  /** The set of pairs (u, k) for u in users has as many elements as users. */
  lemma {:induction false} PairCount(users: set<string>, k: Key)
    ensures |set u | u in users :: (u, k)| == |users|
    decreases |users|
  {
    if users != {} {
      var u :| u in users;
      var rest := users - {u};
      PairCount(rest, k);
      assert (set v | v in users :: (v, k)) == (set v | v in rest :: (v, k)) + {(u, k)};
    }
  }

  /** Each key's count is the number of distinct users seen there, and the
      keys are exactly those of the samples. */
  lemma AggregateCounts(samples: seq<Sample>, cell: real, stepMicros: int, cos: Cos)
    requires cell > 0.0 && stepMicros != 0 && AllSnappable(samples, cell, cos) && samples != []
    ensures var m := Aggregate(samples, cell, stepMicros, cos).value;
      && (forall k :: k in m <==> exists s :: s in samples && KeyOf(s, cell, stepMicros, cos) == k)
      && (forall k :: k in m ==> m[k] == |UsersAt(samples, cell, stepMicros, cos, k)|)
  {
    var m := Aggregate(samples, cell, stepMicros, cos).value;
    var rows := Rows(samples, cell, stepMicros, cos);
    forall k | k in m
      ensures m[k] == |UsersAt(samples, cell, stepMicros, cos, k)|
    {
      var users := UsersAt(samples, cell, stepMicros, cos, k);
      assert RowsAt(rows, k) == (set u | u in users :: (u, k));
      PairCount(users, k);
    }
    forall k | exists s :: s in samples && KeyOf(s, cell, stepMicros, cos) == k
      ensures k in m
    {
      var s :| s in samples && KeyOf(s, cell, stepMicros, cos) == k;
      assert (s.userId, k) in rows;
    }
  }

  /** Every key is a grid time and a cell centre, and every count is at least
      one user. */
  lemma AggregateKeys(samples: seq<Sample>, cell: real, stepMicros: int, cos: Cos)
    requires cell > 0.0 && stepMicros != 0 && AllSnappable(samples, cell, cos) && samples != []
    ensures var m := Aggregate(samples, cell, stepMicros, cos).value;
      forall k :: k in m ==> (OnGrid(k.0, stepMicros) && m[k] >= 1
        && (stepMicros % MicrosPerSecond == 0 ==> k.0 % MicrosPerSecond == 0))
  {
    var m := Aggregate(samples, cell, stepMicros, cos).value;
    forall k | k in m
      ensures OnGrid(k.0, stepMicros) && m[k] >= 1
      ensures stepMicros % MicrosPerSecond == 0 ==> k.0 % MicrosPerSecond == 0
    {
      AggregateCounts(samples, cell, stepMicros, cos);
      var s :| s in samples && KeyOf(s, cell, stepMicros, cos) == k;
      if stepMicros % MicrosPerSecond == 0 {
        DtFloorWholeSeconds(s.at, stepMicros);
      }
      assert s.userId in UsersAt(samples, cell, stepMicros, cos, k);
    }
  }

  /** A second sample of a user in a time step and cell where that user was
      already seen changes no count. */
  lemma DuplicateNoEffect(samples: seq<Sample>, extra: Sample, cell: real, stepMicros: int, cos: Cos)
    requires cell > 0.0 && stepMicros != 0 && AllSnappable(samples, cell, cos) && Snappable(extra, cell, cos)
    requires exists s :: (s in samples && s.userId == extra.userId
      && KeyOf(s, cell, stepMicros, cos) == KeyOf(extra, cell, stepMicros, cos))
    ensures Aggregate(samples + [extra], cell, stepMicros, cos) == Aggregate(samples, cell, stepMicros, cos)
  {
    assert Rows(samples + [extra], cell, stepMicros, cos) == Rows(samples, cell, stepMicros, cos);
  }

  /** The order of the samples does not matter. */
  lemma AggregateOrderFree(samples: seq<Sample>, other: seq<Sample>, cell: real, stepMicros: int, cos: Cos)
    requires cell > 0.0 && stepMicros != 0 && AllSnappable(samples, cell, cos)
    requires multiset(samples) == multiset(other)
    ensures AllSnappable(other, cell, cos)
    ensures Aggregate(samples, cell, stepMicros, cos) == Aggregate(other, cell, stepMicros, cos)
  {
    assert forall s :: s in samples <==> s in other by {
      forall s ensures s in samples <==> s in other {
        assert s in samples <==> s in multiset(samples);
        assert s in other <==> s in multiset(other);
      }
    }
    assert Rows(samples, cell, stepMicros, cos) == Rows(other, cell, stepMicros, cos);
  }
}
