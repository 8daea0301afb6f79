/** GTFS lookups (mobilipy/gtfs_helper.py): stop times past midnight have
    their hour wrapped into 0..23, calendar rows become lists of weekdays,
    stops are bucketed on a longitude/latitude grid, nearby stops are read
    from the 3 x 3 block of buckets around a position, and transfers are
    the nearby pairs of different stops at most 50 m apart. */
module GtfsHelper {
  import opened Wrappers
  import opened Sorting

  /** Walking speed factor applied to a transfer's distance. */
  const WalkSpeedMs: real := 1.0

  /** Longest walk, in metres, that counts as a transfer. */
  const TransferMaxMetres: real := 50.0

  // ---- hour wrap ----

  predicate IsDigit(c: char)
  {
    '0' <= c <= '9'
  }

  function DigitValue(c: char): nat
    requires IsDigit(c)
  {
    (c as int - '0' as int) as nat
  }

  function DigitChar(d: nat): (c: char)
    requires d < 10
    ensures IsDigit(c) && DigitValue(c) == d
  {
    ('0' as int + d) as char
  }

  /** The characters Python's str.isspace accepts, which int() strips from
      both ends of its argument. */
  predicate IsSpace(c: char)
  {
    || c == ' ' || '\t' <= c <= '\r' || '\U{1c}' <= c <= '\U{1f}'
    || c == '\U{85}' || c == '\U{a0}' || c == '\U{1680}' || '\U{2000}' <= c <= '\U{200a}'
    || c == '\U{2028}' || c == '\U{2029}' || c == '\U{202f}' || c == '\U{205f}' || c == '\U{3000}'
  }

  /** int() of the first two characters of a time: one or two decimal digits,
      possibly after a sign or a whitespace character, or followed by a
      whitespace character. */
  function ParseHour(s: string): (r: Result<int>)
    requires |s| <= 2
    ensures r.Failure? ==> r.error == ValueError
    ensures r.Success? ==> -9 <= r.value <= 99
  {
    if |s| == 2 && IsDigit(s[0]) && IsDigit(s[1]) then Success(10 * DigitValue(s[0]) + DigitValue(s[1]))
    else if |s| == 2 && (IsSpace(s[0]) || s[0] == '+') && IsDigit(s[1]) then Success(DigitValue(s[1]))
    else if |s| == 2 && s[0] == '-' && IsDigit(s[1]) then Success(-(DigitValue(s[1]) as int))
    else if |s| == 2 && IsDigit(s[0]) && IsSpace(s[1]) then Success(DigitValue(s[0]))
    else if |s| == 1 && IsDigit(s[0]) then Success(DigitValue(s[0]))
    else Failure(ValueError)
  }

  /** Whitespace on either side of a single digit is stripped, and two
      digits read as a decimal number with any leading zero ignored. */
  lemma ParseHourStrips(c: char, d: char, e: char)
    requires IsSpace(c) && IsDigit(d) && IsDigit(e)
    ensures ParseHour([c, d]) == Success(DigitValue(d))
    ensures ParseHour([d, c]) == Success(DigitValue(d))
    ensures ParseHour([d]) == Success(DigitValue(d))
    ensures ParseHour(['0', d]) == Success(DigitValue(d))
    ensures ParseHour([d, e]) == Success(10 * DigitValue(d) + DigitValue(e))
  {
    assert !IsDigit(c);
  }

  /** str() of an hour: decimal digits without a leading zero. */
  function HourText(h: nat): (s: string)
    requires h < 24
    ensures 1 <= |s| <= 2 && forall i :: 0 <= i < |s| ==> IsDigit(s[i])
    ensures |s| == 2 ==> s[0] != '0'
  {
    if h < 10 then [DigitChar(h)] else [DigitChar(h / 10), DigitChar(h % 10)]
  }

  /** How many leading characters are read as the hour: two, or fewer when
      the text is shorter. */
  function HourPrefix(x: string): (k: nat)
    ensures k <= |x| && k <= 2
  {
    if |x| < 2 then |x| else 2
  }

  /** str(int(x[:2]) % 24) + x[2:]: a GTFS time whose hour is 24 or more (a
      trip running past midnight) gets the hour modulo 24 (Python's modulo,
      never negative), written without a leading zero, and the rest of the
      text is kept; the new leading digits read back as that hour. */
  function WrapHour(x: string): (r: Result<string>)
    ensures r.Failure? <==> ParseHour(x[..HourPrefix(x)]).Failure?
    ensures r.Failure? ==> r.error == ValueError
    ensures r.Success? ==>
      var h := ParseHour(x[..HourPrefix(x)]).value;
      var n := |r.value| - (|x| - HourPrefix(x));
      && 1 <= n <= 2
      && 0 <= h % 24 < 24
      && ParseHour(r.value[..n]) == Success(h % 24)
      && (forall i :: 0 <= i < n ==> IsDigit(r.value[i]))
      && (n == 2 ==> r.value[0] != '0')
      && r.value[n..] == x[HourPrefix(x)..]
  {
    var k := HourPrefix(x);
    match ParseHour(x[..k])
    case Failure(e) => Failure(e)
    case Success(h) =>
      var text := HourText(h % 24);
      HourTextRoundTrip(h % 24);
      var r := text + x[k..];
      assert r[..|text|] == text && r[|text|..] == x[k..];
      Success(r)
  }

  /** Reading an hour's text back gives the hour. */
  lemma HourTextRoundTrip(h: nat)
    requires h < 24
    ensures ParseHour(HourText(h)) == Success(h)
  {
  }

  /** int() strips any whitespace, so a tab before the hour is accepted. */
  lemma WrapTabExample()
    ensures WrapHour("\t5:10:00") == Success("5:10:00")
  {
    assert "\t5:10:00"[..2] == "\t5";
    assert ParseHour("\t5") == Success(5);
    assert HourText(5) == "5";
    assert "\t5:10:00"[2..] == ":10:00";
    assert "5" + ":10:00" == "5:10:00";
  }

  /** The example of a trip past midnight: 25:10:00 becomes 1:10:00. */
  lemma WrapExample()
    ensures WrapHour("25:10:00") == Success("1:10:00")
  {
    assert "25:10:00"[..2] == "25";
    assert ParseHour("25") == Success(25);
    assert HourPrefix("25:10:00") == 2;
    assert HourText(1) == "1";
    assert "25:10:00"[2..] == ":10:00";
    assert "1" + ":10:00" == "1:10:00";
  }

  // ---- calendar weekdays ----

  /** get_days_of_week: the indices in 0..6 of the weekday flags equal to 1,
      in ascending order. */
  method DaysOfWeek(flags: seq<int>) returns (days: seq<nat>)
    requires |flags| == 7
    ensures forall d: nat :: d in days <==> d < 7 && flags[d] == 1
    ensures forall i, j :: 0 <= i < j < |days| ==> days[i] < days[j]
  {
    days := [];
    for i := 0 to 7
      invariant forall d: nat :: d in days <==> d < i && flags[d] == 1
      invariant forall a, b :: 0 <= a < b < |days| ==> days[a] < days[b]
      invariant forall a :: 0 <= a < |days| ==> days[a] < i
    {
      if flags[i] == 1 {
        days := days + [i];
      }
    }
  }

  // ---- buckets ----

  datatype Stop = Stop(id: string, name: string, lon: real, lat: real)

  /** Grid indices of a position: x - x % step is step times floor(x / step). */
  type Bucket = (int, int)

  function BucketOf(lon: real, lat: real, step: real): Bucket
    requires step > 0.0
  {
    ((lon / step).Floor, (lat / step).Floor)
  }

  function StopBucket(s: Stop, step: real): Bucket
    requires step > 0.0
  {
    BucketOf(s.lon, s.lat, step)
  }

  /** The stops of one bucket, in row order. */
  function InBucket(stops: seq<Stop>, b: Bucket, step: real): (r: seq<Stop>)
    requires step > 0.0
    ensures forall s :: s in r <==> s in stops && StopBucket(s, step) == b
    ensures multiset(r) <= multiset(stops)
  {
    if stops == [] then []
    else
      var init := stops[..|stops| - 1];
      var last := stops[|stops| - 1];
      assert stops == init + [last];
      InBucket(init, b, step) + if StopBucket(last, step) == b then [last] else []
  }

  /** The dictionary that setdefault(...).append builds, row by row. */
  function Buckets(stops: seq<Stop>, step: real): map<Bucket, seq<Stop>>
    requires step > 0.0
  {
    if stops == [] then map[]
    else
      var d := Buckets(stops[..|stops| - 1], step);
      var s := stops[|stops| - 1];
      var b := StopBucket(s, step);
      d[b := Lookup(d, b) + [s]]
  }

  /** The buckets present are exactly those of some stop. */
  lemma {:induction false} BucketKeys(stops: seq<Stop>, step: real)
    requires step > 0.0
    ensures forall b :: b in Buckets(stops, step) <==> exists s :: s in stops && StopBucket(s, step) == b
  {
    if stops != [] {
      var init := stops[..|stops| - 1];
      var s := stops[|stops| - 1];
      BucketKeys(init, step);
      forall b ensures b in Buckets(stops, step) <==> exists t :: t in stops && StopBucket(t, step) == b
      {
        if b in Buckets(init, step) {
          var t :| t in init && StopBucket(t, step) == b;
          assert t in stops;
        }
        if exists t :: t in stops && StopBucket(t, step) == b {
          var t :| t in stops && StopBucket(t, step) == b;
          if t != s {
            assert t in init by {
              assert stops == init + [s];
            }
          }
        }
      }
    }
  }

  /** Each bucket holds exactly the stops that fall in it, in row order; a
      bucket that is absent reads as empty. */
  lemma {:induction false} BucketsAreFilters(stops: seq<Stop>, step: real, b: Bucket)
    requires step > 0.0
    ensures Lookup(Buckets(stops, step), b) == InBucket(stops, b, step)
  {
    if stops != [] {
      var init := stops[..|stops| - 1];
      var s := stops[|stops| - 1];
      BucketsAreFilters(init, step, b);
      if b == StopBucket(s, step) {
        assert Lookup(Buckets(stops, step), b) == Lookup(Buckets(init, step), b) + [s];
      } else {
        assert Lookup(Buckets(stops, step), b) == Lookup(Buckets(init, step), b);
      }
    }
  }

  /** Every stop is listed in its own bucket, as often as it occurs among the
      stops, and in no other bucket. */
  lemma StopInOneBucket(stops: seq<Stop>, step: real, s: Stop, b: Bucket)
    requires step > 0.0 && s in stops
    ensures StopBucket(s, step) in Buckets(stops, step)
    ensures multiset(Buckets(stops, step)[StopBucket(s, step)])[s] == multiset(stops)[s]
    ensures b != StopBucket(s, step) ==> s !in Lookup(Buckets(stops, step), b)
  {
    BucketKeys(stops, step);
    BucketsAreFilters(stops, step, StopBucket(s, step));
    BucketsAreFilters(stops, step, b);
    InBucketCount(stops, step, s);
  }

  lemma {:induction false} InBucketCount(stops: seq<Stop>, step: real, s: Stop)
    requires step > 0.0
    ensures multiset(InBucket(stops, StopBucket(s, step), step))[s] == multiset(stops)[s]
  {
    if stops != [] {
      var init := stops[..|stops| - 1];
      assert stops == init + [stops[|stops| - 1]];
      InBucketCount(init, step, s);
    }
  }

  // ---- nearby stops ----

  /** The nine buckets probed around b: longitude offset outer, latitude
      offset inner, each running -1, 0, +1. */
  function Probes(b: Bucket): (r: seq<Bucket>)
    ensures |r| == 9
    ensures forall i :: 0 <= i < 9 ==> r[i] == (b.0 + i / 3 - 1, b.1 + i % 3 - 1)
  {
    seq(9, i requires 0 <= i < 9 => (b.0 + i / 3 - 1, b.1 + i % 3 - 1))
  }

  /** Probe 3 * dx + dy is the bucket dx - 1 columns and dy - 1 rows away. */
  lemma ProbeAt(b: Bucket, dx: int, dy: int)
    requires 0 <= dx < 3 && 0 <= dy < 3
    ensures Probes(b)[3 * dx + dy] == (b.0 + dx - 1, b.1 + dy - 1)
  {
    var i := 3 * dx + dy;
    assert i / 3 == dx && i % 3 == dy;
  }

  /** The nine probes are nine different buckets, and they are exactly the
      buckets at most one step away in each direction. */
  lemma ProbesCover(b: Bucket, c: Bucket)
    ensures forall i, j :: 0 <= i < j < 9 ==> Probes(b)[i] != Probes(b)[j]
    ensures c in Probes(b) <==> -1 <= c.0 - b.0 <= 1 && -1 <= c.1 - b.1 <= 1
  {
    if -1 <= c.0 - b.0 <= 1 && -1 <= c.1 - b.1 <= 1 {
      var i := 3 * (c.0 - b.0 + 1) + (c.1 - b.1 + 1);
      assert Probes(b)[i] == c;
    }
  }

  /** What dict.get(key, []) returns. */
  function Lookup(dic: map<Bucket, seq<Stop>>, b: Bucket): seq<Stop>
  {
    if b in dic then dic[b] else []
  }

  /** The concatenated lists of the first n probes. */
  function Gathered(dic: map<Bucket, seq<Stop>>, probes: seq<Bucket>, n: nat): seq<Stop>
    requires n <= |probes|
  {
    if n == 0 then [] else Gathered(dic, probes, n - 1) + Lookup(dic, probes[n - 1])
  }

  /** A stop is gathered exactly when it is in the list of one of the first
      n probes. */
  lemma {:induction false} GatheredHas(dic: map<Bucket, seq<Stop>>, probes: seq<Bucket>, n: nat, s: Stop)
    requires n <= |probes|
    ensures s in Gathered(dic, probes, n) <==> exists i :: 0 <= i < n && s in Lookup(dic, probes[i])
  {
    if n > 0 {
      GatheredHas(dic, probes, n - 1, s);
      if exists i :: 0 <= i < n && s in Lookup(dic, probes[i]) {
        var i :| 0 <= i < n && s in Lookup(dic, probes[i]);
        if i < n - 1 {
          assert s in Gathered(dic, probes, n - 1);
        }
      }
    }
  }

  /** A stop is near a position when its bucket is one of the nine probed. */
  predicate NearBucket(s: Stop, b: Bucket, step: real)
    requires step > 0.0
  {
    var c := StopBucket(s, step);
    -1 <= c.0 - b.0 <= 1 && -1 <= c.1 - b.1 <= 1
  }

  class Helper {
    const step: real
    var stops: seq<Stop>
    var stopsDic: map<Bucket, seq<Stop>>
    var transfers: seq<Transfer>

    ghost predicate Valid()
      reads this
    {
      step > 0.0 && stopsDic == Buckets(stops, step)
    }

    /** The bucketing loop of the constructor, then get_transfers. */
    constructor(stops: seq<Stop>, step: real, dist: Distance)
      requires step > 0.0
      ensures Valid() && this.step == step && this.stops == stops
      ensures transfers == TransfersOf(stops, stopsDic, step, dist)
    {
      this.step := step;
      this.stops := stops;
      var dic: map<Bucket, seq<Stop>> := map[];
      for i := 0 to |stops|
        invariant dic == Buckets(stops[..i], step)
      {
        assert stops[..i + 1][..i] == stops[..i];
        var b := StopBucket(stops[i], step);
        dic := dic[b := Lookup(dic, b) + [stops[i]]];
      }
      assert stops[..|stops|] == stops;
      this.stopsDic := dic;
      new;
      GetTransfers(dist);
    }

    /** get_nearby_stops: the stops of the nine buckets around the position,
        bucket by bucket. */
    method NearbyStops(lon: real, lat: real) returns (output: seq<Stop>)
      requires Valid()
      ensures output == Gathered(stopsDic, Probes(BucketOf(lon, lat, step)), 9)
    {
      var b := BucketOf(lon, lat, step);
      var probes := Probes(b);
      output := [];
      for dx := 0 to 3
        invariant output == Gathered(stopsDic, probes, 3 * dx)
      {
        for dy := 0 to 3
          invariant output == Gathered(stopsDic, probes, 3 * dx + dy)
        {
          ProbeAt(b, dx, dy);
          output := output + Lookup(stopsDic, (b.0 + dx - 1, b.1 + dy - 1));
        }
      }
    }

    /** get_n_closest_stops: the nearby stops sorted by distance from the
        position, then head(n). */
    method ClosestStops(lon: real, lat: real, n: int, dist: Distance) returns (r: seq<Stop>)
      requires Valid()
      ensures r == Closest(Gathered(stopsDic, Probes(BucketOf(lon, lat, step)), 9), (lat, lon), n, dist)
    {
      var nearby := NearbyStops(lon, lat);
      r := Closest(nearby, (lat, lon), n, dist);
    }

    /** get_transfers, storing the result. */
    method GetTransfers(dist: Distance)
      requires Valid()
      modifies this
      ensures Valid() && stops == old(stops) && stopsDic == old(stopsDic)
      ensures transfers == TransfersOf(stops, stopsDic, step, dist)
    {
      transfers := TransfersOf(stops, stopsDic, step, dist);
    }
  }

  /** With the dictionary built from the stops, the nearby stops are exactly
      the stops whose bucket is among the nine probed. */
  lemma NearbyAreNear(stops: seq<Stop>, step: real, b: Bucket, s: Stop)
    requires step > 0.0
    ensures s in Gathered(Buckets(stops, step), Probes(b), 9) <==> s in stops && NearBucket(s, b, step)
  {
    var dic := Buckets(stops, step);
    var c := StopBucket(s, step);
    ProbesCover(b, c);
    GatheredHas(dic, Probes(b), 9, s);
    if s in Gathered(dic, Probes(b), 9) {
      var i :| 0 <= i < 9 && s in Lookup(dic, Probes(b)[i]);
      BucketsAreFilters(stops, step, Probes(b)[i]);
      assert c == Probes(b)[i];
    }
    if s in stops && NearBucket(s, b, step) {
      var i :| 0 <= i < 9 && Probes(b)[i] == c;
      BucketsAreFilters(stops, step, c);
      assert s in Lookup(dic, Probes(b)[i]);
    }
  }

  // ---- closest stops ----

  /** Distance in metres between two positions given as (lat, lon). */
  type Distance = ((real, real), (real, real)) -> real

  /** head(n): the first n rows, or all but the last -n rows when n is
      negative. */
  function Head<T>(s: seq<T>, n: int): (r: seq<T>)
    ensures n >= 0 ==> |r| == if n < |s| then n else |s|
    ensures n < 0 ==> |r| == if |s| + n < 0 then 0 else |s| + n
    ensures r == s[..|r|]
  {
    if n >= 0 then s[..if n < |s| then n else |s|]
    else s[..if |s| + n < 0 then 0 else |s| + n]
  }

  /** The distance of a stop from a position. */
  function DistanceFrom(at: (real, real), dist: Distance): Stop -> real
  {
    (s: Stop) => dist((s.lat, s.lon), at)
  }

  function Closest(nearby: seq<Stop>, at: (real, real), n: int, dist: Distance): seq<Stop>
  {
    Head(SortBy(nearby, DistanceFrom(at, dist)), n)
  }

  /** At most n stops (for n >= 0), in ascending distance, drawn from the
      nearby stops, and none of the nearby stops left out is closer than a
      returned one. */
  lemma ClosestAreClosest(nearby: seq<Stop>, at: (real, real), n: int, dist: Distance)
    ensures var r := Closest(nearby, at, n, dist);
      && (n >= 0 ==> |r| == if n < |nearby| then n else |nearby|)
      && (forall i, j :: 0 <= i < j < |r| ==> dist((r[i].lat, r[i].lon), at) <= dist((r[j].lat, r[j].lon), at))
      && multiset(r) <= multiset(nearby)
      && forall s, t :: s in r && t in multiset(nearby) - multiset(r) ==>
           dist((s.lat, s.lon), at) <= dist((t.lat, t.lon), at)
  {
    var key := DistanceFrom(at, dist);
    var sorted := SortBy(nearby, key);
    var r := Closest(nearby, at, n, dist);
    PrefixLeast(sorted, key, |r|);
    assert r == sorted[..|r|];
  }

  /** A prefix of a sorted sequence holds the least elements: nothing after
      it has a smaller key. */
  lemma PrefixLeast<T>(sorted: seq<T>, key: T -> real, k: nat)
    requires k <= |sorted| && SortedBy(sorted, key)
    ensures multiset(sorted[..k]) <= multiset(sorted)
    ensures forall s, t :: s in sorted[..k] && t in multiset(sorted) - multiset(sorted[..k]) ==> key(s) <= key(t)
  {
    var r := sorted[..k];
    assert sorted == r + sorted[k..];
    assert multiset(sorted) == multiset(r) + multiset(sorted[k..]);
    forall s, t | s in r && t in multiset(sorted) - multiset(r)
      ensures key(s) <= key(t)
    {
      assert t in sorted[k..];
      var i :| 0 <= i < k && r[i] == s;
      var j :| 0 <= j < |sorted| - k && sorted[k..][j] == t;
      assert sorted[i] == s && sorted[k + j] == t;
    }
  }

  // ---- transfers ----

  /** A row of the transfers table. */
  datatype Transfer = Transfer(from: Stop, to: Stop, distance: real, timeS: real)

  /** The transfers from one stop: its nearby stops with another id, at most
      50 m away, in the order found. */
  function TransfersFrom(s: Stop, neighbours: seq<Stop>, dist: Distance): (r: seq<Transfer>)
    ensures forall t :: t in r <==> exists m :: m in neighbours && t == Link(s, m, dist) && Admits(t)
  {
    if neighbours == [] then []
    else
      var init := neighbours[..|neighbours| - 1];
      var m := neighbours[|neighbours| - 1];
      assert forall x :: x in neighbours <==> x in init || x == m;
      var t := Link(s, m, dist);
      TransfersFrom(s, init, dist) + if Admits(t) then [t] else []
  }

  function Link(s: Stop, m: Stop, dist: Distance): Transfer
  {
    var d := dist((s.lat, s.lon), (m.lat, m.lon));
    Transfer(s, m, d, d * WalkSpeedMs)
  }

  /** The filter: another stop, within 50 m. */
  predicate Admits(t: Transfer)
  {
    t.from.id != t.to.id && t.distance <= TransferMaxMetres
  }

  /** The transfers of the first n stops, from(s) being those of stop s. */
  function TransfersUpTo(stops: seq<Stop>, n: nat, from: Stop -> seq<Transfer>): seq<Transfer>
    requires n <= |stops|
  {
    if n == 0 then [] else TransfersUpTo(stops, n - 1, from) + from(stops[n - 1])
  }

  /** A transfer is among those of the first n stops exactly when it is one
      of the transfers of one of them. */
  lemma {:induction false} TransfersUpToHas(stops: seq<Stop>, n: nat, from: Stop -> seq<Transfer>, t: Transfer)
    requires n <= |stops|
    ensures t in TransfersUpTo(stops, n, from) <==> exists i :: 0 <= i < n && t in from(stops[i])
  {
    if n > 0 {
      TransfersUpToHas(stops, n - 1, from, t);
      if exists i :: 0 <= i < n && t in from(stops[i]) {
        var i :| 0 <= i < n && t in from(stops[i]);
        if i < n - 1 {
          assert t in TransfersUpTo(stops, n - 1, from);
        }
      }
    }
  }

  /** The transfers from stop s to its nearby stops. */
  function FromStop(s: Stop, dic: map<Bucket, seq<Stop>>, step: real, dist: Distance): seq<Transfer>
    requires step > 0.0
  {
    TransfersFrom(s, Gathered(dic, Probes(StopBucket(s, step)), 9), dist)
  }

  /** get_transfers: every stop paired with each of its nearby stops, then
      filtered; the walking time is the distance times the walking speed. */
  function TransfersOf(stops: seq<Stop>, dic: map<Bucket, seq<Stop>>, step: real, dist: Distance): seq<Transfer>
    requires step > 0.0
  {
    TransfersUpTo(stops, |stops|, (s: Stop) => FromStop(s, dic, step, dist))
  }

  /** A transfer joins two stops with different ids whose buckets are
      neighbours, at most 50 m apart, and takes as many seconds as metres. */
  lemma TransferFacts(stops: seq<Stop>, step: real, dist: Distance, t: Transfer)
    requires step > 0.0
    ensures t in TransfersOf(stops, Buckets(stops, step), step, dist) <==>
      && t.from in stops && t.to in stops
      && NearBucket(t.to, StopBucket(t.from, step), step)
      && t == Link(t.from, t.to, dist) && Admits(t)
  {
    var dic := Buckets(stops, step);
    TransfersUpToHas(stops, |stops|, (s: Stop) => FromStop(s, dic, step, dist), t);
    if t in TransfersOf(stops, dic, step, dist) {
      var i :| 0 <= i < |stops| && t in FromStop(stops[i], dic, step, dist);
      var m :| m in Gathered(dic, Probes(StopBucket(stops[i], step)), 9) && t == Link(stops[i], m, dist) && Admits(t);
      NearbyAreNear(stops, step, StopBucket(stops[i], step), m);
    }
    if && t.from in stops && t.to in stops
       && NearBucket(t.to, StopBucket(t.from, step), step)
       && t == Link(t.from, t.to, dist) && Admits(t) {
      var i :| 0 <= i < |stops| && stops[i] == t.from;
      NearbyAreNear(stops, step, StopBucket(stops[i], step), t.to);
      assert t in FromStop(stops[i], dic, step, dist);
    }
  }

  /** With a symmetric distance every transfer has its reverse. */
  lemma TransfersSymmetric(stops: seq<Stop>, step: real, dist: Distance, t: Transfer)
    requires step > 0.0
    requires forall p, q :: dist(p, q) == dist(q, p)
    requires t in TransfersOf(stops, Buckets(stops, step), step, dist)
    ensures Transfer(t.to, t.from, t.distance, t.timeS) in TransfersOf(stops, Buckets(stops, step), step, dist)
  {
    TransferFacts(stops, step, dist, t);
    var u := Transfer(t.to, t.from, t.distance, t.timeS);
    assert u == Link(t.to, t.from, dist);
    TransferFacts(stops, step, dist, u);
  }
}
