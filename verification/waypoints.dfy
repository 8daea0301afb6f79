/** WaypointsDataFrame.__init__ (mobilipy/waypointsdataframe.py): the entry
    point of the pipeline. It defaults the user id, coerces timestamps,
    removes rows with a duplicate timestamp (keeping the first), sorts by
    timestamp and selects the columns. */
module Waypoints {
  import opened Wrappers
  import opened CivilTime
  import opened Sorting

  /** A row as read: the timestamp text, coordinates, the value of the user
      id column (ignored when the table has no such column) and the optional
      accuracy and speed values (None where the value is missing). */
  datatype RawRow = RawRow(trackedAt: string, longitude: real, latitude: real,
                           userId: int, accuracy: Option<real>, speed: Option<real>)

  datatype RawTable = RawTable(hasUserId: bool, hasAccuracy: bool, hasSpeed: bool, rows: seq<RawRow>)

  /** A row of the frame; trackedAt is None for a timestamp that did not
      parse (NaT). */
  datatype Row = Row(trackedAt: Option<Instant>, longitude: real, latitude: real,
                     userId: int, accuracy: Option<real>, speed: Option<real>)

  datatype Frame = Frame(columns: seq<string>, rows: seq<Row>)

  /** What pd.to_datetime(errors='coerce') followed by tz_localize yields for
      one text: an instant, or None (NaT) instead of an exception. */
  type Parser = string -> Option<Instant>

  ghost predicate ParsesValid(parse: Parser)
  {
    forall s :: parse(s).Some? ==> ValidInstant(parse(s).value)
  }

  predicate ValidRows(rows: seq<Row>)
  {
    forall i :: 0 <= i < |rows| && rows[i].trackedAt.Some? ==> ValidInstant(rows[i].trackedAt.value)
  }

  /** A row's timestamp on the UTC line, None for NaT. */
  function TimeOf(r: Row): Option<int>
  {
    if r.trackedAt.Some? && ValidInstant(r.trackedAt.value) then Some(UtcMicros(r.trackedAt.value)) else None
  }

  /** Two NaT compare equal, as in pandas' duplicated(). */
  predicate SameTime(a: Row, b: Row)
  {
    TimeOf(a) == TimeOf(b)
  }

  function TimeKey(r: Row): real
  {
    if TimeOf(r).Some? then TimeOf(r).value as real else 0.0
  }

  const RequiredColumns: seq<string> := ["tracked_at", "longitude", "latitude", "user_id"]

  /** One raw row with the timestamp coerced and the user id defaulted. */
  function ReadRow(t: RawTable, parse: Parser, r: RawRow): Row
  {
    Row(parse(r.trackedAt), r.longitude, r.latitude,
        if t.hasUserId then r.userId else 0, r.accuracy, r.speed)
  }

  function ReadRows(t: RawTable, parse: Parser): (rows: seq<Row>)
    ensures |rows| == |t.rows|
  {
    seq(|t.rows|, i requires 0 <= i < |t.rows| => ReadRow(t, parse, t.rows[i]))
  }

  /** Some earlier row has the same timestamp as row k. */
  predicate SeenBefore(rows: seq<Row>, k: nat)
    requires k < |rows|
  {
    exists j :: 0 <= j < k && SameTime(rows[j], rows[k])
  }

  /** drop_duplicates(subset='tracked_at'): the rows whose timestamp has not
      been seen before, in their order. */
  function DropDuplicateTimes(rows: seq<Row>): (r: seq<Row>)
    requires ValidRows(rows)
    ensures ValidRows(r)
    ensures |r| <= |rows|
    ensures multiset(r) <= multiset(rows)
    decreases |rows|
  {
    if rows == [] then []
    else
      var init := rows[..|rows| - 1];
      var kept := DropDuplicateTimes(init);
      assert multiset(rows) == multiset(init) + multiset{rows[|rows| - 1]} by {
        assert rows == init + [rows[|rows| - 1]];
      }
      if SeenBefore(rows, |rows| - 1) then kept else kept + [rows[|rows| - 1]]
  }

  /** No two rows share a timestamp. */
  predicate DistinctTimes(rows: seq<Row>)
  {
    forall i, j :: 0 <= i < j < |rows| ==> TimeOf(rows[i]) != TimeOf(rows[j])
  }

  lemma {:induction false} DropDuplicatesDistinct(rows: seq<Row>)
    requires ValidRows(rows)
    ensures DistinctTimes(DropDuplicateTimes(rows))
    decreases |rows|
  {
    if rows != [] {
      var init := rows[..|rows| - 1];
      var last := rows[|rows| - 1];
      DropDuplicatesDistinct(init);
      var kept := DropDuplicateTimes(init);
      if !SeenBefore(rows, |rows| - 1) {
        forall i | 0 <= i < |kept|
          ensures !SameTime(kept[i], last)
        {
          assert kept[i] in multiset(init);
          var j :| 0 <= j < |init| && init[j] == kept[i];
          assert rows[j] == kept[i];
        }
      }
    }
  }

  /** The first row of every timestamp is kept. */
  lemma {:induction false} DropDuplicatesKeepsFirst(rows: seq<Row>, k: nat)
    requires ValidRows(rows) && k < |rows| && !SeenBefore(rows, k)
    ensures rows[k] in DropDuplicateTimes(rows)
    decreases |rows|
  {
    var init := rows[..|rows| - 1];
    if k < |rows| - 1 {
      assert !SeenBefore(init, k) by {
        forall j | 0 <= j < k ensures !SameTime(init[j], init[k]) {
          assert init[j] == rows[j] && init[k] == rows[k];
        }
      }
      DropDuplicatesKeepsFirst(init, k);
    }
  }

  /** Rows with a timestamp, then the NaT rows (sort_values puts NaT last). */
  function Timed(rows: seq<Row>): (r: seq<Row>)
    ensures forall i :: 0 <= i < |r| ==> r[i].trackedAt.Some?
    ensures multiset(r) <= multiset(rows)
  {
    if rows == [] then []
    else
      assert rows == [rows[0]] + rows[1..];
      (if rows[0].trackedAt.Some? then [rows[0]] else []) + Timed(rows[1..])
  }

  function Untimed(rows: seq<Row>): (r: seq<Row>)
    ensures forall i :: 0 <= i < |r| ==> r[i].trackedAt.None?
    ensures multiset(r) <= multiset(rows)
  {
    if rows == [] then []
    else
      assert rows == [rows[0]] + rows[1..];
      (if rows[0].trackedAt.None? then [rows[0]] else []) + Untimed(rows[1..])
  }

  lemma {:induction false} TimedUntimedPermutes(rows: seq<Row>)
    ensures multiset(Timed(rows)) + multiset(Untimed(rows)) == multiset(rows)
  {
    if rows != [] {
      TimedUntimedPermutes(rows[1..]);
      assert rows == [rows[0]] + rows[1..];
    }
  }

  /** sort_values(by='tracked_at'), NaT last. */
  function SortByTime(rows: seq<Row>): (r: seq<Row>)
    ensures multiset(r) == multiset(rows)
  {
    TimedUntimedPermutes(rows);
    SortBy(Timed(rows), TimeKey) + Untimed(rows)
  }

  function OptionalColumns(t: RawTable): seq<string>
  {
    (if t.hasAccuracy then ["accuracy"] else []) + (if t.hasSpeed then ["speed"] else [])
  }

  /** Row a may precede row b: b has no timestamp, or both have one and a's
      is earlier; and at most one of them lacks a timestamp. */
  predicate InOrder(a: Row, b: Row)
  {
    && (TimeOf(b).Some? ==> TimeOf(a).Some? && TimeOf(a).value < TimeOf(b).value)
    && (TimeOf(a).Some? || TimeOf(b).Some?)
  }

  /** Timestamps strictly increase over the timed rows, and NaT rows (at most
      one) come after all of them. */
  predicate TimeOrdered(rows: seq<Row>)
  {
    forall i, j :: 0 <= i < j < |rows| ==> InOrder(rows[i], rows[j])
  }

  /** WaypointsDataFrame(data). */
  function Ingest(t: RawTable, parse: Parser): (f: Frame)
    requires ParsesValid(parse)
    ensures ValidRows(f.rows)
    ensures TimeOrdered(f.rows)
    ensures |f.rows| <= |t.rows|
    ensures multiset(f.rows) <= multiset(ReadRows(t, parse))
    ensures Covers(f.rows, ReadRows(t, parse))
    ensures !t.hasUserId ==> forall i :: 0 <= i < |f.rows| ==> f.rows[i].userId == 0
    ensures f.columns == RequiredColumns + OptionalColumns(t)
  {
    var read := ReadRows(t, parse);
    ReadRowsValid(t, parse);
    DropDuplicatesDistinct(read);
    IngestOrdered(DropDuplicateTimes(read));
    IngestCovers(read);
    DefaultUser(t, parse, SortByTime(DropDuplicateTimes(read)));
    Frame(RequiredColumns + OptionalColumns(t), SortByTime(DropDuplicateTimes(read)))
  }

  lemma DefaultUser(t: RawTable, parse: Parser, rows: seq<Row>)
    requires multiset(rows) <= multiset(ReadRows(t, parse))
    ensures !t.hasUserId ==> forall i :: 0 <= i < |rows| ==> rows[i].userId == 0
  {
    forall i | 0 <= i < |rows| ensures rows[i] in ReadRows(t, parse) {
      assert rows[i] in multiset(rows);
    }
  }

  lemma ReadRowsValid(t: RawTable, parse: Parser)
    requires ParsesValid(parse)
    ensures ValidRows(ReadRows(t, parse))
  {
  }

  /** A value that occurs at least twice sits at two positions. */
  lemma {:induction false} TwoCopies<R>(u: seq<R>, x: R) returns (p: nat, q: nat)
    requires multiset(u)[x] >= 2
    ensures p < q < |u| && u[p] == x && u[q] == x
    decreases |u|
  {
    var init := u[..|u| - 1];
    assert u == init + [u[|u| - 1]];
    if u[|u| - 1] == x {
      assert x in multiset(init);
      p :| 0 <= p < |init| && init[p] == x;
      q := |u| - 1;
    } else {
      p, q := TwoCopies(init, x);
    }
  }

  /** Items drawn from a sequence whose keys are pairwise distinct have
      pairwise distinct keys. */
  lemma SubMultisetDistinct<R, K>(s: seq<R>, u: seq<R>, key: R -> K)
    requires forall i, j :: 0 <= i < j < |u| ==> key(u[i]) != key(u[j])
    requires multiset(s) <= multiset(u)
    ensures forall i, j :: 0 <= i < j < |s| ==> key(s[i]) != key(s[j])
  {
    forall i, j | 0 <= i < j < |s| ensures key(s[i]) != key(s[j]) {
      assert s[i] in multiset(s) && s[j] in multiset(s);
      var p :| 0 <= p < |u| && u[p] == s[i];
      var q :| 0 <= q < |u| && u[q] == s[j];
      if s[i] == s[j] {
        assert s == s[..j] + s[j..];
        assert s[i] in multiset(s[..j]) by { assert s[..j][i] == s[i]; }
        assert s[j] in multiset(s[j..]) by { assert s[j..][0] == s[j]; }
        assert multiset(s)[s[i]] >= 2;
        var p', q' := TwoCopies(u, s[i]);
      } else {
        assert p != q;
      }
    }
  }

  lemma SubMultisetValid(s: seq<Row>, u: seq<Row>)
    requires ValidRows(u) && multiset(s) <= multiset(u)
    ensures ValidRows(s)
  {
    forall i | 0 <= i < |s| && s[i].trackedAt.Some? ensures ValidInstant(s[i].trackedAt.value) {
      assert s[i] in multiset(s);
      var j :| 0 <= j < |u| && u[j] == s[i];
    }
  }

  /** Rows sorted by timestamp with pairwise distinct timestamps are in
      strictly increasing time order. */
  lemma SortedDistinctIncreasing(sorted: seq<Row>)
    requires forall i :: 0 <= i < |sorted| ==> TimeOf(sorted[i]).Some?
    requires SortedBy(sorted, TimeKey) && DistinctTimes(sorted)
    ensures forall i, j :: 0 <= i < j < |sorted| ==> TimeOf(sorted[i]).value < TimeOf(sorted[j]).value
  {
    forall i, j | 0 <= i < j < |sorted| ensures TimeOf(sorted[i]).value < TimeOf(sorted[j]).value {
      assert TimeKey(sorted[i]) <= TimeKey(sorted[j]);
    }
  }

  lemma TimedOrderedConcat(sorted: seq<Row>, untimed: seq<Row>)
    requires forall i :: 0 <= i < |sorted| ==> TimeOf(sorted[i]).Some?
    requires forall i, j :: 0 <= i < j < |sorted| ==> TimeOf(sorted[i]).value < TimeOf(sorted[j]).value
    requires forall i :: 0 <= i < |untimed| ==> TimeOf(untimed[i]).None?
    requires DistinctTimes(untimed)
    ensures TimeOrdered(sorted + untimed)
  {
    var r := sorted + untimed;
    forall i | 0 <= i < |r| ensures TimeOf(r[i]).Some? <==> i < |sorted| {
      if i >= |sorted| { assert r[i] == untimed[i - |sorted|]; }
    }
  }

  lemma IngestOrdered(unique: seq<Row>)
    requires ValidRows(unique) && DistinctTimes(unique)
    ensures ValidRows(SortByTime(unique)) && TimeOrdered(SortByTime(unique))
  {
    var timed := Timed(unique);
    var sorted := SortBy(timed, TimeKey);
    var untimed := Untimed(unique);
    TimedUntimedPermutes(unique);
    SubMultisetDistinct(sorted, unique, TimeOf);
    SubMultisetDistinct(untimed, unique, TimeOf);
    SubMultisetValid(sorted, unique);
    SubMultisetValid(untimed, unique);
    forall i | 0 <= i < |sorted| ensures sorted[i].trackedAt.Some? && TimeOf(sorted[i]).Some? {
      assert sorted[i] in multiset(timed);
    }
    forall i | 0 <= i < |untimed| ensures TimeOf(untimed[i]).None? {
    }
    SortedDistinctIncreasing(sorted);
    TimedOrderedConcat(sorted, untimed);
    SubMultisetValid(sorted + untimed, unique);
  }

  /** Starting from row k, an earliest row with the same timestamp. */
  lemma {:induction false} FirstOccurrence(rows: seq<Row>, k: nat) returns (k0: nat)
    requires k < |rows|
    ensures k0 <= k && SameTime(rows[k0], rows[k]) && !SeenBefore(rows, k0)
    decreases k
  {
    if SeenBefore(rows, k) {
      var j :| 0 <= j < k && SameTime(rows[j], rows[k]);
      k0 := FirstOccurrence(rows, j);
    } else {
      k0 := k;
    }
  }

  /** Every timestamp of `read` occurs in `rows`. */
  ghost predicate Covers(rows: seq<Row>, read: seq<Row>)
  {
    forall k :: 0 <= k < |read| ==> exists i :: 0 <= i < |rows| && SameTime(rows[i], read[k])
  }

  lemma CoversOne(read: seq<Row>, r: seq<Row>, k: nat) returns (i: nat)
    requires ValidRows(read) && k < |read|
    requires multiset(r) == multiset(DropDuplicateTimes(read))
    ensures i < |r| && SameTime(r[i], read[k])
  {
    var k0 := FirstOccurrence(read, k);
    DropDuplicatesKeepsFirst(read, k0);
    assert read[k0] in multiset(r);
    i :| 0 <= i < |r| && r[i] == read[k0];
  }

  lemma IngestCovers(read: seq<Row>)
    requires ValidRows(read)
    ensures Covers(SortByTime(DropDuplicateTimes(read)), read)
  {
    var r := SortByTime(DropDuplicateTimes(read));
    forall k | 0 <= k < |read| ensures exists i :: 0 <= i < |r| && SameTime(r[i], read[k]) {
      var i := CoversOne(read, r, k);
    }
  }
}
