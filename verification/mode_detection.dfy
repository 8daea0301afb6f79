/** mode_detection (mobilipy/mode_detection.py): inside every trip run a scan
    marks slow, smooth stretches as walks; every trip run that remains gets
    a transport mode from a fuzzy decision table over three statistics of
    the run; walks get the mode "Walk". */
module ModeDetection {
  import opened Wrappers
  import opened Seqs
  import opened Runs
  import opened Segmentation

  // ---- the walk scan (_detect_walks) ----

  /** speed_th, acceleration_th, minimal_walking_duration,
      minimal_trip_duration. */
  datatype WalkParams = WalkParams(speedTh: real, accTh: real, minWalk: real, minTrip: real)

  const DefaultWalkParams: WalkParams := WalkParams(2.78, 0.5, 100.0, 120.0)

  /** A statistic of a column (the median, or the 95th percentile). */
  type Stat = seq<real> -> real

  /** The columns of one trip run that the scan reads. */
  datatype RunData = RunData(speed: seq<real>, acc: seq<real>, td: seq<real>)

  predicate WellFormed(d: RunData)
  {
    |d.speed| == |d.td| && |d.acc| == |d.td|
  }

  /** The scan's variables: position i, the window [lo, i), its summed
      time_delta and its two running medians. */
  datatype ScanState = ScanState(i: nat, lo: nat, time: real, medSpeed: real, medAcc: real)

  /** The state after the window is cleared, with the scan at position i. */
  function Reset(i: nat): ScanState
  {
    ScanState(i, i, 0.0, 0.0, 0.0)
  }

  /** What the scan keeps true of its variables: the window is the block of
      positions just before i, window_time is its summed time_delta, and the
      medians are those of the window, or 0 when it is empty. */
  predicate ScanInv(d: RunData, med: Stat, st: ScanState)
  {
    && WellFormed(d)
    && st.lo <= st.i <= |d.td|
    && st.time == Sum(d.td[st.lo..st.i])
    && (st.lo == st.i ==> st.medSpeed == 0.0 && st.medAcc == 0.0)
    && (st.lo < st.i ==> st.medSpeed == med(d.speed[st.lo..st.i]) && st.medAcc == med(d.acc[st.lo..st.i]))
  }

  /** The relabelling rule for a closed window [lo, hi), with the source's
      four branches, elements_after counted as len - window[-1] + 1. */
  predicate WalkGate(d: RunData, p: WalkParams, lo: nat, hi: nat)
    requires lo < hi <= |d.td|
  {
    var before := Sum(d.td[..lo]);
    var after := Sum(d.td[hi..]);
    var elementsBefore := lo;
    var elementsAfter := |d.td| - (hi - 1) + 1;
    || (elementsBefore == 0 && elementsAfter == 0)
    || (elementsBefore == 0 && after >= p.minTrip)
    || (elementsAfter == 0 && before >= p.minTrip)
    || (before >= p.minTrip && after >= p.minTrip)
  }

  /** The windows the scan relabels as walks, from state st on. */
  function Windows(d: RunData, p: WalkParams, med: Stat, st: ScanState): seq<(nat, nat)>
    requires WellFormed(d) && st.lo <= st.i <= |d.td|
    decreases |d.td| - st.i, if st.lo < st.i then 1 else 0
  {
    if st.i >= |d.td| then []
    else
      var current := d.speed[st.i] <= p.speedTh && d.acc[st.i] <= p.accTh;
      var existing := st.medSpeed <= p.speedTh && st.medAcc <= p.accTh;
      if !current && !existing then
        if st.lo < st.i && st.time >= p.minWalk then
          (if WalkGate(d, p, st.lo, st.i) then [(st.lo, st.i)] else []) + Windows(d, p, med, Reset(st.i))
        else
          Windows(d, p, med, Reset(st.i + 1))
      else
        Windows(d, p, med, ScanState(st.i + 1, st.lo, st.time + d.td[st.i],
                                     med(d.speed[st.lo..st.i + 1]), med(d.acc[st.lo..st.i + 1])))
  }

  function WalkWindows(d: RunData, p: WalkParams, med: Stat): seq<(nat, nat)>
    requires WellFormed(d)
  {
    Windows(d, p, med, Reset(0))
  }

  /** Position k lies in one of the windows. */
  predicate InWindows(ws: seq<(nat, nat)>, k: nat)
    decreases |ws|
  {
    ws != [] && (InWindows(ws[..|ws| - 1], k) || ws[|ws| - 1].0 <= k < ws[|ws| - 1].1)
  }

  lemma InWindowsAppend(ws: seq<(nat, nat)>, w: (nat, nat), k: nat)
    ensures InWindows(ws + [w], k) <==> InWindows(ws, k) || w.0 <= k < w.1
  {
    assert (ws + [w])[..|ws|] == ws;
  }

  /** A relabelled window: a non-empty block [lo, hi) of positions lasting
      minimal_walking_duration, closed by the element at hi, which
      lies inside the run and which neither it nor the window's medians let
      through, with enough trip time after it and, unless it starts the
      run, before it. */
  predicate IsWalkWindow(d: RunData, p: WalkParams, med: Stat, lo: nat, hi: nat)
  {
    && WellFormed(d)
    && lo < hi < |d.td|
    && Sum(d.td[lo..hi]) >= p.minWalk
    && Sum(d.td[hi..]) >= p.minTrip
    && (lo == 0 || Sum(d.td[..lo]) >= p.minTrip)
    && (d.speed[hi] > p.speedTh || d.acc[hi] > p.accTh)
    && (med(d.speed[lo..hi]) > p.speedTh || med(d.acc[lo..hi]) > p.accTh)
  }

  /** The windows lie in order, each ending before the next starts. */
  predicate Ordered(ws: seq<(nat, nat)>)
  {
    forall j, j' :: 0 <= j < j' < |ws| ==> ws[j].1 <= ws[j'].0
  }

  /** elements_after is at least 2 for every closed window, so the gate is:
      enough trip time after, and the window starts the run or has enough
      trip time before. */
  lemma WalkGateSimplified(d: RunData, p: WalkParams, lo: nat, hi: nat)
    requires lo < hi <= |d.td|
    ensures |d.td| - (hi - 1) + 1 >= 2
    ensures WalkGate(d, p, lo, hi) <==>
      Sum(d.td[hi..]) >= p.minTrip && (lo == 0 || Sum(d.td[..lo]) >= p.minTrip)
  {
    if lo == 0 {
      assert d.td[..lo] == [];
    }
  }

  /** ws are walk windows in order, none starting before from. */
  predicate AllWalks(d: RunData, p: WalkParams, med: Stat, ws: seq<(nat, nat)>, from: nat)
  {
    && Ordered(ws)
    && forall j :: 0 <= j < |ws| ==> from <= ws[j].0 && IsWalkWindow(d, p, med, ws[j].0, ws[j].1)
  }

  lemma AllWalksCons(d: RunData, p: WalkParams, med: Stat, w: (nat, nat), rest: seq<(nat, nat)>, from: nat)
    requires from <= w.0 && IsWalkWindow(d, p, med, w.0, w.1)
    requires AllWalks(d, p, med, rest, w.1)
    ensures AllWalks(d, p, med, [w] + rest, from)
  {
    var ws := [w] + rest;
    OrderedCons(w, rest);
    forall j | 0 <= j < |ws| ensures from <= ws[j].0 && IsWalkWindow(d, p, med, ws[j].0, ws[j].1) {
      if j > 0 {
        assert ws[j] == rest[j - 1];
      }
    }
  }

  lemma OrderedCons(w: (nat, nat), rest: seq<(nat, nat)>)
    requires Ordered(rest) && forall j :: 0 <= j < |rest| ==> w.1 <= rest[j].0
    requires w.0 <= w.1
    ensures Ordered([w] + rest)
  {
    var ws := [w] + rest;
    forall j, j' | 0 <= j < j' < |ws| ensures ws[j].1 <= ws[j'].0 {
      assert ws[j'] == rest[j' - 1];
      if j > 0 {
        assert ws[j] == rest[j - 1];
      }
    }
  }

  /** Every window the scan relabels is a walk window, they come in order,
      and none starts before the current window. */
  lemma {:induction false} WindowsAreWalks(d: RunData, p: WalkParams, med: Stat, st: ScanState)
    requires ScanInv(d, med, st)
    ensures AllWalks(d, p, med, Windows(d, p, med, st), st.lo)
    decreases |d.td| - st.i, if st.lo < st.i then 1 else 0
  {
    if st.i < |d.td| {
      var current := d.speed[st.i] <= p.speedTh && d.acc[st.i] <= p.accTh;
      var existing := st.medSpeed <= p.speedTh && st.medAcc <= p.accTh;
      if !current && !existing {
        var long := st.lo < st.i && st.time >= p.minWalk;
        CloseStep(d, p, med, st, long);
        var next := Reset(if long then st.i else st.i + 1);
        WindowsAreWalks(d, p, med, next);
        if long && WalkGate(d, p, st.lo, st.i) {
          WalkGateSimplified(d, p, st.lo, st.i);
          AllWalksCons(d, p, med, (st.lo, st.i), Windows(d, p, med, next), st.lo);
        } else {
          assert Windows(d, p, med, st) == Windows(d, p, med, next);
        }
      } else {
        GrowStep(d, p, med, st);
        WindowsAreWalks(d, p, med, ScanState(st.i + 1, st.lo, st.time + d.td[st.i],
                                             med(d.speed[st.lo..st.i + 1]), med(d.acc[st.lo..st.i + 1])));
      }
    }
  }

  /** The labels of a run after the scan: walk inside the relabelled
      windows, unchanged elsewhere. */
  lemma WalkWindowsShape(d: RunData, p: WalkParams, med: Stat)
    requires WellFormed(d)
    ensures AllWalks(d, p, med, WalkWindows(d, p, med), 0)
  {
    assert d.td[0..0] == [];
    WindowsAreWalks(d, p, med, Reset(0));
  }

  /** A window still open when the scan reaches the end of the run is
      dropped: no relabelled window reaches the last position. */
  lemma OpenWindowNotFlushed(d: RunData, p: WalkParams, med: Stat)
    requires WellFormed(d) && |d.td| > 0
    ensures !InWindows(WalkWindows(d, p, med), |d.td| - 1)
  {
    WalkWindowsShape(d, p, med);
    NotInShortWindows(WalkWindows(d, p, med), |d.td| - 1);
  }

  lemma {:induction false} NotInShortWindows(ws: seq<(nat, nat)>, k: nat)
    requires forall j :: 0 <= j < |ws| ==> ws[j].1 <= k
    ensures !InWindows(ws, k)
    decreases |ws|
  {
    if ws != [] {
      NotInShortWindows(ws[..|ws| - 1], k);
    }
  }

  /** With non-negative thresholds a cleared window takes the next element
      whatever it is: the reset medians of 0 pass the test. */
  lemma ResetAcceptsNext(d: RunData, p: WalkParams, med: Stat, i: nat)
    requires WellFormed(d) && i < |d.td| && p.speedTh >= 0.0 && p.accTh >= 0.0
    ensures Windows(d, p, med, Reset(i)) ==
      Windows(d, p, med, ScanState(i + 1, i, d.td[i], med(d.speed[i..i + 1]), med(d.acc[i..i + 1])))
  {
  }

  /** The window as the source keeps it: the positions i-|window| .. i-1. */
  predicate Consecutive(window: seq<nat>, i: nat)
  {
    |window| <= i && forall k :: 0 <= k < |window| ==> window[k] == i - |window| + k
  }

  lemma PickConsecutive(s: seq<real>, window: seq<nat>, i: nat)
    requires Consecutive(window, i) && i <= |s|
    ensures Pick(s, window) == s[i - |window|..i]
  {
  }

  /** One step that grows the window leaves the relabelled windows as they
      were and keeps the scan's invariant. */
  lemma GrowStep(d: RunData, p: WalkParams, med: Stat, st: ScanState)
    requires ScanInv(d, med, st) && st.i < |d.td|
    requires (d.speed[st.i] <= p.speedTh && d.acc[st.i] <= p.accTh) || (st.medSpeed <= p.speedTh && st.medAcc <= p.accTh)
    ensures ScanInv(d, med, ScanState(st.i + 1, st.lo, st.time + d.td[st.i],
                                      med(d.speed[st.lo..st.i + 1]), med(d.acc[st.lo..st.i + 1])))
    ensures Windows(d, p, med, st) ==
      Windows(d, p, med, ScanState(st.i + 1, st.lo, st.time + d.td[st.i],
                                   med(d.speed[st.lo..st.i + 1]), med(d.acc[st.lo..st.i + 1])))
  {
    SumExtend(d.td, st.lo, st.i);
  }

  /** A step that closes the window: it is relabelled if long enough and
      the gate passes, and the scan resumes at the breaking element after a
      long window, past it after a short one. */
  lemma CloseStep(d: RunData, p: WalkParams, med: Stat, st: ScanState, long: bool)
    requires ScanInv(d, med, st) && st.i < |d.td|
    requires !(d.speed[st.i] <= p.speedTh && d.acc[st.i] <= p.accTh) && !(st.medSpeed <= p.speedTh && st.medAcc <= p.accTh)
    requires long <==> st.lo < st.i && st.time >= p.minWalk
    ensures ScanInv(d, med, Reset(if long then st.i else st.i + 1))
    ensures Windows(d, p, med, st) ==
      (if long && WalkGate(d, p, st.lo, st.i) then [(st.lo, st.i)] else [])
      + Windows(d, p, med, Reset(if long then st.i else st.i + 1))
  {
    var j := if long then st.i else st.i + 1;
    assert d.td[j..j] == [];
  }

  /** The branch of _detect_walks that meets an element failing both
      tests: a window lasting minimal_walking_duration is written over with
      "walk" if the gate passes, and the scan resumes at the breaking
      element; otherwise it resumes after it. */
  method CloseWindow(det: array<Detection>, d: RunData, p: WalkParams, window: seq<nat>, i: nat, windowTime: real)
    returns (resume: nat)
    requires WellFormed(d) && det.Length == |d.td| && i < |d.td| && Consecutive(window, i)
    modifies det
    ensures resume == if |window| > 0 && windowTime >= p.minWalk then i else i + 1
    ensures forall x :: 0 <= x < det.Length ==>
      det[x] == if |window| > 0 && windowTime >= p.minWalk && WalkGate(d, p, i - |window|, i) && i - |window| <= x < i
                then Walk else old(det[x])
  {
    var n := |d.td|;
    if |window| > 0 && windowTime >= p.minWalk {
      var tripBeforeTime := Sum(d.td[..window[0]]);
      var tripAfterTime := Sum(d.td[window[|window| - 1] + 1..]);
      var elementsBefore := window[0];
      var elementsAfter := n - window[|window| - 1] + 1;
      if || (elementsBefore == 0 && elementsAfter == 0)
         || (elementsBefore == 0 && tripAfterTime >= p.minTrip)
         || (elementsAfter == 0 && tripBeforeTime >= p.minTrip)
         || (tripBeforeTime >= p.minTrip && tripAfterTime >= p.minTrip)
      {
        for k := 0 to |window|
          invariant forall x :: 0 <= x < det.Length ==>
            det[x] == if i - |window| <= x < i - |window| + k then Walk else old(det[x])
        {
          det[window[k]] := Walk;
        }
      }
      resume := window[|window| - 1] + 1;
    } else {
      resume := i + 1;
    }
  }

  /** The window a closing step relabels: none, or [lo, i) when it is long
      and the gate passes. */
  function Found(d: RunData, p: WalkParams, st: ScanState, long: bool): seq<(nat, nat)>
    requires st.i <= |d.td|
  {
    if long && st.lo < st.i && WalkGate(d, p, st.lo, st.i) then [(st.lo, st.i)] else []
  }

  /** The scan's variables as a state: the window is the block just before i. */
  function StateOf(i: nat, window: seq<nat>, time: real, speedMedian: real, accMedian: real): ScanState
  {
    ScanState(i, if |window| <= i then i - |window| else 0, time, speedMedian, accMedian)
  }

  /** The invariant of the loop of DetectWalks: the variables describe a
      state of the scan, done holds the windows already relabelled and the
      ones still to come complete them, and cur is orig with "walk" written
      over the positions of done. */
  ghost predicate Scanning(d: RunData, p: WalkParams, med: Stat, i: nat, window: seq<nat>, time: real,
                           speedMedian: real, accMedian: real, done: seq<(nat, nat)>,
                           cur: seq<Detection>, orig: seq<Detection>)
  {
    && i <= |d.td| && Consecutive(window, i)
    && ScanInv(d, med, StateOf(i, window, time, speedMedian, accMedian))
    && done + Windows(d, p, med, StateOf(i, window, time, speedMedian, accMedian)) == WalkWindows(d, p, med)
    && |cur| == |orig| == |d.td|
    && forall k :: 0 <= k < |cur| ==> cur[k] == if InWindows(done, k) then Walk else orig[k]
  }

  lemma ScanStart(d: RunData, p: WalkParams, med: Stat, orig: seq<Detection>)
    requires WellFormed(d) && |orig| == |d.td|
    ensures Scanning(d, p, med, 0, [], 0.0, 0.0, 0.0, [], orig, orig)
  {
    assert d.td[0..0] == [];
  }

  /** When the scan has reached the end, done holds every window. */
  lemma ScanEnd(d: RunData, p: WalkParams, med: Stat, window: seq<nat>, time: real, speedMedian: real,
                accMedian: real, done: seq<(nat, nat)>, cur: seq<Detection>, orig: seq<Detection>)
    requires Scanning(d, p, med, |d.td|, window, time, speedMedian, accMedian, done, cur, orig)
    ensures forall k :: 0 <= k < |cur| ==> cur[k] == if InWindows(WalkWindows(d, p, med), k) then Walk else orig[k]
  {
    assert Windows(d, p, med, StateOf(|d.td|, window, time, speedMedian, accMedian)) == [];
    assert done == WalkWindows(d, p, med);
  }

  /** A closing step of the loop keeps its invariant: CloseWindow has written
      the window found, if any, and the scan resumes with an empty window. */
  lemma CloseScanning(d: RunData, p: WalkParams, med: Stat, i: nat, window: seq<nat>, time: real,
                      speedMedian: real, accMedian: real, done: seq<(nat, nat)>,
                      before: seq<Detection>, after: seq<Detection>, orig: seq<Detection>, resume: nat)
    requires Scanning(d, p, med, i, window, time, speedMedian, accMedian, done, before, orig) && i < |d.td|
    requires !(d.speed[i] <= p.speedTh && d.acc[i] <= p.accTh) && !(speedMedian <= p.speedTh && accMedian <= p.accTh)
    requires resume == if |window| > 0 && time >= p.minWalk then i else i + 1
    requires |after| == |before|
    requires forall x :: 0 <= x < |after| ==>
      after[x] == if |window| > 0 && time >= p.minWalk && WalkGate(d, p, i - |window|, i) && i - |window| <= x < i
                  then Walk else before[x]
    ensures Scanning(d, p, med, resume, [], 0.0, 0.0, 0.0,
                     done + Found(d, p, StateOf(i, window, time, speedMedian, accMedian), |window| > 0 && time >= p.minWalk),
                     after, orig)
  {
    var st := StateOf(i, window, time, speedMedian, accMedian);
    var long := |window| > 0 && time >= p.minWalk;
    CloseStep(d, p, med, st, long);
    var found := Found(d, p, st, long);
    ConcatAssoc(done, found, Windows(d, p, med, Reset(resume)));
    assert StateOf(resume, [], 0.0, 0.0, 0.0) == Reset(resume);
    forall x: nat | x < |after| ensures after[x] == if InWindows(done + found, x) then Walk else orig[x] {
      if found != [] {
        InWindowsAppend(done, (st.lo, st.i), x);
      } else {
        assert done + found == done;
      }
    }
  }

  /** A growing step of the loop keeps its invariant. */
  lemma GrowScanning(d: RunData, p: WalkParams, med: Stat, i: nat, window: seq<nat>, time: real,
                     speedMedian: real, accMedian: real, done: seq<(nat, nat)>,
                     cur: seq<Detection>, orig: seq<Detection>)
    requires Scanning(d, p, med, i, window, time, speedMedian, accMedian, done, cur, orig) && i < |d.td|
    requires (d.speed[i] <= p.speedTh && d.acc[i] <= p.accTh) || (speedMedian <= p.speedTh && accMedian <= p.accTh)
    ensures Scanning(d, p, med, i + 1, window + [i], time + d.td[i],
                     med(Pick(d.speed, window + [i])), med(Pick(d.acc, window + [i])), done, cur, orig)
  {
    var st := StateOf(i, window, time, speedMedian, accMedian);
    GrowStep(d, p, med, st);
    PickConsecutive(d.speed, window + [i], i + 1);
    PickConsecutive(d.acc, window + [i], i + 1);
    assert StateOf(i + 1, window + [i], time + d.td[i], med(Pick(d.speed, window + [i])), med(Pick(d.acc, window + [i])))
        == ScanState(st.i + 1, st.lo, st.time + d.td[st.i], med(d.speed[st.lo..st.i + 1]), med(d.acc[st.lo..st.i + 1]));
  }

  /** _detect_walks on the detection column of one trip run: the scan as a
      loop, writing "walk" over each window that passes the gate. */
  method DetectWalks(det: array<Detection>, d: RunData, p: WalkParams, med: Stat)
    requires WellFormed(d) && det.Length == |d.td|
    modifies det
    ensures forall k :: 0 <= k < det.Length ==>
      det[k] == if InWindows(WalkWindows(d, p, med), k) then Walk else old(det[k])
  {
    var n := |d.td|;
    var i: nat := 0;
    var window: seq<nat> := [];
    var windowTime := 0.0;
    var windowSpeedMedian := 0.0;
    var windowAccMedian := 0.0;
    ghost var done: seq<(nat, nat)> := [];
    ghost var orig := det[..];
    ScanStart(d, p, med, orig);
    while i < n
      invariant Scanning(d, p, med, i, window, windowTime, windowSpeedMedian, windowAccMedian, done, det[..], orig)
      decreases n - i, if |window| > 0 then 1 else 0
    {
      var current := d.speed[i] <= p.speedTh && d.acc[i] <= p.accTh;
      var existing := windowSpeedMedian <= p.speedTh && windowAccMedian <= p.accTh;
      if !current && !existing {
        ghost var before := det[..];
        ghost var found := Found(d, p, StateOf(i, window, windowTime, windowSpeedMedian, windowAccMedian),
                                 |window| > 0 && windowTime >= p.minWalk);
        var resume := CloseWindow(det, d, p, window, i, windowTime);
        CloseScanning(d, p, med, i, window, windowTime, windowSpeedMedian, windowAccMedian, done, before, det[..], orig, resume);
        i := resume;
        done := done + found;
        window := [];
        windowTime := 0.0;
        windowSpeedMedian := 0.0;
        windowAccMedian := 0.0;
      } else {
        GrowScanning(d, p, med, i, window, windowTime, windowSpeedMedian, windowAccMedian, done, det[..], orig);
        window := window + [i];
        windowTime := windowTime + d.td[i];
        windowSpeedMedian := med(Pick(d.speed, window));
        windowAccMedian := med(Pick(d.acc, window));
        i := i + 1;
      }
    }
    ScanEnd(d, p, med, window, windowTime, windowSpeedMedian, windowAccMedian, done, det[..], orig);
  }

  // ---- the fuzzy decision table (_detect_modes) ----

  /** A trapezoid [a, b, c, d]. */
  datatype Band = Band(a: real, b: real, c: real, d: real)

  predicate ValidBand(t: Band)
  {
    t.a <= t.b <= t.c <= t.d
  }

  /** A ratio of a part to a larger whole lies in [0, 1). */
  lemma Ratio(part: real, whole: real)
    requires 0.0 <= part < whole
    ensures 0.0 <= part / whole < 1.0
    ensures part > 0.0 ==> part / whole > 0.0
  {
    assert (part / whole) * whole == part;
  }

  /** Trapezoidal membership: 0 outside [a, d], rising on (a, b), 1 on
      [b, c], falling on (c, d). */
  function Trap(x: real, t: Band): (m: real)
    requires ValidBand(t)
    ensures 0.0 <= m <= 1.0
    ensures t.b <= x <= t.c ==> m == 1.0
    ensures m > 0.0 <==> (t.a < x < t.d || t.b <= x <= t.c)
  {
    if x < t.a || x > t.d then 0.0
    else if x < t.b then Ratio(x - t.a, t.b - t.a); (x - t.a) / (t.b - t.a)
    else if x <= t.c then 1.0
    else Ratio(t.d - x, t.d - t.c); (t.d - x) / (t.d - t.c)
  }

  const MedSpeedVeryLow: Band := Band(0.0, 0.0, 1.5, 2.0)
  const MedSpeedLow: Band := Band(1.5, 2.0, 4.0, 6.0)
  const MedSpeedMedium: Band := Band(5.0, 7.0, 11.0, 15.0)
  const MedSpeedHigh: Band := Band(12.0, 15.0, 1000.0, 1000.0)

  const Acc95Low: Band := Band(0.0, 0.0, 0.5, 0.6)
  const Acc95Medium: Band := Band(0.5, 0.7, 1.0, 1.2)
  const Acc95High: Band := Band(1.0, 1.5, 1000.0, 1000.0)

  const Speed95Low: Band := Band(0.0, 0.0, 6.0, 8.0)
  const Speed95Medium: Band := Band(7.5, 9.5, 15.0, 18.0)
  const Speed95High: Band := Band(15.0, 20.0, 1000.0, 1000.0)

  /** Two adjacent bands that both hold: the one whose membership is
      smaller, or the lower one on a tie, is kept. */
  function TieBreak(lower: bool, upper: bool, mLower: real, mUpper: real): (r: (bool, bool))
    ensures !(r.0 && r.1)
    ensures r.0 ==> lower
    ensures r.1 ==> upper
    ensures (r.0 || r.1) <==> (lower || upper)
    ensures lower && upper ==> (r.0 <==> mLower <= mUpper)
  {
    if lower && upper then
      if mLower <= mUpper then (lower, false) else (false, upper)
    else (lower, upper)
  }

  datatype Flags3 = Flags3(low: bool, medium: bool, high: bool)
  datatype Flags4 = Flags4(veryLow: bool, low: bool, medium: bool, high: bool)

  predicate ExactlyOne3(f: Flags3)
  {
    (if f.low then 1 else 0) + (if f.medium then 1 else 0) + (if f.high then 1 else 0) == 1
  }

  predicate ExactlyOne4(f: Flags4)
  {
    (if f.veryLow then 1 else 0) + (if f.low then 1 else 0) + (if f.medium then 1 else 0)
      + (if f.high then 1 else 0) == 1
  }

  /** The median-speed bands that hold after the three tie-breaks, taken in
      the source's order, each seeing the flags the previous one left. */
  function MedSpeedFlags(x: real): Flags4
  {
    var vl := Trap(x, MedSpeedVeryLow);
    var l := Trap(x, MedSpeedLow);
    var m := Trap(x, MedSpeedMedium);
    var h := Trap(x, MedSpeedHigh);
    var t1 := TieBreak(vl > 0.0, l > 0.0, vl, l);
    var t2 := TieBreak(t1.1, m > 0.0, l, m);
    var t3 := TieBreak(t2.1, h > 0.0, m, h);
    Flags4(t1.0, t2.0, t3.0, t3.1)
  }

  /** Three bands with two tie-breaks: the 95th-percentile acceleration and
      the 95th-percentile speed. */
  function Flags3Of(x: real, lo: Band, mid: Band, hi: Band): Flags3
    requires ValidBand(lo) && ValidBand(mid) && ValidBand(hi)
  {
    var ml := Trap(x, lo);
    var mm := Trap(x, mid);
    var mh := Trap(x, hi);
    var t1 := TieBreak(ml > 0.0, mm > 0.0, ml, mm);
    var t2 := TieBreak(t1.1, mh > 0.0, mm, mh);
    Flags3(t1.0, t2.0, t2.1)
  }

  function Acc95Flags(x: real): Flags3
  {
    Flags3Of(x, Acc95Low, Acc95Medium, Acc95High)
  }

  function Speed95Flags(x: real): Flags3
  {
    Flags3Of(x, Speed95Low, Speed95Medium, Speed95High)
  }

  /** The decision table: the modes whose row holds, in the table's order. */
  function PossibleModes(ms: Flags4, acc: Flags3, sp: Flags3): seq<string>
  {
    (if ms.veryLow && acc.low then ["Walk"] else [])
    + (if ms.veryLow && acc.medium then ["Cycle"] else [])
    + (if ms.veryLow && acc.high then ["Cycle"] else [])
    + (if ms.low && acc.low && sp.low then ["Cycle"] else [])
    + (if ms.low && acc.low && sp.medium then ["Urban"] else [])
    + (if ms.low && acc.low && sp.high then ["Car"] else [])
    + (if ms.low && acc.medium then ["Urban"] else [])
    + (if ms.low && acc.high && sp.low then ["Urban"] else [])
    + (if ms.low && acc.high && sp.medium then ["Car"] else [])
    + (if ms.low && acc.high && sp.high then ["Car"] else [])
    + (if ms.medium && acc.low then ["Urban"] else [])
    + (if ms.medium && acc.medium then ["Car"] else [])
    + (if ms.medium && acc.high then ["Car"] else [])
    + (if ms.high && acc.low then ["Rail"] else [])
    + (if ms.high && acc.medium then ["Car"] else [])
    + (if ms.high && acc.high then ["Car"] else [])
  }

  /** ",".join(parts) */
  function JoinComma(parts: seq<string>): (r: string)
    ensures |parts| == 0 ==> r == ""
    ensures |parts| == 1 ==> r == parts[0]
  {
    if |parts| == 0 then ""
    else if |parts| == 1 then parts[0]
    else parts[0] + "," + JoinComma(parts[1..])
  }

  /** _detect_modes from the run's median speed, 95th-percentile
      acceleration and 95th-percentile speed. */
  function DetectModes(medianSpeed: real, acc95: real, speed95: real): string
  {
    JoinComma(PossibleModes(MedSpeedFlags(medianSpeed), Acc95Flags(acc95), Speed95Flags(speed95)))
  }

  predicate InRange(x: real)
  {
    0.0 <= x <= 1000.0
  }

  /** Over [0, 1000] the median-speed bands leave exactly one flag. */
  lemma MedSpeedExactlyOne(x: real)
    requires InRange(x)
    ensures ExactlyOne4(MedSpeedFlags(x))
  {
    if x <= 1.5 {
    } else if x < 2.0 {
    } else if x <= 5.0 {
    } else if x < 6.0 {
    } else if x <= 12.0 {
    } else if x < 15.0 {
    } else {
    }
  }

  /** Three overlapping bands of which only neighbours overlap, and whose
      supports cover [0, 1000], leave exactly one flag. */
  lemma Flags3ExactlyOne(x: real, lo: Band, mid: Band, hi: Band)
    requires ValidBand(lo) && ValidBand(mid) && ValidBand(hi)
    requires lo.a == lo.b == 0.0 && hi.c == hi.d == 1000.0
    requires lo.c <= mid.a < lo.d <= mid.b && mid.c <= hi.a < mid.d <= hi.b
    requires InRange(x)
    ensures ExactlyOne3(Flags3Of(x, lo, mid, hi))
  {
  }

  lemma Acc95ExactlyOne(x: real)
    requires InRange(x)
    ensures ExactlyOne3(Acc95Flags(x))
  {
    Flags3ExactlyOne(x, Acc95Low, Acc95Medium, Acc95High);
  }

  lemma Speed95ExactlyOne(x: real)
    requires InRange(x)
    ensures ExactlyOne3(Speed95Flags(x))
  {
    Flags3ExactlyOne(x, Speed95Low, Speed95Medium, Speed95High);
  }

  predicate IsModeName(s: string)
  {
    s == "Walk" || s == "Cycle" || s == "Urban" || s == "Car" || s == "Rail"
  }

  /** One flag per axis selects exactly one row of the table. */
  lemma OneRowHolds(ms: Flags4, acc: Flags3, sp: Flags3)
    requires ExactlyOne4(ms) && ExactlyOne3(acc) && ExactlyOne3(sp)
    ensures |PossibleModes(ms, acc, sp)| == 1 && IsModeName(PossibleModes(ms, acc, sp)[0])
  {
  }

  /** With the three statistics in [0, 1000] a run gets exactly one mode
      name, with no comma. */
  lemma DetectModesSingle(medianSpeed: real, acc95: real, speed95: real)
    requires InRange(medianSpeed) && InRange(acc95) && InRange(speed95)
    ensures IsModeName(DetectModes(medianSpeed, acc95, speed95))
  {
    MedSpeedExactlyOne(medianSpeed);
    Acc95ExactlyOne(acc95);
    Speed95ExactlyOne(speed95);
    OneRowHolds(MedSpeedFlags(medianSpeed), Acc95Flags(acc95), Speed95Flags(speed95));
  }

  /** A median speed outside [0, 1000] matches no band and the mode is the
      empty string. */
  lemma DetectModesOutOfRange(medianSpeed: real, acc95: real, speed95: real)
    requires !InRange(medianSpeed)
    ensures DetectModes(medianSpeed, acc95, speed95) == ""
  {
  }

  // ---- mode_detection over the edge table ----

  function Accelerations(edges: seq<Edge>): (r: seq<real>)
    ensures |r| == |edges| && forall k :: 0 <= k < |edges| ==> r[k] == edges[k].route.acceleration
  {
    seq(|edges|, k requires 0 <= k < |edges| => edges[k].route.acceleration)
  }

  /** The speed, acceleration and time_delta columns of edges [lo, hi). */
  function RunDataOf(edges: seq<Edge>, lo: nat, hi: nat): (d: RunData)
    requires lo <= hi <= |edges|
    ensures WellFormed(d) && |d.td| == hi - lo
  {
    RunData(Speeds(edges)[lo..hi], Accelerations(edges)[lo..hi], TimeDeltas(edges)[lo..hi])
  }

  /** The label the scan of the trip run [lo, hi) gives edge k. */
  function ScanLabel(edges: seq<Edge>, p: WalkParams, med: Stat, lo: nat, hi: nat, k: nat): Detection
    requires lo <= k < hi <= |edges|
  {
    if InWindows(WalkWindows(RunDataOf(edges, lo, hi), p, med), k - lo) then Walk else Trip
  }

  /** The detection of edge k once the scan has run over its trip run. */
  function WalkedLabel(edges: seq<Edge>, p: WalkParams, med: Stat, k: nat): Detection
    requires k < |edges|
  {
    var labels := Labels(edges);
    if labels[k] != Trip then labels[k]
    else
      var b := BlockAt(labels, k);
      ScanLabel(edges, p, med, b.0, b.1, k)
  }

  function WalkedLabels(edges: seq<Edge>, p: WalkParams, med: Stat): (r: seq<Detection>)
    ensures |r| == |edges| && forall k :: 0 <= k < |edges| ==> r[k] == WalkedLabel(edges, p, med, k)
  {
    seq(|edges|, k requires 0 <= k < |edges| => WalkedLabel(edges, p, med, k))
  }

  /** The mode the decision table gives the trip run [lo, hi). */
  function RunMode(edges: seq<Edge>, lo: nat, hi: nat, med: Stat, p95: Stat): string
    requires lo <= hi <= |edges|
  {
    DetectModes(med(Speeds(edges)[lo..hi]), p95(Accelerations(edges)[lo..hi]), p95(Speeds(edges)[lo..hi]))
  }

  /** detected_mode of edge k: "Walk" for walks, the table's mode of its
      run for trips, none for the rest. */
  function FinalMode(edges: seq<Edge>, labels: seq<Detection>, med: Stat, p95: Stat, k: nat): Option<string>
    requires |labels| == |edges| && k < |edges|
  {
    if labels[k] == Walk then Some("Walk")
    else if labels[k] == Trip then
      var b := BlockAt(labels, k);
      Some(RunMode(edges, b.0, b.1, med, p95))
    else None
  }

  /** The table mode_detection returns. */
  function ModesDetected(edges: seq<Edge>, p: WalkParams, med: Stat, p95: Stat): (r: seq<Edge>)
    ensures |r| == |edges|
  {
    var labels := WalkedLabels(edges, p, med);
    seq(|edges|, k requires 0 <= k < |edges| =>
      edges[k].(detection := labels[k], mode := FinalMode(edges, labels, med, p95, k)))
  }

  /** Inside trip run j of the labels, the walked label is what the scan of
      that run gives; between runs it is the label itself. */
  lemma WalkedRun(edges: seq<Edge>, p: WalkParams, med: Stat, runs: seq<(nat, nat)>, j: nat)
    requires runs == RunsOf(Labels(edges), Trip) && j < |runs|
    ensures GapStart(runs, j, 0) <= runs[j].0 < runs[j].1 <= |edges|
    ensures runs[j].1 == GapStart(runs, j + 1, 0)
    ensures forall k :: GapStart(runs, j, 0) <= k < runs[j].0 ==> WalkedLabel(edges, p, med, k) == edges[k].detection
    ensures forall k :: runs[j].0 <= k < runs[j].1 ==> edges[k].detection == Trip
    ensures forall k :: runs[j].0 <= k < runs[j].1 ==>
      WalkedLabel(edges, p, med, k) == ScanLabel(edges, p, med, runs[j].0, runs[j].1, k)
  {
    RunAt(Labels(edges), Trip, j);
  }

  /** One trip run of the first loop: df.iloc[run] is copied, scanned by
      _detect_walks, and written back with df.loc[res.index] = res. */
  method WalkRun(det: array<Detection>, edges: seq<Edge>, p: WalkParams, med: Stat, lo: nat, hi: nat)
    requires lo <= hi <= det.Length == |edges|
    requires forall x :: lo <= x < hi ==> det[x] == Trip
    modifies det
    ensures forall x :: 0 <= x < det.Length ==>
      det[x] == if lo <= x < hi then ScanLabel(edges, p, med, lo, hi, x) else old(det[x])
  {
    var part := det[lo..hi];
    var run := new Detection[hi - lo](q requires 0 <= q < hi - lo => part[q]);
    DetectWalks(run, RunDataOf(edges, lo, hi), p, med);
    ghost var scanned := run[..];
    for k := lo to hi
      invariant run[..] == scanned
      invariant forall x :: 0 <= x < det.Length ==>
        det[x] == if lo <= x < k then ScanLabel(edges, p, med, lo, hi, x) else old(det[x])
    {
      det[k] := run[k - lo];
    }
  }

  /** The first loop of mode_detection: the walk scan over every trip run. */
  method WalkPass(det: array<Detection>, edges: seq<Edge>, p: WalkParams, med: Stat)
    requires det.Length == |edges| && forall k :: 0 <= k < |edges| ==> det[k] == edges[k].detection
    modifies det
    ensures det[..] == WalkedLabels(edges, p, med)
  {
    var runs := RunsOf(Labels(edges), Trip);
    assert WalkedUpTo(det[..], edges, p, med, 0);
    var j := 0;
    while j < |runs|
      invariant j <= |runs|
      invariant WalkedUpTo(det[..], edges, p, med, GapStart(runs, j, 0))
    {
      WalkRunAt(det, edges, p, med, runs, j);
      j := j + 1;
    }
    WalkedAfterRuns(edges, p, med, det[..]);
  }

  /** The walked labels are in place before position g, the original ones
      from g on. */
  ghost predicate WalkedUpTo(d: seq<Detection>, edges: seq<Edge>, p: WalkParams, med: Stat, g: nat)
  {
    && |d| == |edges|
    && forall k :: 0 <= k < |edges| ==> d[k] == if k < g then WalkedLabel(edges, p, med, k) else edges[k].detection
  }

  /** Past the last trip run the walked label is the label itself, so the
      first loop leaves every walked label in place. */
  lemma WalkedAfterRuns(edges: seq<Edge>, p: WalkParams, med: Stat, d: seq<Detection>)
    requires WalkedUpTo(d, edges, p, med, GapStart(RunsOf(Labels(edges), Trip), |RunsOf(Labels(edges), Trip)|, 0))
    ensures d == WalkedLabels(edges, p, med)
  {
    RunsEnd(Labels(edges), Trip);
  }

  /** The body of the first loop for trip run j: the walked labels, written
      so far up to the gap before run j, reach up to the gap after it. */
  method WalkRunAt(det: array<Detection>, edges: seq<Edge>, p: WalkParams, med: Stat, runs: seq<(nat, nat)>, j: nat)
    requires runs == RunsOf(Labels(edges), Trip) && j < |runs|
    requires WalkedUpTo(det[..], edges, p, med, GapStart(runs, j, 0))
    modifies det
    ensures WalkedUpTo(det[..], edges, p, med, GapStart(runs, j + 1, 0))
  {
    WalkedRun(edges, p, med, runs, j);
    ghost var before := det[..];
    var lo, hi := runs[j].0, runs[j].1;
    WalkRun(det, edges, p, med, lo, hi);
    WalkStep(edges, p, med, runs, j, before, det[..]);
  }

  /** After the scan of trip run j, the walked labels reach up to the gap
      after it. */
  lemma WalkStep(edges: seq<Edge>, p: WalkParams, med: Stat, runs: seq<(nat, nat)>, j: nat,
                 before: seq<Detection>, after: seq<Detection>)
    requires runs == RunsOf(Labels(edges), Trip) && j < |runs|
    requires WalkedUpTo(before, edges, p, med, GapStart(runs, j, 0)) && |after| == |edges|
    requires runs[j].0 < runs[j].1 <= |edges|
    requires forall x :: 0 <= x < |edges| ==>
      after[x] == if runs[j].0 <= x < runs[j].1 then ScanLabel(edges, p, med, runs[j].0, runs[j].1, x) else before[x]
    ensures WalkedUpTo(after, edges, p, med, GapStart(runs, j + 1, 0))
  {
    WalkedRun(edges, p, med, runs, j);
  }

  /** Trip run j of the walked labels: every position of it has the run's
      table mode, and nothing between runs is a trip. */
  lemma ModeRun(edges: seq<Edge>, walked: seq<Detection>, med: Stat, p95: Stat, trips: seq<(nat, nat)>, j: nat)
    requires |walked| == |edges| && trips == RunsOf(walked, Trip) && j < |trips|
    ensures GapStart(trips, j, 0) <= trips[j].0 < trips[j].1 <= |edges|
    ensures trips[j].1 == GapStart(trips, j + 1, 0)
    ensures forall k :: GapStart(trips, j, 0) <= k < trips[j].0 ==> walked[k] != Trip
    ensures forall k :: trips[j].0 <= k < trips[j].1 ==>
      walked[k] == Trip && FinalMode(edges, walked, med, p95, k) == Some(RunMode(edges, trips[j].0, trips[j].1, med, p95))
  {
    RunAt(walked, Trip, j);
  }

  /** df.loc[res.index, column] = v for the positions [lo, hi). */
  method Fill<T>(a: array<T>, lo: nat, hi: nat, v: T)
    requires lo <= hi <= a.Length
    modifies a
    ensures forall x :: 0 <= x < a.Length ==> a[x] == if lo <= x < hi then v else old(a[x])
  {
    for k := lo to hi
      invariant forall x :: 0 <= x < a.Length ==> a[x] == if lo <= x < k then v else old(a[x])
    {
      a[k] := v;
    }
  }

  /** The second loop: every trip run left gets the table's mode. */
  method ModePass(mode: array<Option<string>>, edges: seq<Edge>, walked: seq<Detection>, med: Stat, p95: Stat)
    requires mode.Length == |edges| && |walked| == |edges|
    requires forall k :: 0 <= k < |edges| ==> mode[k] == None
    modifies mode
    ensures forall k :: 0 <= k < |edges| ==>
      mode[k] == if walked[k] == Trip then FinalMode(edges, walked, med, p95, k) else None
  {
    var n := |edges|;
    var trips := RunsOf(walked, Trip);
    for j := 0 to |trips|
      invariant forall k :: 0 <= k < n ==>
        mode[k] == if k < GapStart(trips, j, 0) && walked[k] == Trip then FinalMode(edges, walked, med, p95, k) else None
    {
      ModeRun(edges, walked, med, p95, trips, j);
      var lo, hi := trips[j].0, trips[j].1;
      var m := RunMode(edges, lo, hi, med, p95);
      Fill(mode, lo, hi, Some(m));
    }
    RunsEnd(walked, Trip);
  }

  /** The sequential branch of mode_detection: detected_mode starts empty,
      the walk pass and the mode pass run, and every walk gets "Walk". */
  method DetectTransportModes(edges: seq<Edge>, p: WalkParams, med: Stat, p95: Stat) returns (r: seq<Edge>)
    ensures r == ModesDetected(edges, p, med, p95)
  {
    var n := |edges|;
    var det := new Detection[n](k requires 0 <= k < n => edges[k].detection);
    var mode := new Option<string>[n](_ => None);
    WalkPass(det, edges, p, med);
    var walked := det[..];
    ModePass(mode, edges, walked, med, p95);
    for k := 0 to n
      invariant det[..] == walked
      invariant forall x :: 0 <= x < n ==>
        mode[x] == if walked[x] == Trip || (x < k && walked[x] == Walk) then FinalMode(edges, walked, med, p95, x) else None
    {
      if det[k] == Walk {
        mode[k] := Some("Walk");
      }
    }
    assert walked == WalkedLabels(edges, p, med);
    r := seq(n, k requires 0 <= k < n reads det, mode => edges[k].(detection := det[k], mode := mode[k]));
  }

  // ---- what mode_detection promises ----

  /** Each edge keeps its route; only a trip can become a walk; a walk ends
      with the mode "Walk", a trip with some mode, and anything else with
      none. */
  lemma ModesDetectedFields(edges: seq<Edge>, p: WalkParams, med: Stat, p95: Stat)
    ensures forall k :: 0 <= k < |edges| ==>
      var e := ModesDetected(edges, p, med, p95)[k];
      && e.route == edges[k].route
      && (e.detection == edges[k].detection || (edges[k].detection == Trip && e.detection == Walk))
      && (e.detection == Walk ==> e.mode == Some("Walk"))
      && (e.detection == Trip ==> e.mode.Some?)
      && (e.detection == Activity ==> e.mode == None)
  {
  }

  lemma DetectionsOfResult(edges: seq<Edge>, p: WalkParams, med: Stat, p95: Stat)
    ensures Labels(ModesDetected(edges, p, med, p95)) == WalkedLabels(edges, p, med)
  {
  }

  /** All edges of one trip run of the result carry the same mode. */
  lemma TripRunSharesMode(edges: seq<Edge>, p: WalkParams, med: Stat, p95: Stat, k: nat, k': nat)
    requires k < |edges| && ModesDetected(edges, p, med, p95)[k].detection == Trip
    requires BlockAt(Labels(ModesDetected(edges, p, med, p95)), k).0 <= k' < BlockAt(Labels(ModesDetected(edges, p, med, p95)), k).1
    ensures ModesDetected(edges, p, med, p95)[k'].detection == Trip
    ensures ModesDetected(edges, p, med, p95)[k'].mode == ModesDetected(edges, p, med, p95)[k].mode
  {
    var walked := WalkedLabels(edges, p, med);
    DetectionsOfResult(edges, p, med, p95);
    SameBlock(walked, k, k');
  }

  lemma {:induction false} InWindowsWitness(ws: seq<(nat, nat)>, q: nat) returns (j: nat)
    requires InWindows(ws, q)
    ensures j < |ws| && ws[j].0 <= q < ws[j].1
    decreases |ws|
  {
    if InWindows(ws[..|ws| - 1], q) {
      j := InWindowsWitness(ws[..|ws| - 1], q);
    } else {
      j := |ws| - 1;
    }
  }

  /** An edge the scan turned into a walk lies in a walk window [lo, hi) of
      its trip run (positions counted from the run's start): a stretch
      lasting minimal_walking_duration, closed by an element inside the run
      that fails both tests, with enough trip time after it and, unless it
      starts the run, before it. */
  lemma WalkLiesInWindow(edges: seq<Edge>, p: WalkParams, med: Stat, p95: Stat, k: nat) returns (lo: nat, hi: nat)
    requires k < |edges| && edges[k].detection == Trip
    requires ModesDetected(edges, p, med, p95)[k].detection == Walk
    ensures BlockAt(Labels(edges), k).0 + lo <= k < BlockAt(Labels(edges), k).0 + hi
    ensures IsWalkWindow(RunDataOf(edges, BlockAt(Labels(edges), k).0, BlockAt(Labels(edges), k).1), p, med, lo, hi)
  {
    assert WalkedLabel(edges, p, med, k) == Walk;
    lo, hi := ScannedWalkInWindow(edges, p, med, k);
  }

  lemma ScannedWalkInWindow(edges: seq<Edge>, p: WalkParams, med: Stat, k: nat) returns (lo: nat, hi: nat)
    requires k < |edges| && edges[k].detection == Trip && WalkedLabel(edges, p, med, k) == Walk
    ensures BlockAt(Labels(edges), k).0 + lo <= k < BlockAt(Labels(edges), k).0 + hi
    ensures IsWalkWindow(RunDataOf(edges, BlockAt(Labels(edges), k).0, BlockAt(Labels(edges), k).1), p, med, lo, hi)
  {
    var b := BlockAt(Labels(edges), k);
    var d := RunDataOf(edges, b.0, b.1);
    var ws := WalkWindows(d, p, med);
    assert InWindows(ws, k - b.0);
    WalkWindowsShape(d, p, med);
    var j := InWindowsWitness(ws, k - b.0);
    lo, hi := ws[j].0, ws[j].1;
  }

  /** Every value in [0, 1000] gives a statistic in [0, 1000]; a median or
      a percentile of such values does. */
  ghost predicate KeepsRange(stat: Stat)
  {
    forall s: seq<real> :: (forall i :: 0 <= i < |s| ==> InRange(s[i])) ==> InRange(stat(s))
  }

  /** A run whose speeds and accelerations lie in [0, 1000] gets exactly one
      mode name. */
  lemma RunModeIsSingle(edges: seq<Edge>, lo: nat, hi: nat, med: Stat, p95: Stat)
    requires lo <= hi <= |edges| && KeepsRange(med) && KeepsRange(p95)
    requires forall i :: lo <= i < hi ==> InRange(edges[i].route.speed) && InRange(edges[i].route.acceleration)
    ensures IsModeName(RunMode(edges, lo, hi, med, p95))
  {
    var speeds := Speeds(edges)[lo..hi];
    var accs := Accelerations(edges)[lo..hi];
    assert forall i :: 0 <= i < |speeds| ==> InRange(speeds[i]) by {
      forall i | 0 <= i < |speeds| ensures InRange(speeds[i]) {
        assert speeds[i] == edges[lo + i].route.speed;
      }
    }
    assert forall i :: 0 <= i < |accs| ==> InRange(accs[i]) by {
      forall i | 0 <= i < |accs| ensures InRange(accs[i]) {
        assert accs[i] == edges[lo + i].route.acceleration;
      }
    }
    DetectModesSingle(med(speeds), p95(accs), p95(speeds));
  }

  /** With speeds and accelerations in [0, 1000], every trip of the result
      carries exactly one mode name. */
  lemma TripModeIsSingle(edges: seq<Edge>, p: WalkParams, med: Stat, p95: Stat, k: nat)
    requires KeepsRange(med) && KeepsRange(p95)
    requires forall i :: 0 <= i < |edges| ==> InRange(edges[i].route.speed) && InRange(edges[i].route.acceleration)
    requires k < |edges| && ModesDetected(edges, p, med, p95)[k].detection == Trip
    ensures ModesDetected(edges, p, med, p95)[k].mode.Some?
    ensures IsModeName(ModesDetected(edges, p, med, p95)[k].mode.value)
  {
    var walked := WalkedLabels(edges, p, med);
    var b := BlockAt(walked, k);
    assert ModesDetected(edges, p, med, p95)[k].mode == Some(RunMode(edges, b.0, b.1, med, p95));
    RunModeIsSingle(edges, b.0, b.1, med, p95);
  }
}
