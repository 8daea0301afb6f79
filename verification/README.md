# mobilipy in Dafny

A model of the trajectory pipeline of mobilipy, a Python library that turns
raw GPS waypoints of one user into legs (stays and tracks with a transport
mode), together with the library's privacy, home/work detection and GTFS
helpers. The pipeline runs table to table:

- **waypoints** (`waypoints.dfy`, `mobilipy/waypointsdataframe.py`): the
  user id is copied or defaulted to 0, timestamps are coerced (unparseable
  ones become NaT), rows with a repeated timestamp are dropped keeping the
  first, and the rows are sorted by time;
- **preparation** (`preparation.dfy`, `mobilipy/preparation.py`): rows with
  accuracy 1000 or worse are dropped and every coordinate is replaced by a
  Gaussian-weighted mean over the five points before and after it; the
  smoothing loop is a method proved against a per-position function;
- **segmentation** (`segmentation.dfy`, `mobilipy/segmentation.py`):
  consecutive waypoints become edges with time_delta, speed and
  acceleration; every edge starts as a trip; the DBSCAN cluster ids of each
  day turn edges into activities; a correction pass flips activity and trip
  runs that are too short or too slow, working in place on the detection
  array; edges spanning more than the time gap are dropped;
- **mode detection** (`mode_detection.dfy`, `mobilipy/mode_detection.py`):
  inside every trip run, the `_detect_walks` state machine (a method whose
  loop is proved equal to a pure step function) marks slow, smooth stretches
  as walks; every remaining trip run gets a mode from a fuzzy decision table
  over trapezoidal bands; walks get the mode "Walk";
- **legs** (`legs.dfy`, `mobilipy/legs.py`): each maximal run of activity,
  trip or walk edges (`runs.dfy`, the `consecutive_groups` grouping) becomes
  a Stay or Track leg, split once at midnight when the days of the month
  differ, and the legs are sorted by start time;
- **privacy** (`privacy.dfy`, `mobilipy/privacy.py`): degree/kilometre
  conversions, cell-centre snapping, `dt_floor`, the obfuscation utility and
  the distinct-user counts of `aggregate`;
- **home and work** (`poi_detection.dfy`, `mobilipy/poi_detection.py`):
  Cantor-paired cell numbers, the choice of the home and work cells, and the
  in-place tagging of Stay legs;
- **GTFS** (`gtfs_helper.dfy`, `mobilipy/gtfs_helper.py`): the hour wrap of
  stop times, the weekday lists of calendar rows, and a `Helper` class that
  holds the stop buckets and answers nearby-stop, closest-stop and transfer
  queries.

Shared pieces: `civil_time.dfy` (proleptic Gregorian dates as Python's
datetime counts them, instants with microseconds and a UTC offset),
`sorting.dfy` (sort_values as an insertion sort on a real key),
`seqs.dfy` (sums and masks) and `wrappers.dfy` (Option and Result; a
Python exception is a `Failure` carrying the exception's name).

Floating point is modelled by `real`. Haversine distances, the Gaussian
kernel, medians and percentiles, cosines, shapely's centroid and bounds and
the timestamp parser are function-typed parameters; the properties the
model relies on (a kernel weight of 1 at distance 0 and never negative, a
parser that yields valid instants or NaT) are stated as preconditions.

## Model

| member | source | states |
|---|---|---|
| Waypoints.ReadRows | mobilipy/waypointsdataframe.py:33-39 | one frame row per input row, carrying the coerced timestamp and the copied or defaulted user id |
| Waypoints.ReadRowsValid | mobilipy/waypointsdataframe.py:39-43 | every coerced timestamp is either missing (NaT) or a proper instant |
| Waypoints.DefaultUser | mobilipy/waypointsdataframe.py:34-37 | without a user-id column every surviving row has user id 0 |
| Waypoints.DropDuplicateTimes | mobilipy/waypointsdataframe.py:45 | drop_duplicates keeps a sub-multiset of the rows, never more rows than it was given |
| Waypoints.DropDuplicatesDistinct | mobilipy/waypointsdataframe.py:45 | after drop_duplicates no two rows share a timestamp (two NaT count as equal) |
| Waypoints.DropDuplicatesKeepsFirst | mobilipy/waypointsdataframe.py:45 | the first row of every timestamp is kept |
| Waypoints.FirstOccurrence | mobilipy/waypointsdataframe.py:45 | every row has an earliest row with the same timestamp, which drop_duplicates keeps |
| Waypoints.Timed | mobilipy/waypointsdataframe.py:46 | the rows that have a timestamp, drawn from the input |
| Waypoints.Untimed | mobilipy/waypointsdataframe.py:46 | the NaT rows, drawn from the input |
| Waypoints.TimedUntimedPermutes | mobilipy/waypointsdataframe.py:46 | timed rows and NaT rows together are exactly the input rows |
| Waypoints.SortByTime | mobilipy/waypointsdataframe.py:46 | sort_values returns a permutation of its rows |
| Waypoints.SortedDistinctIncreasing | mobilipy/waypointsdataframe.py:45-46 | sorted rows with distinct timestamps have strictly increasing timestamps |
| Waypoints.TimedOrderedConcat | mobilipy/waypointsdataframe.py:46 | increasing timed rows followed by the NaT rows are in frame order |
| Waypoints.IngestOrdered | mobilipy/waypointsdataframe.py:45-46 | deduplicated then sorted rows are in ascending timestamp order with NaT last |
| Waypoints.CoversOne | mobilipy/waypointsdataframe.py:45-46 | any reordering of the deduplicated rows still holds a row for each timestamp read |
| Waypoints.IngestCovers | mobilipy/waypointsdataframe.py:45-46 | every timestamp that was read survives deduplication and sorting |
| Waypoints.Ingest | mobilipy/waypointsdataframe.py:21-53 | the frame's rows are valid, strictly ascending in time with NaT last, drawn from and no more than the input rows, cover every timestamp read, carry user id 0 when no user-id column exists; the columns are the four required ones followed by whichever of accuracy and speed exist |
| Preparation.FilterAccuracy | mobilipy/preparation.py:13-15 | with an accuracy column exactly the rows with accuracy below 1000 are kept, without one every row is kept; the columns are unchanged |
| Preparation.FilterAccuracyKeepsOrder | mobilipy/preparation.py:14-15 | filtering keeps rows in time order |
| Preparation.WindowStart | mobilipy/preparation.py:51 | the window of point i starts at most 5 points before i and not after i |
| Preparation.WindowEnd | mobilipy/preparation.py:52 | the window of point i ends after i, within the frame, at most 6 points after i |
| Preparation.WindowWeights | mobilipy/preparation.py:54-63 | one weight per point of the window |
| Preparation.Longitudes | mobilipy/preparation.py:42 | one longitude per row |
| Preparation.Latitudes | mobilipy/preparation.py:43 | one latitude per row |
| Preparation.Products | mobilipy/preparation.py:66-67 | the element-wise product of weights and coordinates |
| Preparation.WindowWeightsPositive | mobilipy/preparation.py:58-64 | every window weight is non-negative and, the centre weight being 1, their sum is at least 1, so it is never zero |
| Preparation.DotBetween | mobilipy/preparation.py:66-67 | a non-negatively weighted sum of values in [m, M] lies between m and M times the weight sum |
| Preparation.WeightedMeanBetween | mobilipy/preparation.py:66-67 | a non-negatively weighted mean of values in [m, M] lies in [m, M] |
| Preparation.SmoothedAt | mobilipy/preparation.py:54-70 | the smoothed point keeps the timestamp, user id, accuracy and speed of point i |
| Preparation.SmoothedAtFields | mobilipy/preparation.py:73-77 | smoothing replaces only latitude and longitude |
| Preparation.SmoothedWithinWindow | mobilipy/preparation.py:60-67 | the new latitude and longitude each lie between the window's minimum and maximum |
| Preparation.StationaryWindowUnmoved | mobilipy/preparation.py:50-67 | a point whose window holds one position (a single point in particular) keeps its coordinates |
| Preparation.SmoothedColumns | mobilipy/preparation.py:50-71 | the loop builds the smoothed longitude and latitude lists, one entry per point, equal to the weighted averages |
| Preparation.GaussianSmoothing | mobilipy/preparation.py:29-79 | the smoothed frame has the input's length (empty stays empty) and row i is the smoothed point i |
| Preparation.Prepare | mobilipy/preparation.py:5-18 | the accuracy filter followed by smoothing: same columns, one smoothed row per kept row |
| Segmentation.OnlyLastUntimed | mobilipy/segmentation.py:53-57 | in an ingested frame every row but the last has a proper timestamp (NaT rows sort last and are distinct) |
| Segmentation.RouteIndicesFrom | mobilipy/segmentation.py:53-57 | the rows from a given one that start an edge: exactly those whose successor has no missing value, in ascending order |
| Segmentation.RouteIndices | mobilipy/segmentation.py:53-57 | merging with shift(-1).dropna() keeps exactly the rows i whose row i+1 exists and has no missing value, in order |
| Segmentation.RouteIndicesAllFrom | mobilipy/segmentation.py:53-57 | without missing values the edges start at every row but the last |
| Segmentation.RouteOf | mobilipy/segmentation.py:68-83 | time_delta is positive, speed times time_delta is the distance and acceleration times time_delta is the speed |
| Segmentation.RouteAt | mobilipy/segmentation.py:53-83 | the edge of row i joins point i to point i+1 |
| Segmentation.CreateRoute | mobilipy/segmentation.py:42-84 | one edge per kept row, edge k joining its row to the next; an empty frame gives no edges |
| Segmentation.CreateRouteAllPairs | mobilipy/segmentation.py:51-57 | n waypoints without missing values give exactly n-1 edges, edge i joining point i to point i+1 |
| Segmentation.PrepareForDetection | mobilipy/segmentation.py:87-96 | every edge starts as a trip with no mode, keeping its route |
| Segmentation.CreateRouteIncreasing | mobilipy/segmentation.py:53-57 | the edges' start times strictly increase |
| Segmentation.ScanDay | mobilipy/segmentation.py:182 | the first edge from position j on a given date, or none |
| Segmentation.NextSameDay | mobilipy/segmentation.py:113-121 | the next edge of the same day partition after edge k, or none when k is the partition's last |
| Segmentation.Density | mobilipy/segmentation.py:112-121 | an edge becomes activity exactly when it already was one or its cluster equals the next same-day edge's cluster (0 for the partition's last) and is not -1; only trip edges change, and only to activity; routes and modes are untouched |
| Segmentation.ActivitiesDensity | mobilipy/segmentation.py:98-123 | relabelling one day partition keeps its length |
| Segmentation.DayIndicesFrom | mobilipy/segmentation.py:182 | the positions of a day's edges: exactly those with that date, ascending |
| Segmentation.NextInGroup | mobilipy/segmentation.py:113-121 | inside a day partition the next row is the next edge of the same day |
| Segmentation.PartitionDensityAt | mobilipy/segmentation.py:182-196 | relabelling a day partition on its own gives row p the label the whole-table relabelling gives that edge |
| Segmentation.PartitionDensity | mobilipy/segmentation.py:182-196 | relabelling a day partition equals picking that partition out of the whole-table relabelling |
| Segmentation.Labels | mobilipy/segmentation.py:138 | the detection column |
| Segmentation.TimeDeltas | mobilipy/segmentation.py:135 | the time_delta column |
| Segmentation.Speeds | mobilipy/segmentation.py:136 | the speed column |
| Segmentation.RunStep | mobilipy/segmentation.py:140-151 | inside one run of the pass's label every position flips exactly when the run's summed time_delta is below 120 (and, for trip runs, or its mean speed below 1); no position between runs flips |
| Segmentation.RunTail | mobilipy/segmentation.py:140-151 | no position after the last run flips |
| Segmentation.FlipRuns | mobilipy/segmentation.py:140-151 | one loop over consecutive groups writes the pass's target label exactly on the flipped positions and leaves every other position as it was |
| Segmentation.CorrectedByPasses | mobilipy/segmentation.py:140-153 | the corrected label is activity for a flipped trip run, trip for a flipped activity run, the old label otherwise; runs come from the labels before the pass |
| Segmentation.CorrectedLabelSwapsOnly | mobilipy/segmentation.py:138-153 | the correction never creates or removes a walk label |
| Segmentation.CorrectedLabelUniform | mobilipy/segmentation.py:140-151 | all positions of one original run get the same corrected label |
| Segmentation.CorrectedEdges | mobilipy/segmentation.py:126-153 | the correction keeps the length and changes only the detection field |
| Segmentation.CorrectClusters | mobilipy/segmentation.py:126-153 | the in-place array passes compute exactly the corrected edges |
| Segmentation.GapFilter | mobilipy/segmentation.py:206-212 | exactly the edges with time_delta at most time_gap are kept (strict >: equal is kept) |
| Segmentation.GapFilterKeepsOrder | mobilipy/segmentation.py:206-212 | the gap filter keeps the edges in start order |
| Segmentation.DaysOf | mobilipy/segmentation.py:182 | the day partitions: every edge's date, listed once |
| Segmentation.CoverStep | mobilipy/segmentation.py:191-196 | appending the next day partition adds each of its edges exactly once |
| Segmentation.CoverStepAt | mobilipy/segmentation.py:191-196 | the per-position count of that step |
| Segmentation.CoverAll | mobilipy/segmentation.py:191-196 | once every day is appended the collected rows are each edge exactly once |
| Segmentation.SortRestoresOrder | mobilipy/segmentation.py:198-202 | sorting the appended partitions by start time gives the edges back in their original order |
| Segmentation.Segment | mobilipy/segmentation.py:156-216 | route, all-trip start, per-day density relabelling appended then sorted, correction and gap filter compute the segmented edges |
| Segmentation.SegmentedShape | mobilipy/segmentation.py:182-212 | the output is strictly ascending in start time and every edge has time_delta at most time_gap, no walk label, no mode and a positive time_delta |
| ModeDetection.WalkGateSimplified | mobilipy/mode_detection.py:33-46 | elements_after is never below 2, so the two end-boundary branches are dead and a window is relabelled exactly when the time after it reaches minimal_trip_duration and it starts at position 0 or the time before it does too |
| ModeDetection.InWindowsAppend | mobilipy/mode_detection.py:40-46 | a position lies in the windows found so far plus one more exactly when it lies in the old ones or in the new one |
| ModeDetection.AllWalksCons | mobilipy/mode_detection.py:30-46 | a walk window followed by later walk windows is an ordered list of walk windows |
| ModeDetection.OrderedCons | mobilipy/mode_detection.py:48-49 | windows found later lie after earlier ones |
| ModeDetection.WindowsAreWalks | mobilipy/mode_detection.py:23-64 | every window the scan relabels from any reachable state is a contiguous block after the scan position whose summed time_delta is at least minimal_walk_duration and which passes the before/after gate, and the windows come in increasing order |
| ModeDetection.WalkWindowsShape | mobilipy/mode_detection.py:23-64 | the whole scan relabels only such walk windows |
| ModeDetection.OpenWindowNotFlushed | mobilipy/mode_detection.py:23-65 | the last position is never relabelled: a window still open when i reaches the end is dropped |
| ModeDetection.NotInShortWindows | mobilipy/mode_detection.py:40-46 | a position after every window found lies in none of them |
| ModeDetection.ResetAcceptsNext | mobilipy/mode_detection.py:21-58 | after a reset the medians are 0, so (thresholds being non-negative) the next element always starts a new window |
| ModeDetection.PickConsecutive | mobilipy/mode_detection.py:60-63 | the window is always the block of positions just before i, so df.iloc[window] is a slice |
| ModeDetection.GrowStep | mobilipy/mode_detection.py:59-64 | accepting element i extends the window, adds its time_delta and recomputes both medians, without changing the windows the scan goes on to find |
| ModeDetection.CloseStep | mobilipy/mode_detection.py:29-58 | rejecting element i reports the window when it is long enough and passes the gate; the scan resumes at i after a long window and at i+1 after a short one, with the window reset |
| ModeDetection.CloseWindow | mobilipy/mode_detection.py:30-58 | the closing branch writes "walk" on exactly the window's positions when it is long enough and passes the gate, leaves every other position, and returns where the scan resumes |
| ModeDetection.ScanStart | mobilipy/mode_detection.py:18-22 | the initial empty window with zero time and medians satisfies the loop invariant |
| ModeDetection.GrowScanning | mobilipy/mode_detection.py:59-64 | the loop invariant survives accepting an element |
| ModeDetection.CloseScanning | mobilipy/mode_detection.py:29-58 | the loop invariant survives closing a window |
| ModeDetection.ScanEnd | mobilipy/mode_detection.py:23-65 | when the loop ends, every position is "walk" if it lies in a reported window and otherwise keeps its label |
| ModeDetection.DetectWalks | mobilipy/mode_detection.py:8-65 | the while loop (terminating by the measure (len - i, window non-empty)) labels "walk" exactly the positions of the walk windows of the scan and leaves every other label as it was |
| ModeDetection.Trap | mobilipy/mode_detection.py:98-115 | the trapezoid membership lies in [0, 1], is 1 on [b, c] and is positive exactly on (a, d) together with [b, c] |
| ModeDetection.TieBreak | mobilipy/mode_detection.py:119-159 | of two overlapping bands exactly one survives, the lower one when its membership is smaller or equal (not the minimum the comment asks for); a band alone is kept |
| ModeDetection.JoinComma | mobilipy/mode_detection.py:197 | joining no mode gives the empty string, a single mode gives that mode |
| ModeDetection.Flags3ExactlyOne | mobilipy/mode_detection.py:137-159 | for three chained bands covering [0, 1000] exactly one flag survives the tie-breaks |
| ModeDetection.MedSpeedExactlyOne | mobilipy/mode_detection.py:119-135 | for a median speed in [0, 1000] exactly one of the four median-speed bands survives |
| ModeDetection.Acc95ExactlyOne | mobilipy/mode_detection.py:137-147 | for an acceleration percentile in [0, 1000] exactly one band survives |
| ModeDetection.Speed95ExactlyOne | mobilipy/mode_detection.py:149-159 | for a speed percentile in [0, 1000] exactly one band survives |
| ModeDetection.OneRowHolds | mobilipy/mode_detection.py:161-195 | with one flag per axis exactly one row of the decision table fires, naming one of Walk, Cycle, Urban, Car, Rail |
| ModeDetection.DetectModesSingle | mobilipy/mode_detection.py:67-198 | with all three statistics in [0, 1000] _detect_modes yields exactly one mode name |
| ModeDetection.DetectModesOutOfRange | mobilipy/mode_detection.py:98-105 | a negative (or above 1000) median speed matches no band and yields the empty label |
| ModeDetection.Accelerations | mobilipy/mode_detection.py:94 | the acceleration column |
| ModeDetection.RunDataOf | mobilipy/mode_detection.py:218-220 | the slice of one trip run handed to _detect_walks, one entry per edge |
| ModeDetection.WalkedLabels | mobilipy/mode_detection.py:215-233 | one label per edge after the walk pass |
| ModeDetection.ModesDetected | mobilipy/mode_detection.py:201-256 | mode_detection keeps the number of edges |
| ModeDetection.WalkedRun | mobilipy/mode_detection.py:216-233 | inside the j-th trip run each label is the scan's label for that run; between runs labels are unchanged |
| ModeDetection.WalkRun | mobilipy/mode_detection.py:231-233 | writing one run's scan back changes only that run's positions, to the scan's labels |
| ModeDetection.WalkRunAt | mobilipy/mode_detection.py:231-233 | after the j-th run is written back every position before the next run holds its walked label |
| ModeDetection.WalkStep | mobilipy/mode_detection.py:231-233 | the same step stated on label sequences |
| ModeDetection.WalkedAfterRuns | mobilipy/mode_detection.py:230-233 | once every run is written back the labels are the walked labels |
| ModeDetection.WalkPass | mobilipy/mode_detection.py:216-233 | the sequential loop over trip runs leaves exactly the walked labels |
| ModeDetection.ModeRun | mobilipy/mode_detection.py:236-252 | every edge of a remaining trip run gets the single label computed from that run's statistics; edges between runs are not trips |
| ModeDetection.Fill | mobilipy/mode_detection.py:251-252 | writing one run's mode changes exactly that run's positions |
| ModeDetection.ModePass | mobilipy/mode_detection.py:236-252 | trip edges get their run's mode, every other edge keeps no mode |
| ModeDetection.DetectTransportModes | mobilipy/mode_detection.py:201-256 | the imperative passes compute exactly the mode-detected edges |
| ModeDetection.ModesDetectedFields | mobilipy/mode_detection.py:215-256 | routes are untouched, a label changes only from trip to walk, walk edges end with exactly "Walk", trip edges have a mode and activity edges none |
| ModeDetection.DetectionsOfResult | mobilipy/mode_detection.py:216-236 | the result's detection column is the walked labels |
| ModeDetection.TripRunSharesMode | mobilipy/mode_detection.py:236-252 | all edges of one remaining trip run share the same mode label |
| ModeDetection.InWindowsWitness | mobilipy/mode_detection.py:40-46 | a relabelled position lies in some reported window |
| ModeDetection.ScannedWalkInWindow | mobilipy/mode_detection.py:216-233 | an edge relabelled "walk" lies in a walk window of its trip run |
| ModeDetection.WalkLiesInWindow | mobilipy/mode_detection.py:201-256 | every walk edge of the result lies in a walk window: contiguous, at least minimal_walk_duration long and gated by the trip time around it |
| ModeDetection.RunModeIsSingle | mobilipy/mode_detection.py:67-198 | with statistics that stay in [0, 1000] a trip run's label is a single mode name |
| ModeDetection.TripModeIsSingle | mobilipy/mode_detection.py:236-252 | every remaining trip edge carries a single mode name when speeds and accelerations lie in [0, 1000] |
| Runs.RunEnd | mobilipy/legs.py:85-92 | the end of the block of x labels starting at i: every label in between is x and the next one is not |
| Runs.RunStart | mobilipy/legs.py:85-92 | the start of the block of x labels ending at k: every label in between is x and the one before is not |
| Runs.RunsOfPartition | mobilipy/legs.py:85-92 | consecutive_groups over the positions labelled x gives maximal blocks of x, in ascending order, with no x between them |
| Runs.RunsFromPartition | mobilipy/legs.py:85-92 | the same, for the groups from a position on |
| Runs.RunIsLeftMaximal | mobilipy/legs.py:85-92 | the position before a run is not labelled x |
| Runs.BlockAt | mobilipy/legs.py:85-92 | the maximal block of equal labels around position k |
| Runs.BlockOfRun | mobilipy/legs.py:85-92 | every position of a run has that run as its block |
| Runs.SameBlock | mobilipy/legs.py:85-92 | positions of one block share the label and the block |
| Runs.RunAt | mobilipy/legs.py:85-92 | the j-th run lies after the gap before it, which holds no x, and is its positions' block |
| Runs.RunsEnd | mobilipy/legs.py:85-92 | no position after the last run is labelled x |
| Runs.RunsOrdered | mobilipy/legs.py:85-92 | earlier runs end before later ones start |
| Runs.RunContaining | mobilipy/legs.py:85-92 | each position labelled x lies in exactly one run |
| Runs.RunsInRange | mobilipy/legs.py:85-92 | every run is a non-empty range inside the table |
| Runs.RunEnds | mobilipy/legs.py:85-92 | a run's first and last positions are labelled x and the positions just outside are not |
| Runs.InsideRun | mobilipy/legs.py:85-92 | a position of a run whose predecessor (successor) differs is the run's first (last) position |
| Legs.ToNaive | mobilipy/legs.py:46-49 | strptime of str() succeeds exactly for whole-second UTC timestamps and otherwise raises ValueError |
| Legs.ToNaiveSameInstant | mobilipy/legs.py:46-49 | a converted timestamp is a proper datetime naming the same instant |
| Legs.SplitAtMidnight | mobilipy/legs.py:51-58 | two pieces meeting at 00:00:00 of the day after the start when the days of the month differ, otherwise the leg itself; the pieces keep the start and the finish and share every other field |
| Legs.SplitOrdered | mobilipy/legs.py:51-56 | for an ordered leg the split falls strictly after the start and both pieces are ordered |
| Legs.SplitMissesMonthChange | mobilipy/legs.py:51 | a leg ending on the same day of the month in a later month is not split |
| Legs.SplitOnce | mobilipy/legs.py:51-56 | only one split is made: a leg spanning two midnights keeps the second inside its second piece |
| Legs.StartPoints | mobilipy/legs.py:44 | the run's start points in order, one per edge |
| Legs.AppendOneCategory | mobilipy/legs.py:21-59 | the run's legs are produced exactly when both boundary timestamps convert, otherwise ValueError; two legs for a split run, one otherwise |
| Legs.AppendOneCategoryLegs | mobilipy/legs.py:31-58 | every leg carries the user, the category, the first edge's mode, no purpose and the run's geometry (centroid and diameter for a Stay, start points for a Track); the legs start at the first edge's start and finish at the last edge's end |
| Legs.RunResults | mobilipy/legs.py:102-103 | one _append_one_category result per run |
| Legs.JoinedSucceeds | mobilipy/legs.py:102-104 | appending the results succeeds exactly when every run converts, and otherwise raises one run's error |
| Legs.JoinedStaysFailed | mobilipy/legs.py:102-104 | the first run that fails is what the whole category raises |
| Legs.JoinedAll | mobilipy/legs.py:102-104 | a property of every run's legs holds of every appended leg |
| Legs.JoinedLength | mobilipy/legs.py:102-104 | the appended list is as long as the runs' leg lists together |
| Legs.RunsOfKind | mobilipy/legs.py:80-92 | the runs of one detection label lie inside the table |
| Legs.LegsOfRunsConverts | mobilipy/legs.py:46-49 | a category's legs are built exactly when every run's boundary timestamps convert, otherwise ValueError is raised |
| Legs.LegsOfRunsNext | mobilipy/legs.py:102-104 | one more converted run appends its legs |
| Legs.LegsOfRunsFail | mobilipy/legs.py:102-104 | a run that fails after runs that converted is what the category raises |
| Legs.CollectStep | mobilipy/legs.py:102-104 | one iteration of res += res_ keeps the accumulator equal to res followed by the legs so far |
| Legs.CollectLegs | mobilipy/legs.py:101-104 | the loop over one category's runs returns res followed by their legs, or the first failure |
| Legs.UserLegs | mobilipy/legs.py:62-139 | the legs are built exactly when every run of every category converts (ValueError otherwise), and are then sorted by started_at |
| Legs.GetUserLegs | mobilipy/legs.py:62-139 | the sequential loops over activity, trip and walk runs followed by the sort compute exactly the user's legs |
| Legs.TotalSplits | mobilipy/legs.py:51-58 | one leg per run plus one per split run |
| Legs.LegsOfRunsCount | mobilipy/legs.py:51-58 | a category yields one leg per run plus one per split run |
| Legs.RunLegsStamped | mobilipy/legs.py:31-44 | one run's legs carry the user, the category and no purpose, and are a Stay exactly when their geometry is an area |
| Legs.LegsOfRunsFields | mobilipy/legs.py:31-44 | every leg of a category carries the user, the category and no purpose |
| Legs.AllStampedConcat | mobilipy/legs.py:100-129 | appending stamped legs to stamped legs keeps them stamped |
| Legs.AllStampedPermuted | mobilipy/legs.py:132 | sorting keeps the legs stamped |
| Legs.UserLegsCount | mobilipy/legs.py:131-134 | the row count is the number of runs plus the number of split runs |
| Legs.UserLegsFields | mobilipy/legs.py:31-44 | every leg belongs to the user, has no purpose and is a Stay exactly when its geometry is an area |
| Legs.RunBoundaries | mobilipy/legs.py:34-49 | a run converts exactly when its opening start and its closing end are whole-second UTC timestamps |
| Legs.BadBoundaryRun | mobilipy/legs.py:34-49 | a bad boundary belongs to a run that cannot be converted |
| Legs.BadBoundaryFails | mobilipy/legs.py:48-49 | a bad boundary anywhere makes get_user_legs raise |
| Legs.FailureHasBadBoundary | mobilipy/legs.py:48-49 | when get_user_legs raises some run boundary has fractional seconds or a non-UTC offset |
| Legs.UserLegsFailure | mobilipy/legs.py:48-49 | get_user_legs raises exactly when some edge opening a run starts, or some edge closing a run ends, at a timestamp with fractional seconds or an offset other than +00:00 |
| CivilTime.NextDay | mobilipy/legs.py:52 | adding one day gives a proper date, in the same year or on 1 January of the next |
| CivilTime.NextDayNumber | mobilipy/legs.py:52 | the next day is exactly one day later on the day count |
| CivilTime.DayNumberMonotone | mobilipy/legs.py:51-53 | an earlier calendar date has a smaller day count |
| CivilTime.DayNumberInjective | mobilipy/legs.py:51-53 | different dates have different day counts |
| CivilTime.Weekday | mobilipy/poi_detection.py:43-44 | .dt.weekday is 0 (Monday) to 6 (Sunday) |
| CivilTime.Hour | mobilipy/poi_detection.py:42-44 | .dt.hour is 0 to 23 |
| Sorting.InsertPermutes | mobilipy/legs.py:132 | inserting one element keeps every element and adds exactly that one |
| Sorting.InsertSorted | mobilipy/legs.py:132 | inserting into a sorted sequence keeps it sorted |
| Sorting.SortBy | mobilipy/legs.py:132 | sort_values: the result is sorted by the key and is a permutation of the input |
| Sorting.SortedPermutationUnique | mobilipy/legs.py:132 | when the keys are distinct there is only one sorted permutation, so the order does not depend on how ties would be broken |
| Sorting.SortStrictlySorted | mobilipy/legs.py:132 | sorting rows already in strictly increasing key order changes nothing |
| Privacy.KmToLat | mobilipy/privacy.py:88-97 | km_to_lat inverts lat_to_km: the result converts back to the given kilometres |
| Privacy.KmToLon | mobilipy/privacy.py:75-86 | km_to_lon inverts lon_to_km at the same latitude, wherever the cosine is non-zero |
| Privacy.LatRoundTrip | mobilipy/privacy.py:63-97 | latitude to kilometres and back is the identity |
| Privacy.LonRoundTrip | mobilipy/privacy.py:50-86 | longitude to kilometres and back at a fixed latitude is the identity |
| Privacy.ShiftPoint | mobilipy/privacy.py:31-48 | the latitude moves by the northward shift over 110.574 km and the longitude by the eastward shift over 111.320·cos(latitude) km |
| Privacy.ShiftByNothing | mobilipy/privacy.py:31-48 | a zero shift leaves the point where it is |
| Privacy.FloatMod | mobilipy/privacy.py:113-114 | Python's float % with a positive divisor lies in [0, divisor) |
| Privacy.Snap | mobilipy/privacy.py:113-114 | a coordinate snaps to the centre of its cell of the lattice, which lies within half a cell of it |
| Privacy.SnapIdempotent | mobilipy/privacy.py:113-114 | snapping a cell centre again leaves it unchanged |
| Privacy.AssignCellCenter | mobilipy/privacy.py:99-119 | the centre's northing is the snapped northing and its easting, measured at the snapped latitude, is the snapped easting |
| Privacy.CellCenterIdempotent | mobilipy/privacy.py:99-119 | assigning a cell centre to a cell centre returns the same centre |
| Privacy.PyMod | mobilipy/privacy.py:202 | Python's % takes the divisor's sign: the remainder lies in [0, b) for b > 0 and in (b, 0] for b < 0, and the dividend minus it is a multiple of b |
| Privacy.PyModIsFloatMod | mobilipy/privacy.py:202 | on whole numbers and a positive divisor it agrees with the float % used for cell snapping |
| Privacy.Truncated | mobilipy/privacy.py:201 | int() of total_seconds keeps the whole seconds: the result is a whole second within one second at or below the time |
| Privacy.DtFloor | mobilipy/privacy.py:188-205 | for any timedelta in microseconds: a zero step raises ZeroDivisionError; otherwise the result is a multiple of the step; it is the last such multiple at or below the whole-second-truncated time when the step is positive, and the first at or above it when the step is negative |
| Privacy.DtFloorUnique | mobilipy/privacy.py:188-205 | for a positive whole-second step the result is the only step boundary within one step at or before the time, as the docstring promises |
| Privacy.DtFloorExample | mobilipy/privacy.py:189 | 12:21:47 floored to 15 seconds is 12:21:45 on any day |
| Privacy.DtFloorFractionalStep | mobilipy/privacy.py:201-205 | with a 1.5 s step, 10.7 s floors to 9.0 s although 10.5 s is a later boundary at or before it, because only the truncated whole seconds are reduced |
| Privacy.DtFloorNegativeStep | mobilipy/privacy.py:201-205 | a negative step moves the time forward: 10 s with a -15 s step gives 15 s |
| Privacy.DtFloorWholeSeconds | mobilipy/privacy.py:201-205 | with a whole-second step the floored time has no microseconds |
| Privacy.TimesOf | mobilipy/privacy.py:168 | the set of tracked_at values of the table |
| Privacy.Removed | mobilipy/privacy.py:167-168 | in remove mode, the prepared timestamps absent from the obfuscated table |
| Privacy.Relocated | mobilipy/privacy.py:169-170 | in assign mode, the timestamps of rows whose latitude or longitude changed |
| Privacy.CountWithin | mobilipy/privacy.py:182 | the affected timestamps inside one leg, bounded by their number |
| Privacy.CountWithinPositive | mobilipy/privacy.py:182-183 | a leg counts as affected exactly when some affected timestamp lies in [started_at, finished_at] |
| Privacy.HitCount | mobilipy/privacy.py:179-184 | the number of affected legs is at most the number of legs |
| Privacy.HitCountNone | mobilipy/privacy.py:181-184 | the count is zero exactly when no leg is affected |
| Privacy.HitCountAll | mobilipy/privacy.py:181-184 | the count is the number of legs exactly when every leg is affected |
| Privacy.ObfuscationUtility | mobilipy/privacy.py:156-186 | the counting loop computes 1 - affected/legs, or ZeroDivisionError when there are no legs |
| Privacy.UtilityRange | mobilipy/privacy.py:156-186 | the utility fails exactly on an empty leg table (ZeroDivisionError); otherwise it lies in [0, 1], is 1 exactly when no leg is affected and 0 exactly when every leg is |
| Privacy.AffectedRemoved | mobilipy/privacy.py:167-168 | when the row counts differ the affected timestamps are those of prepared rows missing from the obfuscated table |
| Privacy.UnchangedFullUtility | mobilipy/privacy.py:169-186 | an unobfuscated table has utility 1 |
| Privacy.Aggregate | mobilipy/privacy.py:207-238 | aggregate fails exactly on an empty table (IndexError from iloc[0]) or, on a non-empty one, a zero step (ZeroDivisionError from dt_floor) |
| Privacy.PairCount | mobilipy/privacy.py:236-238 | pairing a key with each user gives as many pairs as users |
| Privacy.AggregateCounts | mobilipy/privacy.py:218-238 | the groups are exactly the (floored time, cell centre) keys of the samples, and each count is the number of distinct users seen at that key |
| Privacy.AggregateKeys | mobilipy/privacy.py:231-238 | every group's time is a multiple of the step, a whole second when the step is whole seconds, and its count is at least one |
| Privacy.DuplicateNoEffect | mobilipy/privacy.py:236 | a sample of a user already seen at the same key changes nothing |
| Privacy.AggregateOrderFree | mobilipy/privacy.py:218-238 | the result does not depend on the order of the rows |
| PoiDetection.CellNumber | mobilipy/poi_detection.py:19-24 | twice the cell number is (x + y)(x + y + 1) + 2x, so the number is (x + y)(x + y + 1)/2 + x, a whole number because the product is even |
| PoiDetection.ConsecutiveEven | mobilipy/poi_detection.py:23 | (x + y)(x + y + 1) is even, so the cell number is a whole number |
| PoiDetection.TriangleFormula | mobilipy/poi_detection.py:23 | the triangular number of s is s(s + 1)/2 |
| PoiDetection.TriangleGrows | mobilipy/poi_detection.py:23 | the gap between the triangular numbers of a and of any larger b is more than a |
| PoiDetection.CantorInjective | mobilipy/poi_detection.py:21-23 | on non-negative cell indices distinct cells get distinct numbers (Cantor pairing) |
| PoiDetection.CellNumberMirror | mobilipy/poi_detection.py:21-23 | with negative indices (west of Greenwich or south of the equator) two different cells share a number |
| PoiDetection.WorkTimeWindow | mobilipy/poi_detection.py:42-44 | a waypoint is in working time exactly when its hour is 7 to 19 (07:00:00 to 19:59:59) on Monday to Friday |
| PoiDetection.WorkPoints | mobilipy/poi_detection.py:41-45 | the workday waypoints are exactly the waypoints whose timestamp is in working time; NaT rows are dropped |
| PoiDetection.NaTCountsForHomeOnly | mobilipy/poi_detection.py:37-63 | a row with a NaT timestamp is still binned and counted in its cell for home, but never kept for work |
| PoiDetection.InCell | mobilipy/poi_detection.py:56-57 | the waypoints of one cell number |
| PoiDetection.CellsOf | mobilipy/poi_detection.py:56-57 | every waypoint's cell is listed and every listed cell has a waypoint |
| PoiDetection.Distinct | mobilipy/poi_detection.py:56-57 | groupby keys: the same cells, each once |
| PoiDetection.Tally | mobilipy/poi_detection.py:56-60 | one row per cell, with its visit count and mean latitude and longitude |
| PoiDetection.TallyHas | mobilipy/poi_detection.py:56-60 | every waypoint's cell has its row |
| PoiDetection.Ranked | mobilipy/poi_detection.py:61 | the rows sorted by descending count, a permutation of the groupby rows |
| PoiDetection.RankedHas | mobilipy/poi_detection.py:56-61 | every waypoint's cell row appears in the ranking |
| PoiDetection.RankedNonEmpty | mobilipy/poi_detection.py:61-63 | a non-empty waypoint table gives a non-empty ranking |
| PoiDetection.RankedEmpty | mobilipy/poi_detection.py:48-53 | no waypoints give no rows |
| PoiDetection.HeadMostVisited | mobilipy/poi_detection.py:63-64 | the first row is a cell no other cell beats in visits |
| PoiDetection.SelectFails | mobilipy/poi_detection.py:66 | choosing home and work raises IndexError exactly when no waypoint falls in working time |
| PoiDetection.SelectSpec | mobilipy/poi_detection.py:63-75 | home is the mean position of a most visited cell and work is chosen from the workday cells as the source prescribes |
| PoiDetection.OneCellOneRow | mobilipy/poi_detection.py:69-73 | waypoints in a single cell give at most one row |
| PoiDetection.CellsCount | mobilipy/poi_detection.py:49 | rows with distinct cells have as many cells as rows |
| PoiDetection.DistinctRowsOnce | mobilipy/poi_detection.py:49 | each row occurs once among rows with distinct cells |
| PoiDetection.TwoEqualHeads | mobilipy/poi_detection.py:70 | two equal leading rows occur at least twice |
| PoiDetection.RankedHeadsDiffer | mobilipy/poi_detection.py:66-71 | the first two ranked rows are different cells |
| PoiDetection.WorkIsTop | mobilipy/poi_detection.py:66-75 | when the top workday cell is not home, work is its mean position, and no other non-home workday cell has more visits |
| PoiDetection.WorkIsSecond | mobilipy/poi_detection.py:69-75 | when the top workday cell is home and there is a second row, work is that second cell, the busiest non-home workday cell |
| PoiDetection.WorkIsNone | mobilipy/poi_detection.py:72-75 | when home is the only workday cell, every workday waypoint is in the home cell and work is None |
| PoiDetection.WorkChosen | mobilipy/poi_detection.py:66-75 | the work location satisfies the choice rule relative to the home cell |
| PoiDetection.HomeWorkFails | mobilipy/poi_detection.py:35-75 | with cells assigned by assign_cell, detection raises IndexError exactly when no waypoint falls in working time |
| PoiDetection.HomeIsMostVisited | mobilipy/poi_detection.py:37-75 | home is the mean position of a most visited cell and work follows the choice rule |
| PoiDetection.TagPurpose | mobilipy/poi_detection.py:86-104 | only the purpose of a Stay leg changes: Work when near work, otherwise Home when near home, otherwise unchanged |
| PoiDetection.TagIdempotent | mobilipy/poi_detection.py:86-104 | tagging twice is tagging once |
| PoiDetection.TagLegs | mobilipy/poi_detection.py:77-80 | every leg in the array is replaced by its tagged version and nothing else changes |
| PoiDetection.DetectHomeWork | mobilipy/poi_detection.py:27-83 | no legs or no waypoints give (None, None) and leave the legs; otherwise the error or the home and work locations, with every Stay leg tagged in place |
| GtfsHelper.DigitChar | mobilipy/gtfs_helper.py:48 | the character written for a digit reads back as that digit |
| GtfsHelper.ParseHour | mobilipy/gtfs_helper.py:48 | int() on the first two characters fails only with ValueError, and any value it reads lies between -9 and 99 |
| GtfsHelper.ParseHourStrips | mobilipy/gtfs_helper.py:48 | as Python's int(): whitespace (any str.isspace character) before or after a single digit is stripped, a leading zero is ignored, and two digits read as a decimal number |
| GtfsHelper.HourText | mobilipy/gtfs_helper.py:48 | str() of an hour is one or two digits without a leading zero |
| GtfsHelper.HourPrefix | mobilipy/gtfs_helper.py:48 | x[:2] takes at most two characters |
| GtfsHelper.WrapHour | mobilipy/gtfs_helper.py:44-50 | the hour is wrapped modulo 24 and written as one or two digits without a leading zero, the rest of the time text is kept, and the conversion raises ValueError exactly when the first two characters are not an integer |
| GtfsHelper.HourTextRoundTrip | mobilipy/gtfs_helper.py:48 | int(str(h)) == h for every hour |
| GtfsHelper.WrapExample | mobilipy/gtfs_helper.py:48 | "25:10:00" becomes "1:10:00" |
| GtfsHelper.WrapTabExample | mobilipy/gtfs_helper.py:48 | a tab before the hour is stripped as int() does: "\t5:10:00" becomes "5:10:00" |
| GtfsHelper.DaysOfWeek | mobilipy/gtfs_helper.py:29-34 | the list holds exactly the weekday indices whose flag is 1, in increasing order |
| GtfsHelper.InBucket | mobilipy/gtfs_helper.py:16-21 | the stops of one bucket, in file order |
| GtfsHelper.BucketKeys | mobilipy/gtfs_helper.py:18-21 | the dictionary's keys are exactly the buckets of the stops |
| GtfsHelper.BucketsAreFilters | mobilipy/gtfs_helper.py:18-21 | setdefault(...).append(...) over the rows makes each bucket's list the stops of that bucket in file order |
| GtfsHelper.StopInOneBucket | mobilipy/gtfs_helper.py:16-21 | each stop is filed under its own bucket, as often as it occurs, and under no other |
| GtfsHelper.InBucketCount | mobilipy/gtfs_helper.py:18-21 | a stop occurs in its bucket as often as in the stop table |
| GtfsHelper.Probes | mobilipy/gtfs_helper.py:101-104 | the nine buckets probed, western column first and southern row first within a column |
| GtfsHelper.ProbeAt | mobilipy/gtfs_helper.py:101-104 | the probe for offsets dx, dy is the bucket shifted by dx - 1 and dy - 1 |
| GtfsHelper.ProbesCover | mobilipy/gtfs_helper.py:101-104 | the nine probes are distinct and are exactly the buckets within one step in both directions |
| GtfsHelper.GatheredHas | mobilipy/gtfs_helper.py:100-104 | the output holds exactly the stops listed under the first n probes |
| GtfsHelper.Helper.constructor | mobilipy/gtfs_helper.py:13-21 | builds the stop dictionary and then the transfers |
| GtfsHelper.Helper.NearbyStops | mobilipy/gtfs_helper.py:83-109 | the nested loops return the concatenation of the nine neighbouring buckets' lists |
| GtfsHelper.Helper.ClosestStops | mobilipy/gtfs_helper.py:111-126 | the nearby stops sorted by distance, first n |
| GtfsHelper.Helper.GetTransfers | mobilipy/gtfs_helper.py:128-147 | sets the transfers and leaves the stops and their dictionary |
| GtfsHelper.NearbyAreNear | mobilipy/gtfs_helper.py:83-109 | a stop is returned exactly when it is in the table and its bucket is within one step of the location's bucket |
| GtfsHelper.Head | mobilipy/gtfs_helper.py:126 | head(n) is the first n rows, or all but the last -n rows when n is negative |
| GtfsHelper.ClosestAreClosest | mobilipy/gtfs_helper.py:111-126 | the result has min(n, nearby) stops, is ordered by distance, is drawn from the nearby stops, and no stop left out is closer than one kept |
| GtfsHelper.PrefixLeast | mobilipy/gtfs_helper.py:126 | a prefix of a sorted list is no larger than what follows it |
| GtfsHelper.TransfersFrom | mobilipy/gtfs_helper.py:135-145 | one stop's transfers are its neighbours with a different stop_id within 50 m, with walking time equal to the distance |
| GtfsHelper.TransfersUpToHas | mobilipy/gtfs_helper.py:134-137 | exploding the rows yields exactly the transfers of the first n stops |
| GtfsHelper.TransferFacts | mobilipy/gtfs_helper.py:128-147 | a transfer is listed exactly when both stops are in the table, the second lies in a bucket adjacent to the first's, their ids differ and their distance is at most 50 m, with time_s equal to the distance |
| GtfsHelper.TransfersSymmetric | mobilipy/gtfs_helper.py:128-147 | for a symmetric distance every transfer has its reverse |

## Left out

- DBSCAN clustering (`mobilipy/segmentation.py:109-110`, `176-177`): sklearn's clustering is not part of this model; the cluster id of every edge is an input sequence.
- Haversine distances, the Gaussian `exp` weights, `np.median`/`np.percentile`, the cosine in the unit conversions and shapely's centroid and bounds are function parameters; their floating-point values are not modelled.
- Floating-point rounding: all arithmetic is exact real arithmetic, so results that differ from the source only by rounding are not distinguished.
- The multiprocessing branches of `segment`, `mode_detection` and `get_user_legs`, with their `results.get(timeout=1)`: only the sequential branches are modelled.
- `add_noise` and `obfuscate` (`mobilipy/privacy.py:7-29`, `121-154`): random sampling; the utility takes the obfuscated table as an input.
- CSV reading and `pd.to_datetime` parsing: the raw table and a parser function are inputs; the GTFS calendar date columns and the `%H:%M:%S` re-parsing of stop times are not modelled.
- Timezone localisation (`mobilipy/waypointsdataframe.py:39-43`, `mobilipy/privacy.py:228-234`) and the string formatting of leg times: instants carry a fixed UTC offset, and conversion in legs succeeds exactly when the offset is zero and there are no microseconds.
- GtfsHelper.ParseHour: reads only ASCII digits; Python's int() also accepts other Unicode decimal digits (Arabic-Indic, full-width and so on), which the model rejects with ValueError.
- GtfsHelper: the `round(..., 3)` bucket keys are integer grid indices, and `get_nearby_stops`' own `lon_lat_step` argument is the helper's step.
- `id_to_name` and `get_coordinates` (`mobilipy/gtfs_helper.py:60-81`): plain row lookups.
- pandas index alignment: tables are sequences and rows are matched by position.
- Waypoints.Ingest: requires a parser that returns a proper instant or NaT; the parsing of timestamp strings itself is a parameter.
- Preparation.SmoothedAt: a NaT timestamp counts as second 0 in the kernel's time gaps; pandas' handling of NaT there is not modelled.
- Preparation.GaussianSmoothing: requires rows already in timestamp order; the source re-sorts and assigns back by row label, which is the identity on frames produced by ingestion.
- Preparation.Prepare: requires rows in timestamp order, as GaussianSmoothing does.
- Segmentation.Segment: requires a frame as ingestion produces it (sorted by time, distinct timestamps), with one cluster id per edge.
- Sorting.SortBy: pandas' default quicksort is not stable; the model sorts by insertion and its contracts promise only a sorted permutation, which is also all that holds for pandas when keys tie.
- Privacy.DtFloor: the remainder is computed exactly in microseconds; the source computes it in floating-point seconds, which can differ by rounding for steps that are not exact binary fractions of a second. A negative step that moves a time past datetime.max raises OverflowError in the source; the model has no upper bound on times.
- Segmentation.Missing: latitude, longitude and user_id are never missing in the model, so edges that `shift(-1).dropna()` drops because the next row has a NaN coordinate or user id are not modelled; only NaT timestamps and missing accuracy or speed values are.
- Legs.UserLegs: when two legs start at the same instant their relative order is unspecified, as in the source.
- `mobilipy/plot.py` (folium maps), `mobilipy/reva.py` (pipeline glue), `mobilipy/constants.py`, `docs/conf.py` and `setup.py` are not part of this model.
