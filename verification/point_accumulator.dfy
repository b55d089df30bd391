/** The per-track point loop of scripts/create_dataset.py (lines 35-99),
    which turns parsed GPX tracks into rows of the raw dataset.

    Per track, the cumulative distance and cumulative D+ start at 0; per
    segment, the previous point starts empty. Each point adds the 3-D
    distance to the previous point when it lies in [0, 200), adds the rise
    in elevation when both elevations are known and it is positive, and
    gets a speed from its `velocity_smooth` extension or, failing that,
    from the accepted distance over the elapsed time. The GPX parser and
    its `distance_3d` are inputs: the parsed files, and a function giving
    the outcome of `point.distance_3d(previous_point)`. */
module PointAccumulator {
  import opened Common

  /** Distances at or above this many metres are discarded. */
  const MaxStepDistance: real := 200.0

  /** A velocity below this is read as metres per second. */
  const VelocityUnitLimit: real := 50.0

  /** km/h per m/s. */
  const KmhPerMs: real := 3.6

  const VelocityTag: string := "velocity_smooth"

  /** One child element of a point's extensions, in document order; `text`
      is absent when `float(child.text)` raises. */
  datatype Extension = Extension(tag: string, text: Option<real>)

  datatype TrackPoint = TrackPoint(
    lat: real,
    lon: real,
    elevation: Option<real>,
    time: Option<int>,
    extensions: seq<Extension>)

  /** A GPX track: its `type` and its segments of points. */
  datatype Track = Track(kind: Option<string>, segments: seq<seq<TrackPoint>>)

  /** A parsed GPX file, named by its base name. */
  datatype GpxFile = GpxFile(name: string, tracks: seq<Track>)

  /** Outcome of `distance_3d`: a distance, `None`, or an exception. */
  datatype Measurement = Measured(d: Option<real>) | Raised

  /** One written CSV row; an absent altitude or time is an empty cell. */
  datatype CsvRow = CsvRow(
    fileName: string,
    activityType: string,
    lat: real,
    lon: real,
    altitude: Option<real>,
    distance: real,
    dplusCum: real,
    speedKmh: real,
    time: Option<int>)

  /** The running sums of a track. */
  datatype Totals = Totals(distance: real, dplus: real)

  /** `pat` occurs in `s` (Python's `pat in s`). */
  predicate Contains(s: string, pat: string)
    ensures |pat| <= |s| && s[..|pat|] == pat ==> Contains(s, pat)
    ensures Contains(s, pat) ==> |pat| <= |s|
    decreases |s|
  {
    (|pat| <= |s| && s[..|pat|] == pat) || (|s| > 0 && Contains(s[1..], pat))
  }

  /** `pat` occurs in `s` at position `i`. */
  predicate OccursAt(s: string, pat: string, i: int)
  {
    0 <= i && i + |pat| <= |s| && s[i..i + |pat|] == pat
  }

  /** `Contains` holds exactly when `pat` occurs somewhere in `s`. */
  lemma {:induction false} ContainsOccurrence(s: string, pat: string)
    ensures Contains(s, pat) <==> exists i :: OccursAt(s, pat, i)
    decreases |s|
  {
    if |pat| <= |s| && s[..|pat|] == pat {
      assert OccursAt(s, pat, 0);
    } else if |s| > 0 {
      ContainsOccurrence(s[1..], pat);
      if Contains(s[1..], pat) {
        var i :| OccursAt(s[1..], pat, i);
        assert s[i + 1..i + 1 + |pat|] == s[1..][i..i + |pat|];
        assert OccursAt(s, pat, i + 1);
      }
      if exists i :: OccursAt(s, pat, i) {
        var i :| OccursAt(s, pat, i);
        assert i > 0;
        assert s[1..][i - 1..i - 1 + |pat|] == s[i..i + |pat|];
        assert OccursAt(s[1..], pat, i - 1);
      }
    }
  }

  /** The `activity_type` written for a track: `track.type or ""`. */
  function KindName(kind: Option<string>): (name: string)
    ensures kind.None? ==> name == ""
    ensures kind.Some? ==> name == kind.value
  {
    if kind.Some? then kind.value else ""
  }

  /** The distance a step contributes: the measured distance when it lies
      in [0, 200), and 0 when it is outside, `None`, or raised. */
  function AcceptedDistance(m: Measurement): (d: real)
    ensures 0.0 <= d < MaxStepDistance
    ensures m.Measured? && m.d.Some? && 0.0 <= m.d.value < MaxStepDistance ==> d == m.d.value
    ensures !(m.Measured? && m.d.Some? && 0.0 <= m.d.value < MaxStepDistance) ==> d == 0.0
  {
    match m
    case Raised => 0.0
    case Measured(None) => 0.0
    case Measured(Some(x)) => if 0.0 <= x < MaxStepDistance then x else 0.0
  }

  /** The elevation gain between two points: the rise when both elevations
      are known and it is positive, else 0. */
  function Climb(before: Option<real>, after: Option<real>): (c: real)
    ensures c >= 0.0
    ensures c > 0.0 <==> before.Some? && after.Some? && after.value > before.value
    ensures c > 0.0 ==> c == after.value - before.value
  {
    if before.Some? && after.Some? && after.value - before.value > 0.0
    then after.value - before.value else 0.0
  }

  /** A `velocity_smooth` value in km/h: values below 50 are taken as m/s. */
  function FromVelocity(v: real): (kmh: real)
    ensures v < VelocityUnitLimit ==> kmh == v * KmhPerMs
    ensures v >= VelocityUnitLimit ==> kmh == v
  {
    if v < VelocityUnitLimit then v * KmhPerMs else v
  }

  /** A child whose tag contains `velocity_smooth` and whose text is a number. */
  predicate IsVelocity(e: Extension)
  {
    Contains(e.tag, VelocityTag) && e.text.Some?
  }

  /** The speed read from the extensions: the last numeric
      `velocity_smooth` child decides; without one it stays 0. */
  function ExtensionSpeed(exts: seq<Extension>): (v: real)
    ensures (forall k :: 0 <= k < |exts| ==> !IsVelocity(exts[k])) ==> v == 0.0
    ensures v != 0.0 ==> exists k :: 0 <= k < |exts| && IsVelocity(exts[k]) && v == FromVelocity(exts[k].text.value)
    decreases |exts|
  {
    if |exts| == 0 then 0.0
    else
      var last := exts[|exts| - 1];
      if IsVelocity(last) then FromVelocity(last.text.value)
      else ExtensionSpeed(exts[..|exts| - 1])
  }

  /** The last numeric `velocity_smooth` child decides the extension
      speed, whatever comes before it. */
  lemma {:induction false} LastVelocityDecides(exts: seq<Extension>, k: nat)
    requires k < |exts| && IsVelocity(exts[k])
    requires forall j :: k < j < |exts| ==> !IsVelocity(exts[j])
    ensures ExtensionSpeed(exts) == FromVelocity(exts[k].text.value)
    decreases |exts|
  {
    if k < |exts| - 1 {
      var init := exts[..|exts| - 1];
      assert init[k] == exts[k];
      LastVelocityDecides(init, k);
    }
  }

  /** Elapsed seconds between two timestamps. */
  function Seconds(from: int, to: int): real
  {
    (to - from) as real / NanosPerSecond
  }

  /** Seconds since the previous point, or 0 when there is no previous
      point or either timestamp is missing. */
  function Elapsed(prev: Option<TrackPoint>, p: TrackPoint): (e: real)
    ensures prev.Some? && p.time.Some? && prev.value.time.Some? ==>
      e * NanosPerSecond == (p.time.value - prev.value.time.value) as real
    ensures prev.None? || p.time.None? || prev.value.time.None? ==> e == 0.0
  {
    if prev.Some? && p.time.Some? && prev.value.time.Some?
    then Seconds(prev.value.time.value, p.time.value) else 0.0
  }

  /** `speed_kmh` of a point: the extension speed unless it is 0; then,
      given a previous point, both timestamps and a positive elapsed time,
      the accepted distance over the elapsed time, in km/h; else 0. */
  function PointSpeed(p: TrackPoint, prev: Option<TrackPoint>, dist: real): (speed: real)
    ensures ExtensionSpeed(p.extensions) != 0.0 ==> speed == ExtensionSpeed(p.extensions)
    ensures prev.None? || p.time.None? ==> speed == ExtensionSpeed(p.extensions)
    ensures ExtensionSpeed(p.extensions) == 0.0 && dist >= 0.0 ==> speed >= 0.0
    ensures ExtensionSpeed(p.extensions) == 0.0 && Elapsed(prev, p) > 0.0 ==>
      speed * Elapsed(prev, p) == dist * KmhPerMs
    ensures ExtensionSpeed(p.extensions) == 0.0 && Elapsed(prev, p) <= 0.0 ==> speed == 0.0
  {
    var fromExtension := ExtensionSpeed(p.extensions);
    if fromExtension == 0.0 && prev.Some? && p.time.Some? && prev.value.time.Some? then
      var dt := Seconds(prev.value.time.value, p.time.value);
      if dt > 0.0 then dist / dt * KmhPerMs else fromExtension
    else fromExtension
  }

  /** A written row and the running sums after it. */
  datatype Visited = Visited(row: CsvRow, totals: Totals)

  /** One iteration of the point loop. */
  function Visit(name: string, kind: string, t: Totals, prev: Option<TrackPoint>, p: TrackPoint,
                 distance3d: (TrackPoint, TrackPoint) -> Measurement): (v: Visited)
    ensures prev.None? ==> v.totals == t
    ensures prev.Some? ==> v.totals.distance == t.distance + AcceptedDistance(distance3d(p, prev.value))
    ensures prev.Some? ==> v.totals.dplus == t.dplus + Climb(prev.value.elevation, p.elevation)
    ensures v.row.distance == v.totals.distance && v.row.dplusCum == v.totals.dplus
    ensures ExtensionSpeed(p.extensions) != 0.0 || prev.None? ==> v.row.speedKmh == ExtensionSpeed(p.extensions)
    ensures ExtensionSpeed(p.extensions) == 0.0 ==> v.row.speedKmh >= 0.0
    ensures prev.Some? && ExtensionSpeed(p.extensions) == 0.0 && Elapsed(prev, p) > 0.0 ==>
      v.row.speedKmh * Elapsed(prev, p) == AcceptedDistance(distance3d(p, prev.value)) * KmhPerMs
    ensures ExtensionSpeed(p.extensions) == 0.0 && Elapsed(prev, p) <= 0.0 ==> v.row.speedKmh == 0.0
  {
    var dist := if prev.Some? then AcceptedDistance(distance3d(p, prev.value)) else 0.0;
    var climb := if prev.Some? then Climb(prev.value.elevation, p.elevation) else 0.0;
    var after := Totals(t.distance + dist, t.dplus + climb);
    Visited(CsvRow(name, kind, p.lat, p.lon, p.elevation, after.distance, after.dplus,
                   PointSpeed(p, prev, dist), p.time), after)
  }

  /** Rows written so far and the running sums after them. */
  datatype Pass = Pass(rows: seq<CsvRow>, totals: Totals)

  /** The loop over the points of one segment, from previous point `prev`. */
  function SegmentPass(name: string, kind: string, seg: seq<TrackPoint>, prev: Option<TrackPoint>, t: Totals,
                       distance3d: (TrackPoint, TrackPoint) -> Measurement): (r: Pass)
    ensures |r.rows| == |seg|
    decreases |seg|
  {
    if |seg| == 0 then Pass([], t)
    else
      var v := Visit(name, kind, t, prev, seg[0], distance3d);
      var rest := SegmentPass(name, kind, seg[1..], Some(seg[0]), v.totals, distance3d);
      Pass([v.row] + rest.rows, rest.totals)
  }

  /** The loop over the segments of one track: the running sums carry over
      from segment to segment, the previous point does not. */
  function SegmentsPass(name: string, kind: string, segs: seq<seq<TrackPoint>>, t: Totals,
                        distance3d: (TrackPoint, TrackPoint) -> Measurement): (r: Pass)
    ensures |r.rows| == |SegmentsSources(name, kind, segs)|
    decreases |segs|
  {
    if |segs| == 0 then Pass([], t)
    else
      var first := SegmentPass(name, kind, segs[0], None, t, distance3d);
      var rest := SegmentsPass(name, kind, segs[1..], first.totals, distance3d);
      Pass(first.rows + rest.rows, rest.totals)
  }

  /** The rows of one track, whose running sums start at 0. */
  function TrackRows(name: string, track: Track, distance3d: (TrackPoint, TrackPoint) -> Measurement): (rows: seq<CsvRow>)
    ensures |rows| == |SegmentsSources(name, KindName(track.kind), track.segments)|
    ensures |rows| > 0 ==> rows[0].distance == 0.0 && rows[0].dplusCum == 0.0
  {
    SegmentsStart(name, KindName(track.kind), track.segments, Totals(0.0, 0.0), distance3d);
    SegmentsPass(name, KindName(track.kind), track.segments, Totals(0.0, 0.0), distance3d).rows
  }

  /** The rows of the tracks of one file, track after track. */
  function TracksRows(name: string, tracks: seq<Track>, distance3d: (TrackPoint, TrackPoint) -> Measurement): (rows: seq<CsvRow>)
    ensures |rows| == |TracksSources(name, tracks)|
    decreases |tracks|
  {
    if |tracks| == 0 then []
    else TrackRows(name, tracks[0], distance3d) + TracksRows(name, tracks[1..], distance3d)
  }

  /** All rows written, file after file. */
  function DatasetRows(files: seq<GpxFile>, distance3d: (TrackPoint, TrackPoint) -> Measurement): (rows: seq<CsvRow>)
    ensures |rows| == |DatasetSources(files)|
    decreases |files|
  {
    if |files| == 0 then []
    else TracksRows(files[0].name, files[0].tracks, distance3d) + DatasetRows(files[1..], distance3d)
  }

  // ---------------------------------------------------------------------
  // Running sums as closed forms

  /** Accepted distances between consecutive points of a segment. */
  function StepDistances(seg: seq<TrackPoint>, distance3d: (TrackPoint, TrackPoint) -> Measurement): (d: seq<real>)
    ensures |d| == if |seg| == 0 then 0 else |seg| - 1
  {
    if |seg| == 0 then []
    else seq(|seg| - 1, j requires 0 <= j < |seg| - 1 => AcceptedDistance(distance3d(seg[j + 1], seg[j])))
  }

  /** Elevation gains between consecutive points of a segment. */
  function StepClimbs(seg: seq<TrackPoint>): (c: seq<real>)
    ensures |c| == if |seg| == 0 then 0 else |seg| - 1
  {
    if |seg| == 0 then []
    else seq(|seg| - 1, j requires 0 <= j < |seg| - 1 => Climb(seg[j].elevation, seg[j + 1].elevation))
  }

  /** Distance of a track's segments: the accepted steps within each
      segment, nothing between segments. */
  function SegmentsDistance(segs: seq<seq<TrackPoint>>, distance3d: (TrackPoint, TrackPoint) -> Measurement): real
    decreases |segs|
  {
    if |segs| == 0 then 0.0
    else Sum(StepDistances(segs[0], distance3d)) + SegmentsDistance(segs[1..], distance3d)
  }

  /** D+ of a track's segments: the positive rises within each segment. */
  function SegmentsClimb(segs: seq<seq<TrackPoint>>): real
    decreases |segs|
  {
    if |segs| == 0 then 0.0 else Sum(StepClimbs(segs[0])) + SegmentsClimb(segs[1..])
  }

  lemma SumCons(x: real, s: seq<real>)
    ensures Sum([x] + s) == x + Sum(s)
  {
    SumAppend([x], s);
    assert [x] == [] + [x];
  }

  lemma StepDistancesCons(q: TrackPoint, rest: seq<TrackPoint>, distance3d: (TrackPoint, TrackPoint) -> Measurement)
    requires |rest| > 0
    ensures StepDistances([q] + rest, distance3d)
         == [AcceptedDistance(distance3d(rest[0], q))] + StepDistances(rest, distance3d)
  {
    var a := StepDistances([q] + rest, distance3d);
    var b := [AcceptedDistance(distance3d(rest[0], q))] + StepDistances(rest, distance3d);
    assert |a| == |b|;
    forall j | 0 <= j < |a| ensures a[j] == b[j] {
      assert ([q] + rest)[j + 1] == rest[j];
      if j > 0 {
        assert ([q] + rest)[j] == rest[j - 1];
      }
    }
  }

  lemma StepClimbsCons(q: TrackPoint, rest: seq<TrackPoint>)
    requires |rest| > 0
    ensures StepClimbs([q] + rest) == [Climb(q.elevation, rest[0].elevation)] + StepClimbs(rest)
  {
    var a := StepClimbs([q] + rest);
    var b := [Climb(q.elevation, rest[0].elevation)] + StepClimbs(rest);
    assert |a| == |b|;
    forall j | 0 <= j < |a| ensures a[j] == b[j] {
      assert ([q] + rest)[j + 1] == rest[j];
      if j > 0 {
        assert ([q] + rest)[j] == rest[j - 1];
      }
    }
  }

  /** Continuing a segment from point `q` adds the steps of `[q] + rest`. */
  lemma {:induction false} ContinuedSegmentTotals(name: string, kind: string, q: TrackPoint, rest: seq<TrackPoint>,
                                                  t: Totals, distance3d: (TrackPoint, TrackPoint) -> Measurement)
    ensures SegmentPass(name, kind, rest, Some(q), t, distance3d).totals
         == Totals(t.distance + Sum(StepDistances([q] + rest, distance3d)), t.dplus + Sum(StepClimbs([q] + rest)))
    decreases |rest|
  {
    if |rest| == 0 {
      assert StepDistances([q], distance3d) == [] && StepClimbs([q]) == [];
    } else {
      var v := Visit(name, kind, t, Some(q), rest[0], distance3d);
      ContinuedSegmentTotals(name, kind, rest[0], rest[1..], v.totals, distance3d);
      assert [rest[0]] + rest[1..] == rest;
      StepDistancesCons(q, rest, distance3d);
      StepClimbsCons(q, rest);
      SumCons(AcceptedDistance(distance3d(rest[0], q)), StepDistances(rest, distance3d));
      SumCons(Climb(q.elevation, rest[0].elevation), StepClimbs(rest));
    }
  }

  /** After a segment, the running sums have grown by the sum of its
      accepted step distances and by the sum of its positive rises. */
  lemma SegmentTotals(name: string, kind: string, seg: seq<TrackPoint>, t: Totals,
                      distance3d: (TrackPoint, TrackPoint) -> Measurement)
    ensures SegmentPass(name, kind, seg, None, t, distance3d).totals
         == Totals(t.distance + Sum(StepDistances(seg, distance3d)), t.dplus + Sum(StepClimbs(seg)))
  {
    if |seg| > 0 {
      ContinuedSegmentTotals(name, kind, seg[0], seg[1..], t, distance3d);
      assert [seg[0]] + seg[1..] == seg;
    }
  }

  /** After the segments of a track, the running sums have grown by the
      segments' distances and D+, with no step across a segment boundary. */
  lemma {:induction false} SegmentsTotals(name: string, kind: string, segs: seq<seq<TrackPoint>>, t: Totals,
                                          distance3d: (TrackPoint, TrackPoint) -> Measurement)
    ensures SegmentsPass(name, kind, segs, t, distance3d).totals
         == Totals(t.distance + SegmentsDistance(segs, distance3d), t.dplus + SegmentsClimb(segs))
    decreases |segs|
  {
    if |segs| > 0 {
      SegmentTotals(name, kind, segs[0], t, distance3d);
      SegmentsTotals(name, kind, segs[1..], SegmentPass(name, kind, segs[0], None, t, distance3d).totals, distance3d);
    }
  }

  // ---------------------------------------------------------------------
  // Growth of the running sums

  /** The rows `rows`, written from running sums `t` to `t'`, never lower
      either sum, raise the distance by less than 200 per row, and end on
      `t'`. */
  ghost predicate Growth(t: Totals, rows: seq<CsvRow>, t': Totals)
  {
    && (|rows| == 0 ==> t' == t)
    && (|rows| > 0 ==> rows[|rows| - 1].distance == t'.distance && rows[|rows| - 1].dplusCum == t'.dplus)
    && (|rows| > 0 ==> 0.0 <= rows[0].distance - t.distance < MaxStepDistance && t.dplus <= rows[0].dplusCum)
    && (forall i, j :: 0 <= i < j < |rows| && j == i + 1 ==>
          0.0 <= rows[j].distance - rows[i].distance < MaxStepDistance
          && rows[i].dplusCum <= rows[j].dplusCum)
  }

  lemma GrowthConcat(t: Totals, a: seq<CsvRow>, t1: Totals, b: seq<CsvRow>, t2: Totals)
    requires Growth(t, a, t1) && Growth(t1, b, t2)
    ensures Growth(t, a + b, t2)
  {
    var r := a + b;
    forall i, j | 0 <= i < j < |r| && j == i + 1
      ensures 0.0 <= r[j].distance - r[i].distance < MaxStepDistance
      ensures r[i].dplusCum <= r[j].dplusCum
    {
      if j > |a| {
        assert r[j] == b[j - |a|] && r[i] == b[i - |a|];
      } else if j == |a| {
        assert r[j] == b[0];
      } else {
        assert r[j] == a[j] && r[i] == a[i];
      }
    }
  }

  lemma {:induction false} GrowthFromStart(t: Totals, rows: seq<CsvRow>, t': Totals, i: nat)
    requires Growth(t, rows, t') && i < |rows|
    ensures t.distance <= rows[i].distance && t.dplus <= rows[i].dplusCum
    decreases i
  {
    if i > 0 {
      GrowthFromStart(t, rows, t', i - 1);
    }
  }

  lemma {:induction false} GrowthToEnd(t: Totals, rows: seq<CsvRow>, t': Totals, j: nat)
    requires Growth(t, rows, t') && j < |rows|
    ensures rows[j].distance <= t'.distance && rows[j].dplusCum <= t'.dplus
    decreases |rows| - j
  {
    if j < |rows| - 1 {
      GrowthToEnd(t, rows, t', j + 1);
    }
  }

  lemma {:induction false} GrowthBetween(t: Totals, rows: seq<CsvRow>, t': Totals, i: nat, j: nat)
    requires Growth(t, rows, t') && i <= j < |rows|
    ensures rows[i].distance <= rows[j].distance && rows[i].dplusCum <= rows[j].dplusCum
    decreases j - i
  {
    if i < j {
      GrowthBetween(t, rows, t', i, j - 1);
    }
  }

  /** Growth implies the running sums never decrease along the rows. */
  lemma GrowthMonotone(t: Totals, rows: seq<CsvRow>, t': Totals, i: nat, j: nat)
    requires Growth(t, rows, t') && i <= j < |rows|
    ensures t.distance <= rows[i].distance <= rows[j].distance <= t'.distance
    ensures t.dplus <= rows[i].dplusCum <= rows[j].dplusCum <= t'.dplus
  {
    GrowthFromStart(t, rows, t', i);
    GrowthBetween(t, rows, t', i, j);
    GrowthToEnd(t, rows, t', j);
  }

  lemma {:induction false} SegmentGrowth(name: string, kind: string, seg: seq<TrackPoint>, prev: Option<TrackPoint>,
                                         t: Totals, distance3d: (TrackPoint, TrackPoint) -> Measurement)
    ensures Growth(t, SegmentPass(name, kind, seg, prev, t, distance3d).rows,
                   SegmentPass(name, kind, seg, prev, t, distance3d).totals)
    decreases |seg|
  {
    if |seg| > 0 {
      var v := Visit(name, kind, t, prev, seg[0], distance3d);
      var rest := SegmentPass(name, kind, seg[1..], Some(seg[0]), v.totals, distance3d);
      SegmentGrowth(name, kind, seg[1..], Some(seg[0]), v.totals, distance3d);
      assert Growth(t, [v.row], v.totals);
      GrowthConcat(t, [v.row], v.totals, rest.rows, rest.totals);
    }
  }

  lemma {:induction false} SegmentsGrowth(name: string, kind: string, segs: seq<seq<TrackPoint>>, t: Totals,
                                          distance3d: (TrackPoint, TrackPoint) -> Measurement)
    ensures Growth(t, SegmentsPass(name, kind, segs, t, distance3d).rows,
                   SegmentsPass(name, kind, segs, t, distance3d).totals)
    decreases |segs|
  {
    if |segs| > 0 {
      var first := SegmentPass(name, kind, segs[0], None, t, distance3d);
      var rest := SegmentsPass(name, kind, segs[1..], first.totals, distance3d);
      SegmentGrowth(name, kind, segs[0], None, t, distance3d);
      SegmentsGrowth(name, kind, segs[1..], first.totals, distance3d);
      GrowthConcat(t, first.rows, first.totals, rest.rows, rest.totals);
    }
  }

  /** The first point of a segment adds no distance and no D+, and its
      speed is its extension speed alone. */
  lemma SegmentStart(name: string, kind: string, seg: seq<TrackPoint>, t: Totals,
                     distance3d: (TrackPoint, TrackPoint) -> Measurement)
    requires |seg| > 0
    ensures SegmentPass(name, kind, seg, None, t, distance3d).rows[0].distance == t.distance
    ensures SegmentPass(name, kind, seg, None, t, distance3d).rows[0].dplusCum == t.dplus
    ensures SegmentPass(name, kind, seg, None, t, distance3d).rows[0].speedKmh == ExtensionSpeed(seg[0].extensions)
  {
  }

  lemma {:induction false} SegmentsStart(name: string, kind: string, segs: seq<seq<TrackPoint>>, t: Totals,
                                         distance3d: (TrackPoint, TrackPoint) -> Measurement)
    ensures |SegmentsPass(name, kind, segs, t, distance3d).rows| > 0 ==>
      SegmentsPass(name, kind, segs, t, distance3d).rows[0].distance == t.distance
      && SegmentsPass(name, kind, segs, t, distance3d).rows[0].dplusCum == t.dplus
    decreases |segs|
  {
    if |segs| > 0 {
      var first := SegmentPass(name, kind, segs[0], None, t, distance3d);
      if |segs[0]| == 0 {
        SegmentsStart(name, kind, segs[1..], first.totals, distance3d);
      } else {
        SegmentStart(name, kind, segs[0], t, distance3d);
      }
    }
  }

  /** Every row of a segment after its first gets its speed from its point
      and the point before it, with the accepted distance between them. */
  lemma {:induction false} SegmentRowSpeed(name: string, kind: string, seg: seq<TrackPoint>, prev: Option<TrackPoint>,
                                           t: Totals, distance3d: (TrackPoint, TrackPoint) -> Measurement, k: nat)
    requires 0 < k < |seg|
    ensures SegmentPass(name, kind, seg, prev, t, distance3d).rows[k].speedKmh
         == PointSpeed(seg[k], Some(seg[k - 1]), AcceptedDistance(distance3d(seg[k], seg[k - 1])))
    decreases k
  {
    var v := Visit(name, kind, t, prev, seg[0], distance3d);
    var rest := SegmentPass(name, kind, seg[1..], Some(seg[0]), v.totals, distance3d);
    assert SegmentPass(name, kind, seg, prev, t, distance3d).rows[k] == rest.rows[k - 1];
    if k == 1 {
      var w := Visit(name, kind, v.totals, Some(seg[0]), seg[1], distance3d);
      assert rest.rows[0] == w.row;
    } else {
      SegmentRowSpeed(name, kind, seg[1..], Some(seg[0]), v.totals, distance3d, k - 1);
      assert seg[1..][k - 1] == seg[k] && seg[1..][k - 2] == seg[k - 1];
    }
  }

  /** Within a track the cumulative distance and D+ start at 0 on its first
      row, never decrease, grow by less than 200 m per row, and end on the
      track's closed-form distance and D+. */
  lemma TrackRunningSums(name: string, track: Track, distance3d: (TrackPoint, TrackPoint) -> Measurement)
    ensures var rows := TrackRows(name, track, distance3d);
      && (|rows| > 0 ==> rows[0].distance == 0.0 && rows[0].dplusCum == 0.0)
      && (forall i, j :: 0 <= i <= j < |rows| ==>
            0.0 <= rows[i].distance <= rows[j].distance && 0.0 <= rows[i].dplusCum <= rows[j].dplusCum)
      && (forall i, j :: 0 <= i < j < |rows| && j == i + 1 ==> rows[j].distance - rows[i].distance < MaxStepDistance)
      && (|rows| > 0 ==>
            rows[|rows| - 1].distance == SegmentsDistance(track.segments, distance3d)
            && rows[|rows| - 1].dplusCum == SegmentsClimb(track.segments))
  {
    var zero := Totals(0.0, 0.0);
    var pass := SegmentsPass(name, KindName(track.kind), track.segments, zero, distance3d);
    SegmentsGrowth(name, KindName(track.kind), track.segments, zero, distance3d);
    SegmentsTotals(name, KindName(track.kind), track.segments, zero, distance3d);
    SegmentsStart(name, KindName(track.kind), track.segments, zero, distance3d);
    forall i, j | 0 <= i <= j < |pass.rows|
      ensures 0.0 <= pass.rows[i].distance <= pass.rows[j].distance
      ensures 0.0 <= pass.rows[i].dplusCum <= pass.rows[j].dplusCum
    {
      GrowthMonotone(zero, pass.rows, pass.totals, i, j);
    }
  }

  // ---------------------------------------------------------------------
  // One row per point

  /** A point with the file name and activity type its row carries. */
  datatype Source = Source(fileName: string, activityType: string, point: TrackPoint)

  /** The points of some segments, in loop order. */
  function SegmentsSources(name: string, kind: string, segs: seq<seq<TrackPoint>>): seq<Source>
    decreases |segs|
  {
    if |segs| == 0 then []
    else seq(|segs[0]|, k requires 0 <= k < |segs[0]| => Source(name, kind, segs[0][k]))
         + SegmentsSources(name, kind, segs[1..])
  }

  function TracksSources(name: string, tracks: seq<Track>): seq<Source>
    decreases |tracks|
  {
    if |tracks| == 0 then []
    else SegmentsSources(name, KindName(tracks[0].kind), tracks[0].segments) + TracksSources(name, tracks[1..])
  }

  /** Every point of the dataset, file after file, track after track. */
  function DatasetSources(files: seq<GpxFile>): seq<Source>
    decreases |files|
  {
    if |files| == 0 then []
    else TracksSources(files[0].name, files[0].tracks) + DatasetSources(files[1..])
  }

  /** A row carries its point's file, activity, position, altitude and
      time; the altitude and time cells are empty exactly when absent. */
  predicate Echoes(row: CsvRow, src: Source)
  {
    && row.fileName == src.fileName
    && row.activityType == src.activityType
    && row.lat == src.point.lat
    && row.lon == src.point.lon
    && row.altitude == src.point.elevation
    && row.time == src.point.time
  }

  predicate AllEcho(rows: seq<CsvRow>, srcs: seq<Source>)
  {
    |rows| == |srcs| && forall k :: 0 <= k < |rows| ==> Echoes(rows[k], srcs[k])
  }

  lemma AllEchoConcat(a: seq<CsvRow>, x: seq<Source>, b: seq<CsvRow>, y: seq<Source>)
    requires AllEcho(a, x) && AllEcho(b, y)
    ensures AllEcho(a + b, x + y)
  {
    forall k | 0 <= k < |a + b|
      ensures Echoes((a + b)[k], (x + y)[k])
    {
      if k >= |a| {
        assert (a + b)[k] == b[k - |a|] && (x + y)[k] == y[k - |a|];
      }
    }
  }

  lemma {:induction false} SegmentEcho(name: string, kind: string, seg: seq<TrackPoint>, prev: Option<TrackPoint>,
                                       t: Totals, distance3d: (TrackPoint, TrackPoint) -> Measurement)
    ensures AllEcho(SegmentPass(name, kind, seg, prev, t, distance3d).rows,
                    seq(|seg|, k requires 0 <= k < |seg| => Source(name, kind, seg[k])))
    decreases |seg|
  {
    if |seg| > 0 {
      var v := Visit(name, kind, t, prev, seg[0], distance3d);
      SegmentEcho(name, kind, seg[1..], Some(seg[0]), v.totals, distance3d);
      var srcs := seq(|seg|, k requires 0 <= k < |seg| => Source(name, kind, seg[k]));
      var tail := seq(|seg[1..]|, k requires 0 <= k < |seg[1..]| => Source(name, kind, seg[1..][k]));
      assert srcs == [Source(name, kind, seg[0])] + tail;
      AllEchoConcat([v.row], [Source(name, kind, seg[0])],
                    SegmentPass(name, kind, seg[1..], Some(seg[0]), v.totals, distance3d).rows, tail);
    }
  }

  lemma {:induction false} SegmentsEcho(name: string, kind: string, segs: seq<seq<TrackPoint>>, t: Totals,
                                        distance3d: (TrackPoint, TrackPoint) -> Measurement)
    ensures AllEcho(SegmentsPass(name, kind, segs, t, distance3d).rows, SegmentsSources(name, kind, segs))
    decreases |segs|
  {
    if |segs| > 0 {
      var first := SegmentPass(name, kind, segs[0], None, t, distance3d);
      SegmentEcho(name, kind, segs[0], None, t, distance3d);
      SegmentsEcho(name, kind, segs[1..], first.totals, distance3d);
      AllEchoConcat(first.rows, seq(|segs[0]|, k requires 0 <= k < |segs[0]| => Source(name, kind, segs[0][k])),
                    SegmentsPass(name, kind, segs[1..], first.totals, distance3d).rows,
                    SegmentsSources(name, kind, segs[1..]));
    }
  }

  lemma {:induction false} TracksEcho(name: string, tracks: seq<Track>, distance3d: (TrackPoint, TrackPoint) -> Measurement)
    ensures AllEcho(TracksRows(name, tracks, distance3d), TracksSources(name, tracks))
    decreases |tracks|
  {
    if |tracks| > 0 {
      SegmentsEcho(name, KindName(tracks[0].kind), tracks[0].segments, Totals(0.0, 0.0), distance3d);
      TracksEcho(name, tracks[1..], distance3d);
      AllEchoConcat(TrackRows(name, tracks[0], distance3d),
                    SegmentsSources(name, KindName(tracks[0].kind), tracks[0].segments),
                    TracksRows(name, tracks[1..], distance3d), TracksSources(name, tracks[1..]));
    }
  }

  /** Exactly one row per point, in loop order, echoing the point. */
  lemma {:induction false} DatasetEcho(files: seq<GpxFile>, distance3d: (TrackPoint, TrackPoint) -> Measurement)
    ensures |DatasetRows(files, distance3d)| == |DatasetSources(files)|
    ensures forall k :: 0 <= k < |DatasetSources(files)| ==>
      Echoes(DatasetRows(files, distance3d)[k], DatasetSources(files)[k])
    decreases |files|
  {
    if |files| > 0 {
      TracksEcho(files[0].name, files[0].tracks, distance3d);
      DatasetEcho(files[1..], distance3d);
      AllEchoConcat(TracksRows(files[0].name, files[0].tracks, distance3d), TracksSources(files[0].name, files[0].tracks),
                    DatasetRows(files[1..], distance3d), DatasetSources(files[1..]));
    }
  }
}
