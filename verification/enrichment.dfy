/** The enrichment pass of scripts/enrich_dataset.py: `enrich_group`
    (lines 55-76) applied to each trace by
    `groupby("track_id").apply(enrich_group)` (line 81), over the rows
    sorted and numbered as in lines 40-45, with the activity label
    normalised (lines 86-97). */
module Enrichment {
  import opened Common
  import opened TraceGrouping
  import MedianFilter
  import StepMetrics
  import RelativeTime
  import ActivityLabels

  /** Width of the altitude median filter. */
  const AltWindow: int := 7

  /** A raw row with the columns the enrichment adds. */
  datatype EnrichedRow = EnrichedRow(
    row: RawRow,
    trackId: nat,
    pointIdx: nat,
    altitudeSmooth: Option<real>,
    distanceStep: Option<real>,
    dplusStep: real,
    dplusCum: real,
    timeS: Option<real>,
    activityShort: string)

  function Altitudes(g: seq<RawRow>): (c: seq<Option<real>>)
    ensures |c| == |g| && forall i :: 0 <= i < |g| ==> c[i] == g[i].altitude
  {
    seq(|g|, i requires 0 <= i < |g| => g[i].altitude)
  }

  function Distances(g: seq<RawRow>): (c: seq<Option<real>>)
    ensures |c| == |g| && forall i :: 0 <= i < |g| ==> c[i] == g[i].distance
  {
    seq(|g|, i requires 0 <= i < |g| => g[i].distance)
  }

  function Times(g: seq<RawRow>): (c: seq<Option<int>>)
    ensures |c| == |g| && forall i :: 0 <= i < |g| ==> c[i] == g[i].time
  {
    seq(|g|, i requires 0 <= i < |g| => g[i].time)
  }

  /** `enrich_group` on the rows `g` of one trace, whose `track_id` is
      `trackId`: the rows are kept in order and their `point_idx` is their
      position in the trace. */
  function EnrichTrace(g: seq<RawRow>, trackId: nat): (r: seq<EnrichedRow>)
    ensures |r| == |g|
    ensures forall i :: 0 <= i < |g| ==> r[i].row == g[i] && r[i].trackId == trackId && r[i].pointIdx == i
  {
    var smooth := MedianFilter.MedianFilterSeries(Altitudes(g), Some(AltWindow));
    var dist := StepMetrics.DistanceSteps(Distances(g));
    var dplus := StepMetrics.DplusSteps(smooth);
    var cum := StepMetrics.CumSum(dplus);
    var clock := RelativeTime.RelativeTimes(Times(g));
    seq(|g|, i requires 0 <= i < |g| =>
      EnrichedRow(g[i], trackId, i, smooth[i], dist[i], dplus[i], cum[i], clock[i],
                  ActivityLabels.ShortName(g[i].activityType)))
  }

  /** What holds of every enriched row: a present distance step lies in
      [0, 200]; the D+ step is 0 or above the threshold; the running D+ is
      at least the step; the short label is the normalised activity type. */
  predicate RowFacts(e: EnrichedRow)
  {
    && (e.distanceStep.Some? ==> 0.0 <= e.distanceStep.value <= StepMetrics.MaxStepJump)
    && (e.dplusStep == 0.0 || e.dplusStep > StepMetrics.DplusEps)
    && 0.0 <= e.dplusStep <= e.dplusCum
    && e.activityShort == ActivityLabels.ShortName(e.row.activityType)
  }

  /** The first row of a trace is its origin: no distance step, no D+. */
  predicate OriginFacts(e: EnrichedRow)
  {
    e.distanceStep.None? && e.dplusStep == 0.0 && e.dplusCum == 0.0
  }

  /** Between consecutive rows `a`, `b` of one trace: the running D+ adds
      `b`'s step, a nonzero step is the smoothed altitude rise, and a
      distance step is present exactly when both distances are. */
  predicate StepFacts(a: EnrichedRow, b: EnrichedRow)
  {
    && b.dplusCum == a.dplusCum + b.dplusStep
    && (b.dplusStep != 0.0 ==>
          a.altitudeSmooth.Some? && b.altitudeSmooth.Some?
          && b.dplusStep == b.altitudeSmooth.value - a.altitudeSmooth.value)
    && (b.distanceStep.Some? <==> a.row.distance.Some? && b.row.distance.Some?)
  }

  /** The D+ steps of a trace: thresholded rises of the smoothed altitude. */
  function DplusStepsOf(g: seq<RawRow>): (d: seq<real>)
    ensures |d| == |g|
  {
    StepMetrics.DplusSteps(MedianFilter.MedianFilterSeries(Altitudes(g), Some(AltWindow)))
  }

  /** The facts `enrich_group` establishes on one trace. */
  lemma {:induction false} EnrichTraceFacts(g: seq<RawRow>, trackId: nat)
    ensures TraceFacts(EnrichTrace(g, trackId))
  {
    var r := EnrichTrace(g, trackId);
    forall i | 0 <= i < |r|
      ensures IndexFacts(r, i)
    {
      EnrichedRowFacts(g, trackId, i);
    }
    FactsFromIndices(r);
  }

  /** The facts of row `i` of a trace, with its predecessor. */
  predicate IndexFacts(r: seq<EnrichedRow>, i: nat)
    requires i < |r|
  {
    && RowFacts(r[i])
    && (i == 0 ==> OriginFacts(r[i]))
    && (i > 0 ==> StepFacts(r[i - 1], r[i]))
  }

  lemma {:induction false} FactsFromIndices(r: seq<EnrichedRow>)
    requires forall i :: 0 <= i < |r| ==> IndexFacts(r, i)
    ensures TraceFacts(r)
  {
    forall i | 0 <= i < |r|
      ensures RowFacts(r[i])
    {
      assert IndexFacts(r, i);
    }
    if |r| > 0 {
      assert IndexFacts(r, 0);
    }
    forall i, j | 0 <= i < j < |r| && j == i + 1
      ensures StepFacts(r[i], r[j])
    {
      assert IndexFacts(r, j);
    }
  }

  lemma {:induction false} EnrichedRowFacts(g: seq<RawRow>, trackId: nat, i: nat)
    requires i < |g|
    ensures RowFacts(EnrichTrace(g, trackId)[i])
    ensures i == 0 ==> OriginFacts(EnrichTrace(g, trackId)[i])
    ensures i > 0 ==> StepFacts(EnrichTrace(g, trackId)[i - 1], EnrichTrace(g, trackId)[i])
  {
    var dplus := DplusStepsOf(g);
    var cum := StepMetrics.CumSum(dplus);
    StepMetrics.CumSumSteps(dplus);
    StepMetrics.CumSumMonotone(dplus);
    assert 0.0 <= dplus[i] <= cum[i] by {
      if i > 0 {
        assert cum[i] == cum[i - 1] + dplus[i];
      }
    }
  }

  lemma {:induction false} EnrichTraceTotal(g: seq<RawRow>, trackId: nat)
    requires |g| > 0
    ensures EnrichTrace(g, trackId)[|g| - 1].dplusCum == Sum(DplusStepsOf(g))
  {
    StepMetrics.CumSumSteps(DplusStepsOf(g));
  }

  /** Length of the run of rows from `e` on that share the first row's
      file name, counted from the start. */
  function RunFrom(s: seq<RawRow>, e: nat): (n: nat)
    requires 1 <= e <= |s|
    ensures e <= n <= |s|
    decreases |s| - e
  {
    if e == |s| || s[e].fileName != s[0].fileName then e else RunFrom(s, e + 1)
  }

  /** The first trace of the rows: the longest prefix sharing one file name. */
  function RunLength(s: seq<RawRow>): (n: nat)
    requires |s| > 0
    ensures 1 <= n <= |s|
  {
    RunFrom(s, 1)
  }

  lemma {:induction false} RunFromFacts(s: seq<RawRow>, e: nat)
    requires 1 <= e <= |s| && forall k :: 0 <= k < e ==> s[k].fileName == s[0].fileName
    ensures forall k :: 0 <= k < RunFrom(s, e) ==> s[k].fileName == s[0].fileName
    ensures RunFrom(s, e) < |s| ==> s[RunFrom(s, e)].fileName != s[0].fileName
    decreases |s| - e
  {
    if e < |s| && s[e].fileName == s[0].fileName {
      RunFromFacts(s, e + 1);
    }
  }

  /** The first trace is maximal: its rows share the first row's file name
      and the row after it, if any, does not. */
  lemma {:induction false} RunLengthFacts(s: seq<RawRow>)
    requires |s| > 0
    ensures forall k :: 0 <= k < RunLength(s) ==> s[k].fileName == s[0].fileName
    ensures RunLength(s) < |s| ==> s[RunLength(s)].fileName != s[0].fileName
  {
    RunFromFacts(s, 1);
  }

  /** `groupby(...).apply(f)` over rows whose traces are contiguous: each
      trace is handed to `f` on its own, with consecutive `track_id`s from
      `firstId`, and the results are concatenated in order. */
  function GroupApply(s: seq<RawRow>, firstId: nat, f: (seq<RawRow>, nat) -> seq<EnrichedRow>): (r: seq<EnrichedRow>)
    ensures Sized(f) ==> |r| == |s|
    decreases |s|
  {
    if |s| == 0 then []
    else
      var n := RunLength(s);
      f(s[..n], firstId) + GroupApply(s[n..], firstId + 1, f)
  }

  /** `f` returns one row per row of the trace. */
  ghost predicate Sized(f: (seq<RawRow>, nat) -> seq<EnrichedRow>)
  {
    forall g, t :: |f(g, t)| == |g|
  }

  /** `f` keeps a trace's rows in order, stamps them with the given
      `track_id` and numbers them from 0. */
  ghost predicate NumbersRows(f: (seq<RawRow>, nat) -> seq<EnrichedRow>)
  {
    Sized(f) && forall g, t :: forall i :: 0 <= i < |g| ==>
      f(g, t)[i].row == g[i] && f(g, t)[i].trackId == t && f(g, t)[i].pointIdx == i
  }

  /** The facts of one enriched trace. */
  ghost predicate TraceFacts(r: seq<EnrichedRow>)
  {
    && (forall i :: 0 <= i < |r| ==> RowFacts(r[i]))
    && (|r| > 0 ==> OriginFacts(r[0]))
    && (forall i, j :: 0 <= i < j < |r| && j == i + 1 ==> StepFacts(r[i], r[j]))
  }

  /** `f` gives every row of every trace the facts of `enrich_group`. */
  ghost predicate KeepsFacts(f: (seq<RawRow>, nat) -> seq<EnrichedRow>)
  {
    forall g, t, i :: 0 <= i < |f(g, t)| ==> IndexFacts(f(g, t), i)
  }

  lemma {:induction false} GroupApplyRows(s: seq<RawRow>, firstId: nat, f: (seq<RawRow>, nat) -> seq<EnrichedRow>)
    requires NumbersRows(f)
    ensures forall i :: 0 <= i < |s| ==> GroupApply(s, firstId, f)[i].row == s[i]
    decreases |s|
  {
    if |s| > 0 {
      var n := RunLength(s);
      var a := f(s[..n], firstId);
      var b := GroupApply(s[n..], firstId + 1, f);
      GroupApplyRows(s[n..], firstId + 1, f);
      var r := a + b;
      assert GroupApply(s, firstId, f) == r;
      forall i | 0 <= i < |s|
        ensures r[i].row == s[i]
      {
        if i >= n {
          assert r[i] == b[i - n] && s[n..][i - n] == s[i];
        }
      }
    }
  }

  /** Numbering of consecutive rows `i`, `i + 1`: the same trace keeps the
      `track_id` and takes the next `point_idx`; a new trace takes the next
      `track_id` and `point_idx` 0. */
  ghost predicate NextNumber(s: seq<RawRow>, r: seq<EnrichedRow>, i: nat)
    requires i + 1 < |s| && |r| == |s|
  {
    && (s[i + 1].fileName == s[i].fileName ==>
          r[i + 1].trackId == r[i].trackId && r[i + 1].pointIdx == r[i].pointIdx + 1)
    && (s[i + 1].fileName != s[i].fileName ==>
          r[i + 1].trackId == r[i].trackId + 1 && r[i + 1].pointIdx == 0)
  }

  lemma {:induction false} GroupApplyNumbering(s: seq<RawRow>, firstId: nat, f: (seq<RawRow>, nat) -> seq<EnrichedRow>,
                                               r: seq<EnrichedRow>, i: nat)
    requires NumbersRows(f) && i + 1 < |s| && r == GroupApply(s, firstId, f)
    ensures |r| == |s| && NextNumber(s, r, i)
    decreases |s|, 2
  {
    var n := RunLength(s);
    if i + 1 < n {
      NumberingInRun(s, firstId, f, r, i);
    } else if i + 1 == n {
      NumberingAtBoundary(s, firstId, f, r, i);
    } else {
      NumberingAfterRun(s, firstId, f, r, i);
    }
  }

  lemma {:induction false} NumberingInRun(s: seq<RawRow>, firstId: nat, f: (seq<RawRow>, nat) -> seq<EnrichedRow>, r: seq<EnrichedRow>, i: nat)
    requires NumbersRows(f) && |s| > 0 && i + 1 < RunLength(s) && r == GroupApply(s, firstId, f)
    ensures |r| == |s| && NextNumber(s, r, i)
  {
    var n := RunLength(s);
    GroupApplySplit(s, firstId, f);
    NextNumberInRun(s, f(s[..n], firstId), GroupApply(s[n..], firstId + 1, f), firstId, i);
  }

  lemma {:induction false} NumberingAtBoundary(s: seq<RawRow>, firstId: nat, f: (seq<RawRow>, nat) -> seq<EnrichedRow>, r: seq<EnrichedRow>, i: nat)
    requires NumbersRows(f) && |s| > 0 && i + 1 == RunLength(s) < |s| && r == GroupApply(s, firstId, f)
    ensures |r| == |s| && NextNumber(s, r, i)
  {
    var n := RunLength(s);
    GroupApplySplit(s, firstId, f);
    var b := GroupApply(s[n..], firstId + 1, f);
    FirstNumber(s[n..], firstId + 1, f, b);
    NextNumberAtBoundary(s, f(s[..n], firstId), b, firstId, i);
  }

  lemma {:induction false} NumberingAfterRun(s: seq<RawRow>, firstId: nat, f: (seq<RawRow>, nat) -> seq<EnrichedRow>, r: seq<EnrichedRow>, i: nat)
    requires NumbersRows(f) && |s| > 0 && RunLength(s) <= i && i + 1 < |s| && r == GroupApply(s, firstId, f)
    ensures |r| == |s| && NextNumber(s, r, i)
    decreases |s|, 1
  {
    var n := RunLength(s);
    GroupApplySplit(s, firstId, f);
    NextNumberShift(s, f(s[..n], firstId), GroupApply(s[n..], firstId + 1, f), r, n, i, firstId, f);
  }

  /** Two rows inside the first trace. */
  lemma {:induction false} NextNumberInRun(s: seq<RawRow>, a: seq<EnrichedRow>, b: seq<EnrichedRow>, firstId: nat, i: nat)
    requires |s| > 0 && |a| == RunLength(s) && |a| + |b| == |s| && i + 1 < |a|
    requires a[i].trackId == firstId && a[i + 1].trackId == firstId
    requires a[i].pointIdx == i && a[i + 1].pointIdx == i + 1
    ensures NextNumber(s, a + b, i)
  {
    RunLengthFacts(s);
    var r := a + b;
    assert r[i] == a[i] && r[i + 1] == a[i + 1];
    assert s[i].fileName == s[0].fileName && s[i + 1].fileName == s[0].fileName;
  }

  /** The last row of the first trace and the first row of the next. */
  lemma {:induction false} NextNumberAtBoundary(s: seq<RawRow>, a: seq<EnrichedRow>, b: seq<EnrichedRow>, firstId: nat, i: nat)
    requires |s| > 0 && |a| == RunLength(s) && |a| + |b| == |s| && i + 1 == |a| && |b| > 0
    requires a[i].trackId == firstId && b[0].trackId == firstId + 1 && b[0].pointIdx == 0
    ensures NextNumber(s, a + b, i)
  {
    RunLengthFacts(s);
    var r := a + b;
    assert r[i] == a[i] && r[i + 1] == b[0];
    assert s[i].fileName == s[0].fileName;
  }

  /** Two rows after the first trace, numbered by the rest. */
  lemma {:induction false} NextNumberShift(s: seq<RawRow>, a: seq<EnrichedRow>, b: seq<EnrichedRow>, r: seq<EnrichedRow>,
                                           n: nat, i: nat, firstId: nat, f: (seq<RawRow>, nat) -> seq<EnrichedRow>)
    requires NumbersRows(f)
    requires |s| > 0 && |a| == n == RunLength(s) && n <= i && i + 1 < |s| && |a| + |b| == |s|
    requires b == GroupApply(s[n..], firstId + 1, f) && r == a + b
    ensures NextNumber(s, r, i)
    decreases |s|, 0
  {
    GroupApplyNumbering(s[n..], firstId + 1, f, b, i - n);
    assert r[i] == b[i - n] && r[i + 1] == b[i - n + 1];
    assert s[n..][i - n] == s[i] && s[n..][i - n + 1] == s[i + 1];
  }

  lemma {:induction false} FirstNumber(s: seq<RawRow>, firstId: nat, f: (seq<RawRow>, nat) -> seq<EnrichedRow>, r: seq<EnrichedRow>)
    requires NumbersRows(f) && |s| > 0 && r == GroupApply(s, firstId, f)
    ensures |r| == |s| && r[0].trackId == firstId && r[0].pointIdx == 0
  {
    GroupApplySplit(s, firstId, f);
  }

  /** The facts at row `i` of rows `r` enriched from the sorted rows `s`. */
  ghost predicate FactsAt(s: seq<RawRow>, r: seq<EnrichedRow>, i: nat)
    requires i < |s| && |r| == |s|
  {
    && RowFacts(r[i])
    && ((i == 0 || s[i].fileName != s[i - 1].fileName) ==> OriginFacts(r[i]))
    && (0 < i && s[i].fileName == s[i - 1].fileName ==> StepFacts(r[i - 1], r[i]))
  }

  lemma {:induction false} GroupApplySplit(s: seq<RawRow>, firstId: nat, f: (seq<RawRow>, nat) -> seq<EnrichedRow>)
    requires Sized(f) && |s| > 0
    ensures |f(s[..RunLength(s)], firstId)| == RunLength(s)
    ensures GroupApply(s, firstId, f) == f(s[..RunLength(s)], firstId) + GroupApply(s[RunLength(s)..], firstId + 1, f)
  {
  }

  lemma {:induction false} GroupApplyFacts(s: seq<RawRow>, firstId: nat, f: (seq<RawRow>, nat) -> seq<EnrichedRow>,
                                           r: seq<EnrichedRow>, i: nat)
    requires NumbersRows(f) && KeepsFacts(f) && i < |s| && r == GroupApply(s, firstId, f)
    ensures |r| == |s| && FactsAt(s, r, i)
    decreases |s|, 2
  {
    if i < RunLength(s) {
      FactsInRun(s, firstId, f, r, i);
    } else {
      FactsAfterRun(s, firstId, f, r, i);
    }
  }

  lemma {:induction false} FactsInRun(s: seq<RawRow>, firstId: nat, f: (seq<RawRow>, nat) -> seq<EnrichedRow>, r: seq<EnrichedRow>, i: nat)
    requires NumbersRows(f) && KeepsFacts(f) && |s| > 0 && i < RunLength(s) && r == GroupApply(s, firstId, f)
    ensures |r| == |s| && FactsAt(s, r, i)
  {
    var n := RunLength(s);
    GroupApplySplit(s, firstId, f);
    var a := f(s[..n], firstId);
    assert IndexFacts(a, i);
    TraceFactsAt(s, a, GroupApply(s[n..], firstId + 1, f), i);
  }

  lemma {:induction false} FactsAfterRun(s: seq<RawRow>, firstId: nat, f: (seq<RawRow>, nat) -> seq<EnrichedRow>, r: seq<EnrichedRow>, i: nat)
    requires NumbersRows(f) && KeepsFacts(f) && |s| > 0 && RunLength(s) <= i < |s| && r == GroupApply(s, firstId, f)
    ensures |r| == |s| && FactsAt(s, r, i)
    decreases |s|, 1
  {
    var n := RunLength(s);
    GroupApplySplit(s, firstId, f);
    FactsAtShift(s, f(s[..n], firstId), GroupApply(s[n..], firstId + 1, f), r, n, i, firstId, f);
  }

  /** Facts of the rest carry over to the rows after the first trace. */
  lemma {:induction false} FactsAtShift(s: seq<RawRow>, a: seq<EnrichedRow>, b: seq<EnrichedRow>, r: seq<EnrichedRow>,
                                        n: nat, i: nat, firstId: nat, f: (seq<RawRow>, nat) -> seq<EnrichedRow>)
    requires NumbersRows(f) && KeepsFacts(f)
    requires |s| > 0 && |a| == n == RunLength(s) && |a| + |b| == |s| && n <= i < |s|
    requires b == GroupApply(s[n..], firstId + 1, f) && r == a + b
    ensures FactsAt(s, r, i)
    decreases |s|, 0
  {
    RunLengthFacts(s);
    GroupApplyFacts(s[n..], firstId + 1, f, b, i - n);
    assert r[i] == b[i - n] && s[n..][i - n] == s[i];
    if i > n {
      assert r[i - 1] == b[i - n - 1] && s[n..][i - n - 1] == s[i - 1];
    }
  }

  lemma {:induction false} TraceFactsAt(s: seq<RawRow>, a: seq<EnrichedRow>, b: seq<EnrichedRow>, i: nat)
    requires |s| > 0 && |a| == RunLength(s) && |a| + |b| == |s| && i < |a|
    requires IndexFacts(a, i)
    ensures FactsAt(s, a + b, i)
  {
    RunLengthFacts(s);
    var r := a + b;
    assert r[i] == a[i];
    if 0 < i {
      assert r[i - 1] == a[i - 1];
    }
  }

  lemma EnrichTraceNumbers()
    ensures NumbersRows(EnrichTrace)
  {
  }

  lemma EnrichTraceContract()
    ensures NumbersRows(EnrichTrace)
    ensures KeepsFacts(EnrichTrace)
  {
    forall g, t, i | 0 <= i < |EnrichTrace(g, t)|
      ensures IndexFacts(EnrichTrace(g, t), i)
    {
      EnrichedRowFacts(g, t, i);
    }
  }

  /** The whole enrichment: rows sorted as in lines 40-41, then enriched
      trace by trace. */
  function Enrich(rows: seq<RawRow>): (r: seq<EnrichedRow>)
    ensures |r| == |rows|
    ensures forall i :: 0 <= i < |r| ==> r[i].row == SortRows(rows)[i]
  {
    EnrichTraceNumbers();
    GroupApplyRows(SortRows(rows), 0, EnrichTrace);
    GroupApply(SortRows(rows), 0, EnrichTrace)
  }

  /** Rows `r` numbered from rows `s` as `ngroup()` and `cumcount()`
      number them, stated step by step. */
  ghost predicate Numbered(s: seq<RawRow>, r: seq<EnrichedRow>)
  {
    && |r| == |s|
    && (|s| > 0 ==> r[0].trackId == 0 && r[0].pointIdx == 0)
    && (forall i :: 0 <= i < |s| - 1 ==> NextNumber(s, r, i))
  }

  /** `groupby(...).apply(f)` from `track_id` 0 numbers the rows step by
      step. */
  lemma {:induction false} ApplyNumbered(s: seq<RawRow>, f: (seq<RawRow>, nat) -> seq<EnrichedRow>, r: seq<EnrichedRow>)
    requires NumbersRows(f) && r == GroupApply(s, 0, f)
    ensures Numbered(s, r)
  {
    if |s| > 0 {
      FirstNumber(s, 0, f, r);
    }
    forall i | 0 <= i < |s| - 1
      ensures NextNumber(s, r, i)
    {
      GroupApplyNumbering(s, 0, f, r, i);
    }
  }

  /** `groupby(...).apply(f)` from `track_id` 0 keeps `f`'s facts at every
      row. */
  lemma {:induction false} ApplyFactsAt(s: seq<RawRow>, f: (seq<RawRow>, nat) -> seq<EnrichedRow>, r: seq<EnrichedRow>)
    requires NumbersRows(f) && KeepsFacts(f) && r == GroupApply(s, 0, f)
    ensures |r| == |s| && forall i :: 0 <= i < |s| ==> FactsAt(s, r, i)
  {
    forall i | 0 <= i < |s|
      ensures FactsAt(s, r, i)
    {
      GroupApplyFacts(s, 0, f, r, i);
    }
  }

  /** Step-by-step numbering over sorted rows is exactly `ngroup()` and
      `cumcount()`. */
  lemma {:induction false} NumberedIndex(s: seq<RawRow>, r: seq<EnrichedRow>, i: nat)
    requires FilesSorted(s) && Numbered(s, r) && i < |s|
    ensures r[i].trackId == TrackId(s, i) && r[i].pointIdx == PointIndex(s, i)
    decreases i
  {
    if i == 0 {
      FirstRowNumbers(s);
    } else {
      NumberedIndex(s, r, i - 1);
      assert NextNumber(s, r, i - 1);
      NumberingStep(s, r, i);
    }
  }

  /** `ngroup()` and `cumcount()` advance as the numbering of consecutive
      rows does. */
  lemma {:induction false} NumberingStep(s: seq<RawRow>, r: seq<EnrichedRow>, i: nat)
    requires FilesSorted(s) && 0 < i < |s| && |r| == |s| && NextNumber(s, r, i - 1)
    requires r[i - 1].trackId == TrackId(s, i - 1) && r[i - 1].pointIdx == PointIndex(s, i - 1)
    ensures r[i].trackId == TrackId(s, i) && r[i].pointIdx == PointIndex(s, i)
  {
    if s[i].fileName == s[i - 1].fileName {
      SameTraceStep(s, i - 1);
    } else {
      NewTraceStep(s, i - 1);
    }
  }

  /** Facts at each row and step-by-step numbering, together. */
  ghost predicate Enriched(s: seq<RawRow>, r: seq<EnrichedRow>)
  {
    Numbered(s, r) && forall i :: 0 <= i < |s| ==> FactsAt(s, r, i)
  }

  lemma {:induction false} ApplyEnriched(s: seq<RawRow>, f: (seq<RawRow>, nat) -> seq<EnrichedRow>, r: seq<EnrichedRow>)
    requires NumbersRows(f) && KeepsFacts(f) && r == GroupApply(s, 0, f)
    ensures Enriched(s, r)
  {
    ApplyNumbered(s, f, r);
    ApplyFactsAt(s, f, r);
  }

  /** `FactsAt`, which follows file boundaries, restated by point index. */
  lemma {:induction false} FactsByIndex(s: seq<RawRow>, r: seq<EnrichedRow>, i: nat)
    requires Enriched(s, r) && i < |s|
    ensures RowFacts(r[i])
    ensures r[i].pointIdx == 0 ==> OriginFacts(r[i])
    ensures r[i].pointIdx > 0 ==> StepFacts(r[i - 1], r[i])
  {
    assert FactsAt(s, r, i);
    if i > 0 {
      assert NextNumber(s, r, i - 1);
    }
  }

  /** Consecutive rows: the track id does not decrease, and within one
      track the running D+ does not either. */
  lemma {:induction false} StepOrder(s: seq<RawRow>, r: seq<EnrichedRow>, k: nat)
    requires Enriched(s, r) && 0 < k < |s|
    ensures r[k - 1].trackId <= r[k].trackId
    ensures r[k - 1].trackId == r[k].trackId ==> r[k - 1].dplusCum <= r[k].dplusCum
  {
    FactsByIndex(s, r, k);
    assert NextNumber(s, r, k - 1);
    if r[k - 1].trackId == r[k].trackId {
      assert r[k].pointIdx > 0;
    }
  }

  lemma {:induction false} EnrichedTrackSums(s: seq<RawRow>, r: seq<EnrichedRow>)
    requires Enriched(s, r)
    ensures TrackSums(r)
  {
    forall k | 0 <= k < |r|
      ensures 0.0 <= r[k].dplusCum
    {
      FactsByIndex(s, r, k);
    }
    forall k, m | 0 <= k < m < |r| && m == k + 1
      ensures r[k].trackId <= r[m].trackId
      ensures r[k].trackId == r[m].trackId ==> r[k].dplusCum <= r[m].dplusCum
    {
      StepOrder(s, r, m);
    }
  }

  lemma {:induction false} EnrichIsEnriched(rows: seq<RawRow>)
    ensures Enriched(SortRows(rows), Enrich(rows))
  {
    EnrichTraceContract();
    ApplyEnriched(SortRows(rows), EnrichTrace, Enrich(rows));
  }

  /** The enriched rows are the input rows, each once, and their
      `track_id` and `point_idx` are exactly pandas' `ngroup()` and
      `cumcount()` on the sorted rows. */
  lemma {:induction false} EnrichNumbering(rows: seq<RawRow>)
    ensures multiset(SortRows(rows)) == multiset(rows)
    ensures forall i :: 0 <= i < |rows| ==>
      Enrich(rows)[i].trackId == TrackId(SortRows(rows), i)
      && Enrich(rows)[i].pointIdx == PointIndex(SortRows(rows), i)
  {
    EnrichIsEnriched(rows);
    forall i | 0 <= i < |rows|
      ensures Enrich(rows)[i].trackId == TrackId(SortRows(rows), i)
      ensures Enrich(rows)[i].pointIdx == PointIndex(SortRows(rows), i)
    {
      NumberedIndex(SortRows(rows), Enrich(rows), i);
    }
  }

  /** Every enriched row satisfies `RowFacts`; the first row of each trace
      is an origin; consecutive rows of one trace satisfy `StepFacts`. */
  lemma {:induction false} EnrichFacts(rows: seq<RawRow>, i: nat)
    requires i < |rows|
    ensures RowFacts(Enrich(rows)[i])
    ensures Enrich(rows)[i].pointIdx == 0 ==> OriginFacts(Enrich(rows)[i])
    ensures Enrich(rows)[i].pointIdx > 0 ==> StepFacts(Enrich(rows)[i - 1], Enrich(rows)[i])
  {
    EnrichIsEnriched(rows);
    FactsByIndex(SortRows(rows), Enrich(rows), i);
  }

  /** Rows whose track ids never decrease, whose running D+ is never
      negative and never falls between consecutive rows of one track. */
  ghost predicate TrackSums(r: seq<EnrichedRow>)
  {
    && (forall k :: 0 <= k < |r| ==> 0.0 <= r[k].dplusCum)
    && (forall k, m :: 0 <= k < m < |r| && m == k + 1 ==> r[k].trackId <= r[m].trackId)
    && (forall k, m :: 0 <= k < m < |r| && m == k + 1 && r[k].trackId == r[m].trackId ==>
          r[k].dplusCum <= r[m].dplusCum)
  }

  lemma {:induction false} TrackSumsMonotone(r: seq<EnrichedRow>, i: nat, j: nat)
    requires TrackSums(r) && i <= j < |r| && r[i].trackId == r[j].trackId
    ensures 0.0 <= r[i].dplusCum <= r[j].dplusCum
    decreases j - i
  {
    if i < j {
      TrackIdsBetween(r, i, j - 1);
      TrackSumsMonotone(r, i, j - 1);
    }
  }

  lemma {:induction false} TrackIdsBetween(r: seq<EnrichedRow>, i: nat, j: nat)
    requires TrackSums(r) && i <= j < |r|
    ensures r[i].trackId <= r[j].trackId
    decreases j - i
  {
    if i < j {
      TrackIdsBetween(r, i, j - 1);
    }
  }

  lemma {:induction false} EnrichTrackSums(rows: seq<RawRow>)
    ensures TrackSums(Enrich(rows))
  {
    EnrichIsEnriched(rows);
    EnrichedTrackSums(SortRows(rows), Enrich(rows));
  }

  /** Within one trace the running D+ never decreases, from 0 at its first
      row. */
  lemma {:induction false} EnrichDplusMonotone(rows: seq<RawRow>, i: nat, j: nat)
    requires i <= j < |rows|
    ensures Enrich(rows)[i].trackId == Enrich(rows)[j].trackId ==>
      0.0 <= Enrich(rows)[i].dplusCum <= Enrich(rows)[j].dplusCum
  {
    var r := Enrich(rows);
    EnrichTrackSums(rows);
    if r[i].trackId == r[j].trackId {
      TrackSumsMonotone(r, i, j);
    }
  }

  /** Track ids never decrease along the enriched rows. */
  lemma {:induction false} TrackIdMonotone(rows: seq<RawRow>, i: nat, j: nat)
    requires i <= j < |rows|
    ensures Enrich(rows)[i].trackId <= Enrich(rows)[j].trackId
  {
    EnrichTrackSums(rows);
    TrackIdsBetween(Enrich(rows), i, j);
  }

  /** A run of sorted rows from one file is a trace whose timestamps are
      in order, missing ones last. */
  lemma {:induction false} TraceTimesSorted(rows: seq<RawRow>, a: nat, b: nat)
    requires a <= b <= |rows|
    requires forall k :: a <= k < b ==> SortRows(rows)[k].fileName == SortRows(rows)[a].fileName
    ensures TimesSorted(Times(SortRows(rows)[a..b]))
  {
    var s := SortRows(rows);
    var t := Times(s[a..b]);
    forall i, j | 0 <= i < j < |t|
      ensures !TimeBefore(t[j], t[i])
    {
      assert !KeyBefore(s[a + j], s[a + i]);
      assert s[a + i].fileName == s[a + j].fileName;
    }
  }

  /** `time_s` of the rows `r` of trace `g` starts at 0 on the first row,
      is present exactly where the timestamp is, and never runs backwards. */
  predicate ClockFacts(g: seq<RawRow>, r: seq<EnrichedRow>)
    requires |r| == |g| > 0
  {
    && r[0].timeS == Some(0.0)
    && (forall i :: 0 <= i < |g| ==> (r[i].timeS.Some? <==> g[i].time.Some?))
    && (forall i, j :: 0 <= i <= j < |g| && r[j].timeS.Some? ==>
          r[i].timeS.Some? && 0.0 <= r[i].timeS.value <= r[j].timeS.value)
  }

  /** On a trace in time order with at least two timestamps, the clock
      column satisfies `ClockFacts`. */
  lemma {:induction false} EnrichTraceClock(g: seq<RawRow>, trackId: nat)
    requires TimesSorted(Times(g)) && CountPresent(Times(g)) >= 2
    ensures |g| > 0 && ClockFacts(g, EnrichTrace(g, trackId))
  {
    ClockColumn(g, trackId);
    ClockFactsFrom(g, EnrichTrace(g, trackId));
  }

  lemma {:induction false} ClockFactsFrom(g: seq<RawRow>, r: seq<EnrichedRow>)
    requires TimesSorted(Times(g)) && CountPresent(Times(g)) >= 2
    requires |r| == |g| && forall i :: 0 <= i < |g| ==> r[i].timeS == RelativeTime.RelativeTimes(Times(g))[i]
    ensures |g| > 0 && ClockFacts(g, r)
  {
    RelativeTime.SortedTraceClock(Times(g));
  }

  /** A maximal run `[a, b)` of rows of one file in `s`. */
  predicate TraceRun(s: seq<RawRow>, a: nat, b: nat)
  {
    && a < b <= |s|
    && (a == 0 || s[a - 1].fileName != s[a].fileName)
    && (b == |s| || s[b].fileName != s[a].fileName)
    && forall k :: a <= k < b ==> s[k].fileName == s[a].fileName
  }

  /** The rows `g` sit in `r` from position `a` on. */
  ghost predicate RunAt(r: seq<EnrichedRow>, a: nat, g: seq<EnrichedRow>)
  {
    a + |g| <= |r| && forall k :: 0 <= k < |g| ==> r[a + k] == g[k]
  }

  lemma {:induction false} RunSlice(r: seq<EnrichedRow>, a: nat, g: seq<EnrichedRow>)
    requires RunAt(r, a, g)
    ensures r[a..a + |g|] == g
  {
  }

  /** `groupby(...).apply(f)` hands each maximal run to `f` on its own: the
      output rows of the run are `f` of the run, under some `track_id`
      `t`. The rows `p` are output before `s`'s. */
  lemma {:induction false} GroupApplyRun(s: seq<RawRow>, firstId: nat, f: (seq<RawRow>, nat) -> seq<EnrichedRow>,
                                         p: seq<EnrichedRow>, r: seq<EnrichedRow>, a: nat, b: nat)
    returns (t: nat)
    requires Sized(f) && TraceRun(s, a, b) && r == p + GroupApply(s, firstId, f)
    ensures |r| == |p| + |s| && RunAt(r, |p| + a, f(s[a..b], t))
    decreases |s|, 1
  {
    var n := RunLength(s);
    GroupApplySplit(s, firstId, f);
    if a == 0 {
      FirstRunEnds(s, b);
      t := firstId;
      assert s[a..b] == s[..n];
      RunOfFirst(p, f(s[..n], firstId), GroupApply(s[n..], firstId + 1, f), r);
    } else {
      LaterRunShift(s, a, b);
      t := RunShift(s, p, f(s[..n], firstId), GroupApply(s[n..], firstId + 1, f), r, n, a, b, firstId, f);
    }
  }

  /** A later run is found in the rest, past the first trace. */
  lemma {:induction false} RunShift(s: seq<RawRow>, p: seq<EnrichedRow>, x: seq<EnrichedRow>, y: seq<EnrichedRow>,
                                    r: seq<EnrichedRow>, n: nat, a: nat, b: nat, firstId: nat,
                                    f: (seq<RawRow>, nat) -> seq<EnrichedRow>)
    returns (t: nat)
    requires Sized(f) && 0 < n <= a < b <= |s| && TraceRun(s[n..], a - n, b - n)
    requires |x| == n && y == GroupApply(s[n..], firstId + 1, f) && r == p + (x + y)
    ensures |r| == |p| + |s| && RunAt(r, |p| + a, f(s[a..b], t))
    decreases |s|, 0
  {
    AppendAssoc(p, x, y);
    t := GroupApplyRun(s[n..], firstId + 1, f, p + x, r, a - n, b - n);
    SliceOfRest(s, n, a, b);
    assert |p + x| + (a - n) == |p| + a;
  }

  lemma {:induction false} AppendAssoc(p: seq<EnrichedRow>, x: seq<EnrichedRow>, y: seq<EnrichedRow>)
    ensures p + (x + y) == (p + x) + y
  {
  }

  lemma {:induction false} SliceOfRest(s: seq<RawRow>, n: nat, a: nat, b: nat)
    requires n <= a <= b <= |s|
    ensures s[n..][a - n..b - n] == s[a..b]
  {
  }

  /** The maximal run at the front ends where the first trace does. */
  lemma {:induction false} FirstRunEnds(s: seq<RawRow>, b: nat)
    requires TraceRun(s, 0, b)
    ensures b == RunLength(s)
  {
    RunLengthFacts(s);
  }

  /** A maximal run after the first trace is a maximal run of the rest. */
  lemma {:induction false} LaterRunShift(s: seq<RawRow>, a: nat, b: nat)
    requires TraceRun(s, a, b) && a > 0
    ensures RunLength(s) <= a
    ensures TraceRun(s[RunLength(s)..], a - RunLength(s), b - RunLength(s))
  {
    RunLengthFacts(s);
    var n := RunLength(s);
    var t := s[n..];
    assert forall k :: a - n <= k < b - n ==> t[k] == s[k + n];
    if a - n > 0 {
      assert t[a - n - 1] == s[a - 1];
    }
    if b - n < |t| {
      assert t[b - n] == s[b];
    }
  }

  lemma {:induction false} RunOfFirst(p: seq<EnrichedRow>, x: seq<EnrichedRow>, y: seq<EnrichedRow>, r: seq<EnrichedRow>)
    requires r == p + (x + y)
    ensures |r| == |p| + |x| + |y| && RunAt(r, |p|, x)
  {
    forall k | 0 <= k < |x|
      ensures r[|p| + k] == x[k]
    {
      assert (x + y)[k] == x[k];
    }
  }

  /** The rows of a maximal run of `s` come out of `groupby(...).apply(f)`
      as `f` of the run, under the `track_id` of their first row. */
  lemma {:induction false} ApplyRun(s: seq<RawRow>, f: (seq<RawRow>, nat) -> seq<EnrichedRow>, r: seq<EnrichedRow>, a: nat, b: nat)
    requires NumbersRows(f) && TraceRun(s, a, b) && r == GroupApply(s, 0, f)
    ensures |r| == |s| && r[a..b] == f(s[a..b], r[a].trackId)
  {
    var t := ApplyRunAt(s, f, r, a, b);
    assert r[a..b][0] == f(s[a..b], t)[0];
  }

  /** The rows of a maximal run of `s` come out of `groupby(...).apply(f)`
      as `f` of the run, under some `track_id` `t`. */
  lemma {:induction false} ApplyRunAt(s: seq<RawRow>, f: (seq<RawRow>, nat) -> seq<EnrichedRow>, r: seq<EnrichedRow>,
                                      a: nat, b: nat)
    returns (t: nat)
    requires Sized(f) && TraceRun(s, a, b) && r == GroupApply(s, 0, f)
    ensures |r| == |s| && r[a..b] == f(s[a..b], t)
  {
    EmptyPrefix(r);
    t := GroupApplyRun(s, 0, f, [], r, a, b);
    assert |f(s[a..b], t)| == b - a;
    RunSlice(r, a, f(s[a..b], t));
  }

  lemma {:induction false} EmptyPrefix(r: seq<EnrichedRow>)
    ensures r == [] + r
  {
  }

  /** Each trace of the whole enrichment is `enrich_group` of that trace. */
  lemma {:induction false} EnrichRun(rows: seq<RawRow>, a: nat, b: nat)
    requires TraceRun(SortRows(rows), a, b)
    ensures Enrich(rows)[a..b] == EnrichTrace(SortRows(rows)[a..b], Enrich(rows)[a].trackId)
  {
    EnrichTraceNumbers();
    ApplyRun(SortRows(rows), EnrichTrace, Enrich(rows), a, b);
  }

  /** The clock column `r` of a trace `g` in time order: with at least two
      timestamps it satisfies `ClockFacts`; otherwise it is each row's
      position in the trace. */
  predicate TraceClockFacts(g: seq<RawRow>, r: seq<EnrichedRow>)
    requires |r| == |g| > 0
  {
    && (CountPresent(Times(g)) >= 2 ==> ClockFacts(g, r))
    && (CountPresent(Times(g)) < 2 ==> forall k :: 0 <= k < |g| ==> r[k].timeS == Some(k as real))
  }

  /** `f` gives every trace in time order the clock of `enrich_group`. */
  ghost predicate KeepsClock(f: (seq<RawRow>, nat) -> seq<EnrichedRow>)
  {
    Sized(f) && forall g, t :: |g| > 0 && TimesSorted(Times(g)) ==> TraceClockFacts(g, f(g, t))
  }

  lemma {:induction false} TraceClock(g: seq<RawRow>, trackId: nat)
    requires |g| > 0 && TimesSorted(Times(g))
    ensures TraceClockFacts(g, EnrichTrace(g, trackId))
  {
    ClockColumn(g, trackId);
    if CountPresent(Times(g)) >= 2 {
      EnrichTraceClock(g, trackId);
    }
  }

  lemma EnrichTraceKeepsClock()
    ensures KeepsClock(EnrichTrace)
  {
    forall g, t | |g| > 0 && TimesSorted(Times(g))
      ensures TraceClockFacts(g, EnrichTrace(g, t))
    {
      TraceClock(g, t);
    }
  }

  /** The clock `f` keeps on each trace holds on every trace of the whole. */
  lemma {:induction false} ApplyClock(s: seq<RawRow>, f: (seq<RawRow>, nat) -> seq<EnrichedRow>, r: seq<EnrichedRow>, a: nat, b: nat)
    requires KeepsClock(f) && TraceRun(s, a, b) && TimesSorted(Times(s[a..b])) && r == GroupApply(s, 0, f)
    ensures |r| == |s| && TraceClockFacts(s[a..b], r[a..b])
  {
    var t := ApplyRunAt(s, f, r, a, b);
  }

  /** Over the whole enrichment, every trace (a maximal run of the sorted
      rows) carries the clock of `enrich_group`. */
  lemma {:induction false} EnrichRunClock(rows: seq<RawRow>, a: nat, b: nat)
    requires TraceRun(SortRows(rows), a, b)
    ensures TraceClockFacts(SortRows(rows)[a..b], Enrich(rows)[a..b])
  {
    EnrichTraceKeepsClock();
    TraceTimesSorted(rows, a, b);
    ApplyClock(SortRows(rows), EnrichTrace, Enrich(rows), a, b);
  }

  lemma {:induction false} ClockColumn(g: seq<RawRow>, trackId: nat)
    ensures forall i :: 0 <= i < |g| ==> EnrichTrace(g, trackId)[i].timeS == RelativeTime.RelativeTimes(Times(g))[i]
  {
  }
}
