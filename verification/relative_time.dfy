/** Relative time of the points of one trace
    (scripts/enrich_dataset.py, lines 71-75). */
module RelativeTime {
  import opened Common

  /** The `time_s` column. With at least two timestamps, each point's time
      minus the first row's time, in seconds (absent where either is
      missing); otherwise the point's position, as a degraded clock. */
  function RelativeTimes(times: seq<Option<int>>): (r: seq<Option<real>>)
    ensures |r| == |times|
    ensures CountPresent(times) < 2 ==> forall i :: 0 <= i < |times| ==> r[i] == Some(i as real)
    ensures CountPresent(times) >= 2 ==> forall i :: 0 <= i < |times| ==>
      (r[i].Some? <==> times[0].Some? && times[i].Some?)
    ensures CountPresent(times) >= 2 ==> forall i :: 0 <= i < |times| && r[i].Some? ==>
      r[i].value * NanosPerSecond == (times[i].value - times[0].value) as real
  {
    if CountPresent(times) >= 2 then
      seq(|times|, i requires 0 <= i < |times| =>
        if times[0].Some? && times[i].Some?
        then Some((times[i].value - times[0].value) as real / NanosPerSecond)
        else None)
    else
      seq(|times|, i requires 0 <= i < |times| => Some(i as real))
  }

  /** In a trace sorted by time with missing times last and at least two
      timestamps, the first row has a timestamp, so the clock starts at 0,
      is present exactly where the timestamp is, and never runs backwards. */
  lemma SortedTraceClock(times: seq<Option<int>>)
    requires TimesSorted(times) && CountPresent(times) >= 2
    ensures times[0].Some?
    ensures RelativeTimes(times)[0] == Some(0.0)
    ensures forall i :: 0 <= i < |times| ==> (RelativeTimes(times)[i].Some? <==> times[i].Some?)
    ensures forall i, j :: 0 <= i <= j < |times| && RelativeTimes(times)[j].Some? ==>
      RelativeTimes(times)[i].Some? && 0.0 <= RelativeTimes(times)[i].value <= RelativeTimes(times)[j].value
  {
    if times[0].None? {
      MissingFirstTime(times);
    }
    var r0 := RelativeTimes(times)[0];
    assert r0.Some? && r0.value * NanosPerSecond == 0.0;
    assert r0.value == 0.0;
    forall i, j | 0 <= i <= j < |times| && RelativeTimes(times)[j].Some?
      ensures RelativeTimes(times)[i].Some?
      ensures 0.0 <= RelativeTimes(times)[i].value <= RelativeTimes(times)[j].value
    {
      ClockOrdered(times, i, j);
    }
  }

  /** When a sorted trace's first timestamp is missing, all are. */
  lemma MissingFirstTime(times: seq<Option<int>>)
    requires TimesSorted(times) && |times| > 0 && times[0].None?
    ensures CountPresent(times) == 0
  {
    forall j | 0 < j < |times|
      ensures times[j].None?
    {
      assert !TimeBefore(times[j], times[0]);
    }
  }

  lemma ClockOrdered(times: seq<Option<int>>, i: nat, j: nat)
    requires TimesSorted(times) && CountPresent(times) >= 2 && times[0].Some?
    requires i <= j < |times| && times[j].Some?
    ensures RelativeTimes(times)[i].Some?
    ensures 0.0 <= RelativeTimes(times)[i].value <= RelativeTimes(times)[j].value
  {
    var r := RelativeTimes(times);
    if i < j {
      assert !TimeBefore(times[j], times[i]);
    }
    if 0 < i {
      assert !TimeBefore(times[i], times[0]);
    }
    var a := (times[i].value - times[0].value) as real;
    var b := (times[j].value - times[0].value) as real;
    assert 0.0 <= a <= b;
    assert r[i].value == a / NanosPerSecond && r[j].value == b / NanosPerSecond;
  }
}
