/** Per-point steps of one trace (scripts/enrich_dataset.py, lines 62-68):
    the distance step, the thresholded elevation-gain step and its running
    sum. */
module StepMetrics {
  import opened Common

  /** Largest plausible distance between two points, in metres. */
  const MaxStepJump: real := 200.0

  /** Smallest altitude rise counted as elevation gain, in metres. */
  const DplusEps: real := 0.8

  /** pandas `diff()` at position `i`: absent at 0 and wherever either
      operand is absent. */
  function Diff(s: seq<Option<real>>, i: nat): (d: Option<real>)
    requires i < |s|
    ensures d.Some? <==> i > 0 && s[i].Some? && s[i - 1].Some?
  {
    if i == 0 || s[i].None? || s[i - 1].None? then None
    else Some(s[i].value - s[i - 1].value)
  }

  /** The `distance_step_m` column: the difference of cumulative distances,
      clipped below at 0 (`clip(lower=0)`), with steps above the jump
      limit replaced by 0. */
  function DistanceSteps(d: seq<Option<real>>): (r: seq<Option<real>>)
    ensures |r| == |d|
    ensures |d| > 0 ==> r[0].None?
    ensures forall i :: 0 <= i < |d| ==> (r[i].Some? <==> Diff(d, i).Some?)
    ensures forall i :: 0 <= i < |d| && r[i].Some? ==> 0.0 <= r[i].value <= MaxStepJump
    ensures forall i :: 0 <= i < |d| && r[i].Some? && r[i].value > 0.0 ==> r[i] == Diff(d, i)
    ensures forall i :: 0 <= i < |d| && Diff(d, i).Some? && Diff(d, i).value > MaxStepJump ==>
      r[i] == Some(0.0)
    ensures forall i :: 0 <= i < |d| && Diff(d, i).Some? && Diff(d, i).value < 0.0 ==>
      r[i] == Some(0.0)
    ensures forall i :: 0 <= i < |d| && Diff(d, i).Some? && 0.0 <= Diff(d, i).value <= MaxStepJump ==>
      r[i] == Diff(d, i)
  {
    seq(|d|, i requires 0 <= i < |d| =>
      match Diff(d, i)
      case None => None
      case Some(x) =>
        var clipped := if x < 0.0 then 0.0 else x;
        Some(if clipped > MaxStepJump then 0.0 else clipped))
  }

  /** The `dplus_step_m` column: the altitude rise kept when it exceeds the
      threshold, 0 otherwise, including wherever the rise is undefined. */
  function DplusSteps(alt: seq<Option<real>>): (r: seq<real>)
    ensures |r| == |alt|
    ensures |alt| > 0 ==> r[0] == 0.0
    ensures forall i :: 0 <= i < |alt| ==> r[i] >= 0.0
    ensures forall i :: 0 <= i < |alt| && r[i] != 0.0 ==> r[i] > DplusEps && Diff(alt, i) == Some(r[i])
    ensures forall i :: 0 <= i < |alt| && Diff(alt, i).Some? && Diff(alt, i).value > DplusEps ==>
      r[i] == Diff(alt, i).value
  {
    seq(|alt|, i requires 0 <= i < |alt| =>
      match Diff(alt, i)
      case Some(x) => if x > DplusEps then x else 0.0
      case None => 0.0)
  }

  /** pandas `cumsum()`: entry `i` is the sum of the steps up to and
      including `i`. */
  function CumSum(steps: seq<real>): (r: seq<real>)
    ensures |r| == |steps|
    ensures forall k :: 0 < k <= |steps| ==> r[k - 1] == Sum(steps[..k])
    decreases |steps|
  {
    if |steps| == 0 then []
    else
      var init := steps[..|steps| - 1];
      var r := CumSum(init) + [Sum(steps)];
      assert forall k :: 0 < k <= |init| ==> init[..k] == steps[..k];
      assert steps[..|steps|] == steps;
      r
  }

  /** The running sum starts with the first step and adds one step per point;
      its last entry is the sum of all steps. */
  lemma {:induction false} CumSumSteps(steps: seq<real>)
    ensures |steps| > 0 ==> CumSum(steps)[0] == steps[0]
    ensures forall i, j :: 0 <= i < j < |steps| && j == i + 1 ==> CumSum(steps)[j] == CumSum(steps)[i] + steps[j]
    ensures |steps| > 0 ==> CumSum(steps)[|steps| - 1] == Sum(steps)
  {
    var r := CumSum(steps);
    if |steps| > 0 {
      assert steps[..1] == [] + [steps[0]];
      assert steps[..1][..0] == [];
      assert r[0] == Sum(steps[..1]);
      assert steps[..|steps|] == steps;
    }
    forall i, j | 0 <= i < j < |steps| && j == i + 1
      ensures r[j] == r[i] + steps[j]
    {
      assert r[j] == Sum(steps[..j + 1]) && r[i] == Sum(steps[..j]);
      assert steps[..j + 1][..j] == steps[..j];
    }
  }

  /** With no negative step, the running sum never decreases and never drops
      below 0. */
  lemma CumSumMonotone(steps: seq<real>)
    requires forall i :: 0 <= i < |steps| ==> steps[i] >= 0.0
    ensures forall i, j :: 0 <= i <= j < |steps| ==> 0.0 <= CumSum(steps)[i] <= CumSum(steps)[j]
  {
    var r := CumSum(steps);
    forall i, j | 0 <= i <= j < |steps|
      ensures 0.0 <= r[i] <= r[j]
    {
      assert steps[..j + 1] == steps[..i + 1] + steps[i + 1..j + 1];
      SumAppend(steps[..i + 1], steps[i + 1..j + 1]);
      SumNonNegative(steps[..i + 1]);
      SumNonNegative(steps[i + 1..j + 1]);
    }
  }

  /** Cumulative distances that are all present, never decrease and never
      jump by more than the limit. */
  ghost predicate PlausibleDistances(d: seq<Option<real>>)
  {
    && (forall i :: 0 <= i < |d| ==> d[i].Some?)
    && (forall i, j :: 0 <= i < j < |d| && j == i + 1 ==> 0.0 <= d[j].value - d[i].value <= MaxStepJump)
  }

  /** On plausible cumulative distances no step is clipped: the steps add up
      to the distance covered from the first point to the last. */
  lemma {:induction false} DistanceStepsTelescope(d: seq<Option<real>>)
    requires |d| > 0 && PlausibleDistances(d)
    ensures Sum(StepValues(DistanceSteps(d))) == d[|d| - 1].value - d[0].value
    decreases |d|
  {
    var n := |d|;
    if n == 1 {
      assert StepValues(DistanceSteps(d)) == [] + [0.0];
    } else {
      var init := d[..n - 1];
      assert PlausibleDistances(init);
      DistanceStepsTelescope(init);
      LastDistanceStep(d);
    }
  }

  lemma LastDistanceStep(d: seq<Option<real>>)
    requires |d| > 1 && PlausibleDistances(d)
    ensures Sum(StepValues(DistanceSteps(d)))
         == Sum(StepValues(DistanceSteps(d[..|d| - 1]))) + (d[|d| - 1].value - d[|d| - 2].value)
  {
    var n := |d|;
    var v := StepValues(DistanceSteps(d));
    StepValuesPrefix(d);
    assert Diff(d, n - 1) == Some(d[n - 1].value - d[n - 2].value);
    assert v[n - 1] == d[n - 1].value - d[n - 2].value;
  }

  /** Present steps as numbers, absent ones as 0. */
  function StepValues(r: seq<Option<real>>): (v: seq<real>)
    ensures |v| == |r|
  {
    seq(|r|, i requires 0 <= i < |r| => if r[i].Some? then r[i].value else 0.0)
  }

  lemma StepValuesPrefix(d: seq<Option<real>>)
    requires |d| > 0
    ensures StepValues(DistanceSteps(d))[..|d| - 1] == StepValues(DistanceSteps(d[..|d| - 1]))
  {
    var init := d[..|d| - 1];
    forall i | 0 <= i < |init|
      ensures Diff(d, i) == Diff(init, i)
    {
    }
  }
}
