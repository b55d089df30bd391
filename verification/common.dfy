/** Shared vocabulary of the model: optional values, sums of reals, and the
    ordering of timestamps that places missing ones last.

    A pandas NaN or NaT, and a Python None, are all modelled as `None`.
    Timestamps are whole nanoseconds, the resolution pandas stores. */
module Common {

  datatype Option<+T> = None | Some(value: T)

  /** Nanoseconds in one second: `total_seconds()` divides by this. */
  const NanosPerSecond: real := 1000000000.0

  /** Sum of a sequence, accumulated left to right. */
  function Sum(s: seq<real>): real
  {
    if |s| == 0 then 0.0 else Sum(s[..|s| - 1]) + s[|s| - 1]
  }

  lemma {:induction false} SumAppend(a: seq<real>, b: seq<real>)
    ensures Sum(a + b) == Sum(a) + Sum(b)
    decreases |b|
  {
    if |b| == 0 {
      assert a + b == a;
    } else {
      assert (a + b)[..|a + b| - 1] == a + b[..|b| - 1];
      SumAppend(a, b[..|b| - 1]);
    }
  }

  lemma {:induction false} SumNonNegative(s: seq<real>)
    requires forall i :: 0 <= i < |s| ==> s[i] >= 0.0
    ensures Sum(s) >= 0.0
    decreases |s|
  {
    if |s| > 0 {
      SumNonNegative(s[..|s| - 1]);
    }
  }

  /** Number of present entries (pandas `notna().sum()`). */
  function CountPresent<T>(s: seq<Option<T>>): (n: nat)
    ensures n <= |s|
    ensures n == 0 <==> forall i :: 0 <= i < |s| ==> s[i].None?
  {
    if |s| == 0 then 0
    else CountPresent(s[..|s| - 1]) + (if s[|s| - 1].Some? then 1 else 0)
  }

  /** Ascending timestamp order with missing timestamps last, which is how a
      sort on a datetime column places NaT. */
  predicate TimeBefore(a: Option<int>, b: Option<int>)
  {
    match (a, b)
    case (Some(x), Some(y)) => x < y
    case (Some(_), None) => true
    case (None, _) => false
  }

  /** Timestamps in non-decreasing order, missing ones at the end. */
  predicate TimesSorted(t: seq<Option<int>>)
  {
    forall i, j :: 0 <= i < j < |t| ==> !TimeBefore(t[j], t[i])
  }
}
