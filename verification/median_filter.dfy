/** Altitude smoothing: `median_filter_series`
    (scripts/enrich_dataset.py, lines 49-53).

    A window below 3 leaves the series unchanged. Otherwise an even window
    is widened to the next odd width `w`, and each value becomes the median
    of the present values among positions `i - w/2 .. i + w/2`, clipped to
    the series (pandas `rolling(w, center=True, min_periods=1).median()`).
    An even number of present values gives the mean of the two middle ones;
    a window with no present value gives an absent result. */
module MedianFilter {
  import opened Common

  /** The present values of a window, in order. */
  function Present(w: seq<Option<real>>): (v: seq<real>)
    ensures |v| == CountPresent(w)
    ensures forall x :: x in v <==> Some(x) in w
    decreases |w|
  {
    if |w| == 0 then []
    else
      var init := w[..|w| - 1];
      assert w == init + [w[|w| - 1]];
      Present(init) + (if w[|w| - 1].Some? then [w[|w| - 1].value] else [])
  }

  /** Number of values at most `m`. */
  function CountAtMost(s: seq<real>, m: real): nat
  {
    if |s| == 0 then 0 else (if s[0] <= m then 1 else 0) + CountAtMost(s[1..], m)
  }

  /** Number of values at least `m`. */
  function CountAtLeast(s: seq<real>, m: real): nat
  {
    if |s| == 0 then 0 else (if s[0] >= m then 1 else 0) + CountAtLeast(s[1..], m)
  }

  predicate SortedReals(t: seq<real>)
  {
    forall i, j :: 0 <= i < j < |t| ==> t[i] <= t[j]
  }

  function InsertReal(x: real, t: seq<real>): (r: seq<real>)
    ensures |r| == |t| + 1
    ensures forall y :: y in r <==> y == x || y in t
    ensures SortedReals(t) ==> SortedReals(r)
    decreases |t|
  {
    if |t| == 0 || x <= t[0] then
      assert ([x] + t)[1..] == t;
      [x] + t
    else
      assert t == [t[0]] + t[1..];
      var rest := InsertReal(x, t[1..]);
      var r := [t[0]] + rest;
      assert r[1..] == rest;
      assert SortedReals(t) ==> forall j :: 0 <= j < |rest| ==> t[0] <= rest[j] by {
        if SortedReals(t) {
          forall j | 0 <= j < |rest| ensures t[0] <= rest[j] {
            assert rest[j] in rest;
          }
        }
      }
      r
  }

  /** Inserting `x` adds one to the count of values at most (at least) `m`
      exactly when `x` is at most (at least) `m`. */
  lemma {:induction false} InsertRealCounts(x: real, t: seq<real>)
    ensures forall m :: CountAtMost(InsertReal(x, t), m) == CountAtMost(t, m) + (if x <= m then 1 else 0)
    ensures forall m :: CountAtLeast(InsertReal(x, t), m) == CountAtLeast(t, m) + (if x >= m then 1 else 0)
    decreases |t|
  {
    var r := InsertReal(x, t);
    if |t| == 0 || x <= t[0] {
      assert r[0] == x && r[1..] == t;
    } else {
      InsertRealCounts(x, t[1..]);
      assert r[0] == t[0] && r[1..] == InsertReal(x, t[1..]);
    }
  }

  /** Insertion sort of reals: an ordered rearrangement of its input. */
  function SortReals(s: seq<real>): (t: seq<real>)
    ensures |t| == |s|
    ensures SortedReals(t)
    ensures forall y :: y in t <==> y in s
    ensures forall m :: CountAtMost(t, m) == CountAtMost(s, m)
    ensures forall m :: CountAtLeast(t, m) == CountAtLeast(s, m)
    decreases |s|
  {
    if |s| == 0 then []
    else
      assert s == [s[0]] + s[1..];
      InsertRealCounts(s[0], SortReals(s[1..]));
      InsertReal(s[0], SortReals(s[1..]))
  }

  /** Median of the values: the middle one of the sorted values, or the
      mean of the two middle ones when their number is even; absent for no
      values. */
  function Median(v: seq<real>): (m: Option<real>)
    ensures m.None? <==> |v| == 0
    ensures m.Some? && |v| % 2 == 1 ==> m.value in v
  {
    if |v| == 0 then None
    else
      var t := SortReals(v);
      assert |t| % 2 == 1 ==> t[|t| / 2] in t;
      Some(Middle(t))
  }

  /** The middle of sorted values: the middle one, or the mean of the two
      middle ones. */
  function Middle(t: seq<real>): real
    requires |t| > 0
  {
    var n := |t|;
    if n % 2 == 1 then t[n / 2] else (t[n / 2 - 1] + t[n / 2]) / 2.0
  }

  lemma SortedMiddleSplits(t: seq<real>)
    requires SortedReals(t) && |t| > 0
    ensures 2 * CountAtMost(t, Middle(t)) >= |t|
    ensures 2 * CountAtLeast(t, Middle(t)) >= |t|
  {
    var n := |t|;
    var m := Middle(t);
    if n % 2 == 1 {
      CountAtMostPrefix(t, m, n / 2 + 1);
      CountAtLeastSuffix(t, m, n / 2);
    } else {
      assert t[n / 2 - 1] <= m <= t[n / 2];
      CountAtMostPrefix(t, m, n / 2);
      CountAtLeastSuffix(t, m, n / 2);
    }
  }

  lemma {:induction false} CountAtMostPrefix(t: seq<real>, m: real, p: nat)
    requires p <= |t|
    requires forall j :: 0 <= j < p ==> t[j] <= m
    ensures CountAtMost(t, m) >= p
    decreases p
  {
    if p > 0 {
      CountAtMostPrefix(t[1..], m, p - 1);
    }
  }

  lemma {:induction false} CountAtLeastSuffix(t: seq<real>, m: real, p: nat)
    requires p <= |t|
    requires forall j :: p <= j < |t| ==> t[j] >= m
    ensures CountAtLeast(t, m) >= |t| - p
    decreases |t|
  {
    if |t| > 0 {
      CountAtLeastSuffix(t[1..], m, if p > 0 then p - 1 else 0);
    }
  }

  lemma {:induction false} CountAtMostWitness(s: seq<real>, m: real)
    requires CountAtMost(s, m) > 0
    ensures exists k :: 0 <= k < |s| && s[k] <= m
    decreases |s|
  {
    if s[0] > m {
      CountAtMostWitness(s[1..], m);
      var k :| 0 <= k < |s[1..]| && s[1..][k] <= m;
      assert s[k + 1] <= m;
    }
  }

  lemma {:induction false} CountAtLeastWitness(s: seq<real>, m: real)
    requires CountAtLeast(s, m) > 0
    ensures exists k :: 0 <= k < |s| && s[k] >= m
    decreases |s|
  {
    if s[0] < m {
      CountAtLeastWitness(s[1..], m);
      var k :| 0 <= k < |s[1..]| && s[1..][k] >= m;
      assert s[k + 1] >= m;
    }
  }

  /** The median splits the values in halves: at least half of them are
      at most the median and at least half are at least the median, so it
      lies between their minimum and maximum; for an odd count it is one
      of the values. */
  lemma MedianSplits(v: seq<real>)
    requires |v| > 0
    ensures 2 * CountAtMost(v, Median(v).value) >= |v|
    ensures 2 * CountAtLeast(v, Median(v).value) >= |v|
    ensures |v| % 2 == 1 ==> Median(v).value in v
    ensures exists k :: 0 <= k < |v| && v[k] <= Median(v).value
    ensures exists k :: 0 <= k < |v| && v[k] >= Median(v).value
  {
    var t := SortReals(v);
    var m := Middle(t);
    assert Median(v).value == m;
    SortedMiddleSplits(t);
    assert CountAtMost(t, m) == CountAtMost(v, m);
    assert CountAtLeast(t, m) == CountAtLeast(v, m);
    if |v| % 2 == 1 {
      assert t[|t| / 2] in t;
    }
    CountAtMostWitness(v, m);
    CountAtLeastWitness(v, m);
  }

  /** The smoothing width actually used: the window itself when odd, the
      next odd number when even. */
  function EffectiveWidth(window: int): (w: int)
    requires window >= 3
    ensures w % 2 == 1 && window <= w <= window + 1
  {
    if window % 2 == 1 then window else window + 1
  }

  /** First position of the window around `i` with half-width `h`, clipped at 0. */
  function WindowStart(i: nat, h: nat): nat
  {
    if i < h then 0 else i - h
  }

  /** One past the last position of the window, clipped at the series end. */
  function WindowEnd(i: nat, h: nat, n: nat): nat
  {
    if i + h + 1 > n then n else i + h + 1
  }

  /** The series entries of the clipped window around `i`. */
  function Window(s: seq<Option<real>>, i: nat, h: nat): seq<Option<real>>
    requires i < |s|
  {
    s[WindowStart(i, h)..WindowEnd(i, h, |s|)]
  }

  /** `median_filter_series(s, window)`; `window` absent models `None`. */
  function MedianFilterSeries(s: seq<Option<real>>, window: Option<int>): (r: seq<Option<real>>)
    ensures |r| == |s|
    ensures window.None? || window.value < 3 ==> r == s
  {
    if window.None? || window.value < 3 then s
    else
      var h := EffectiveWidth(window.value) / 2;
      seq(|s|, i requires 0 <= i < |s| => Median(Present(Window(s, i, h))))
  }

  /** Each smoothed value is the median of the present values in the
      window `[i - h, i + h]` clipped to the series (`h` is half the
      effective width): it is absent exactly when every entry in that
      window is absent, it splits the window's present values in halves,
      and it lies between their minimum and maximum. */
  lemma SmoothedValue(s: seq<Option<real>>, window: int, i: nat)
    requires window >= 3 && i < |s|
    ensures var h := EffectiveWidth(window) / 2;
      var r := MedianFilterSeries(s, Some(window));
      && (r[i].None? <==> forall k :: 0 <= k < |s| && i - h <= k <= i + h ==> s[k].None?)
      && (r[i].Some? ==>
          && 2 * CountAtMost(Present(Window(s, i, h)), r[i].value) >= CountPresent(Window(s, i, h))
          && 2 * CountAtLeast(Present(Window(s, i, h)), r[i].value) >= CountPresent(Window(s, i, h))
          && (exists k :: 0 <= k < |s| && i - h <= k <= i + h && s[k].Some? && s[k].value <= r[i].value)
          && (exists k :: 0 <= k < |s| && i - h <= k <= i + h && s[k].Some? && s[k].value >= r[i].value))
  {
    var h := EffectiveWidth(window) / 2;
    var r := MedianFilterSeries(s, Some(window));
    assert r[i] == Median(Present(Window(s, i, h)));
    WindowAbsent(s, i, h);
    if r[i].Some? {
      MedianSplits(Present(Window(s, i, h)));
      WindowMedianBounds(s, i, h);
    }
  }

  /** A window has no present value exactly when each of its positions is absent. */
  lemma WindowAbsent(s: seq<Option<real>>, i: nat, h: nat)
    requires i < |s|
    ensures |Present(Window(s, i, h))| == 0 <==> forall k :: 0 <= k < |s| && i - h <= k <= i + h ==> s[k].None?
  {
    var lo := WindowStart(i, h);
    var w := Window(s, i, h);
    if |Present(w)| == 0 {
      forall k | 0 <= k < |s| && i - h <= k <= i + h
        ensures s[k].None?
      {
        assert w[k - lo] == s[k];
      }
    } else {
      assert Present(w)[0] in Present(w);
      var j :| 0 <= j < |w| && w[j] == Some(Present(w)[0]);
      assert s[lo + j].Some?;
    }
  }

  /** Each present value of a window sits at some position of the window. */
  lemma PresentValueAt(s: seq<Option<real>>, i: nat, h: nat, x: real)
    requires i < |s| && x in Present(Window(s, i, h))
    ensures exists k :: 0 <= k < |s| && i - h <= k <= i + h && s[k] == Some(x)
  {
    var w := Window(s, i, h);
    var j :| 0 <= j < |w| && w[j] == Some(x);
    assert s[WindowStart(i, h) + j] == Some(x);
  }

  /** Present values below and above the median are found at window positions. */
  lemma WindowMedianBounds(s: seq<Option<real>>, i: nat, h: nat)
    requires i < |s| && |Present(Window(s, i, h))| > 0
    ensures var m := Median(Present(Window(s, i, h))).value;
      && (exists k :: 0 <= k < |s| && i - h <= k <= i + h && s[k].Some? && s[k].value <= m)
      && (exists k :: 0 <= k < |s| && i - h <= k <= i + h && s[k].Some? && s[k].value >= m)
  {
    var v := Present(Window(s, i, h));
    var m := Median(v).value;
    MedianSplits(v);
    var a :| 0 <= a < |v| && v[a] <= m;
    var b :| 0 <= b < |v| && v[b] >= m;
    PresentValueAt(s, i, h, v[a]);
    var ka :| 0 <= ka < |s| && i - h <= ka <= i + h && s[ka] == Some(v[a]);
    assert s[ka].Some? && s[ka].value <= m;
    PresentValueAt(s, i, h, v[b]);
    var kb :| 0 <= kb < |s| && i - h <= kb <= i + h && s[kb] == Some(v[b]);
    assert s[kb].Some? && s[kb].value >= m;
  }
}
