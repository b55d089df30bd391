/** Ordering of the raw dataset and numbering of its traces
    (scripts/enrich_dataset.py, lines 40-45).

    The rows are stable-sorted by `(file_name, time)`, missing times last.
    `track_id` is pandas' `ngroup()` over `file_name`: the rank of the row's
    file name among the distinct file names in sorted order. `point_idx` is
    `cumcount()`: the number of earlier rows of the same trace. */
module TraceGrouping {
  import opened Common
  import Lexicographic

  /** One row of the raw point dataset, after type coercion. */
  datatype RawRow = RawRow(
    fileName: string,
    activityType: Option<string>,
    lat: Option<real>,
    lon: Option<real>,
    altitude: Option<real>,
    distance: Option<real>,
    dplusCum: Option<real>,
    speedKmh: Option<real>,
    time: Option<int>)

  /** The sort key of row `a` is strictly below that of row `b`. */
  predicate KeyBefore(a: RawRow, b: RawRow)
  {
    Lexicographic.Less(a.fileName, b.fileName)
    || (a.fileName == b.fileName && TimeBefore(a.time, b.time))
  }

  predicate SameKey(a: RawRow, b: RawRow)
  {
    a.fileName == b.fileName && a.time == b.time
  }

  /** A row with its position in the input. */
  datatype Tagged = Tagged(pos: nat, row: RawRow)

  /** The order a stable sort produces: by key, ties by input position. */
  predicate Precedes(x: Tagged, y: Tagged)
  {
    KeyBefore(x.row, y.row) || (SameKey(x.row, y.row) && x.pos < y.pos)
  }

  lemma PrecedesIrreflexive(x: Tagged)
    ensures !Precedes(x, x)
  {
    Lexicographic.Irreflexive(x.row.fileName);
  }

  lemma PrecedesTransitive(x: Tagged, y: Tagged, z: Tagged)
    requires Precedes(x, y) && Precedes(y, z)
    ensures Precedes(x, z)
  {
    if Lexicographic.Less(x.row.fileName, y.row.fileName)
       && Lexicographic.Less(y.row.fileName, z.row.fileName) {
      Lexicographic.Transitive(x.row.fileName, y.row.fileName, z.row.fileName);
    }
  }

  lemma PrecedesTotal(x: Tagged, y: Tagged)
    requires x.pos != y.pos
    ensures Precedes(x, y) || Precedes(y, x)
  {
    if x.row.fileName != y.row.fileName {
      Lexicographic.Total(x.row.fileName, y.row.fileName);
    }
  }

  predicate Ordered(s: seq<Tagged>)
  {
    forall i, j :: 0 <= i < j < |s| ==> Precedes(s[i], s[j])
  }

  predicate DistinctPositions(s: seq<Tagged>)
  {
    forall i, j :: 0 <= i < j < |s| ==> s[i].pos != s[j].pos
  }

  /** The input rows, each tagged with its position. */
  function Tag(rows: seq<RawRow>): (r: seq<Tagged>)
    ensures |r| == |rows|
    ensures forall i :: 0 <= i < |r| ==> r[i] == Tagged(i, rows[i])
  {
    seq(|rows|, i requires 0 <= i < |rows| => Tagged(i, rows[i]))
  }

  function Insert(x: Tagged, s: seq<Tagged>): (r: seq<Tagged>)
    ensures multiset(r) == multiset(s) + multiset{x}
    ensures |r| == |s| + 1
    decreases |s|
  {
    if |s| == 0 then [x]
    else if Precedes(x, s[0]) then [x] + s
    else
      assert s == [s[0]] + s[1..];
      [s[0]] + Insert(x, s[1..])
  }

  lemma {:induction false} InsertOrdered(x: Tagged, s: seq<Tagged>)
    requires Ordered(s)
    requires forall k :: 0 <= k < |s| ==> s[k].pos != x.pos
    ensures Ordered(Insert(x, s))
    decreases |s|
  {
    if |s| == 0 {
    } else if Precedes(x, s[0]) {
      forall j | 0 < j < |s|
        ensures Precedes(x, s[j])
      {
        PrecedesTransitive(x, s[0], s[j]);
      }
    } else {
      PrecedesTotal(x, s[0]);
      var t := Insert(x, s[1..]);
      InsertOrdered(x, s[1..]);
      forall j | 0 <= j < |t|
        ensures Precedes(s[0], t[j])
      {
        assert t[j] in multiset(t);
        if t[j] != x {
          assert t[j] in multiset(s[1..]);
          var k :| 0 <= k < |s[1..]| && s[1..][k] == t[j];
          assert s[k + 1] == t[j];
        }
      }
    }
  }

  /** Insertion sort under `Precedes`. */
  function Sort(s: seq<Tagged>): (r: seq<Tagged>)
    ensures multiset(r) == multiset(s)
    ensures |r| == |s|
    decreases |s|
  {
    if |s| == 0 then []
    else
      assert s == s[..|s| - 1] + [s[|s| - 1]];
      Insert(s[|s| - 1], Sort(s[..|s| - 1]))
  }

  lemma {:induction false} SortOrdered(s: seq<Tagged>)
    requires DistinctPositions(s)
    ensures Ordered(Sort(s))
    decreases |s|
  {
    if |s| > 0 {
      var p := s[..|s| - 1];
      var x := s[|s| - 1];
      SortOrdered(p);
      var t := Sort(p);
      forall k | 0 <= k < |t|
        ensures t[k].pos != x.pos
      {
        assert t[k] in multiset(p);
        var m :| 0 <= m < |p| && p[m] == t[k];
      }
      InsertOrdered(x, t);
    }
  }

  /** The stable order of the rows: the input rows tagged with their
      input positions, arranged by `Precedes`. */
  function StableOrder(rows: seq<RawRow>): (r: seq<Tagged>)
    ensures |r| == |rows|
    ensures Ordered(r)
    ensures multiset(r) == multiset(Tag(rows))
  {
    SortOrdered(Tag(rows));
    Sort(Tag(rows))
  }

  /** The stable order is a permutation: every entry is an input row at its
      input position, and every input position occurs exactly once. */
  lemma StableOrderIsPermutation(rows: seq<RawRow>)
    ensures forall k :: 0 <= k < |rows| ==>
      StableOrder(rows)[k].pos < |rows| && StableOrder(rows)[k].row == rows[StableOrder(rows)[k].pos]
    ensures forall p :: 0 <= p < |rows| ==> Tagged(p, rows[p]) in StableOrder(rows)
    ensures DistinctPositions(StableOrder(rows))
  {
    var r := StableOrder(rows);
    var tagged := Tag(rows);
    forall k | 0 <= k < |r|
      ensures r[k].pos < |rows| && r[k].row == rows[r[k].pos]
    {
      assert r[k] in multiset(tagged);
    }
    forall p | 0 <= p < |rows|
      ensures Tagged(p, rows[p]) in r
    {
      assert tagged[p] in multiset(r);
    }
    forall i, j | 0 <= i < j < |r|
      ensures r[i].pos != r[j].pos
    {
      PrecedesIrreflexive(r[i]);
    }
  }

  /** The first entry of an ordered sequence precedes every other entry. */
  lemma OrderedFirstIsLeast(a: seq<Tagged>, y: Tagged)
    requires Ordered(a) && y in multiset(a) && |a| > 0 && y != a[0]
    ensures Precedes(a[0], y)
  {
    var k :| 0 <= k < |a| && a[k] == y;
  }

  /** Two orderings of the same entries that both follow `Precedes` are
      equal: the stable order is unique, so any stable sort yields it. */
  lemma {:induction false} OrderedUnique(a: seq<Tagged>, b: seq<Tagged>)
    requires Ordered(a) && Ordered(b)
    requires multiset(a) == multiset(b)
    ensures a == b
    decreases |a|
  {
    assert |a| == |multiset(a)| == |b|;
    if |a| > 0 {
      OrderedSameFirst(a, b);
      OrderedTail(a);
      OrderedTail(b);
      OrderedUnique(a[1..], b[1..]);
      assert a == [a[0]] + a[1..] && b == [b[0]] + b[1..];
    }
  }

  /** Two orderings of the same entries start with the same entry. */
  lemma OrderedSameFirst(a: seq<Tagged>, b: seq<Tagged>)
    requires Ordered(a) && Ordered(b) && |a| > 0 && |b| > 0
    requires multiset(a) == multiset(b)
    ensures a[0] == b[0]
  {
    if a[0] != b[0] {
      assert a[0] in multiset(a) && b[0] in multiset(b);
      OrderedFirstIsLeast(a, b[0]);
      OrderedFirstIsLeast(b, a[0]);
      PrecedesTransitive(a[0], b[0], a[0]);
      PrecedesIrreflexive(a[0]);
      assert false;
    }
  }

  /** Dropping the first entry keeps the order and removes that entry. */
  lemma OrderedTail(a: seq<Tagged>)
    requires Ordered(a) && |a| > 0
    ensures Ordered(a[1..]) && multiset(a[1..]) == multiset(a) - multiset{a[0]}
  {
    assert a == [a[0]] + a[1..];
  }

  /** The rows of a sequence of tagged rows. */
  function Rows(s: seq<Tagged>): (r: seq<RawRow>)
    ensures |r| == |s|
    ensures forall k :: 0 <= k < |s| ==> r[k] == s[k].row
  {
    seq(|s|, k requires 0 <= k < |s| => s[k].row)
  }

  lemma {:induction false} InsertKeepsRows(x: Tagged, s: seq<Tagged>)
    ensures multiset(Rows(Insert(x, s))) == multiset(Rows(s)) + multiset{x.row}
    decreases |s|
  {
    if |s| == 0 {
      assert Rows([x]) == [x.row];
    } else if Precedes(x, s[0]) {
      assert Insert(x, s) == [x] + s;
      RowsCons(x, s);
    } else {
      var t := Insert(x, s[1..]);
      assert Insert(x, s) == [s[0]] + t;
      InsertKeepsRows(x, s[1..]);
      RowsCons(s[0], t);
      RowsCons(s[0], s[1..]);
      assert [s[0]] + s[1..] == s;
    }
  }

  lemma RowsCons(x: Tagged, s: seq<Tagged>)
    ensures multiset(Rows([x] + s)) == multiset{x.row} + multiset(Rows(s))
  {
    assert Rows([x] + s) == [x.row] + Rows(s);
  }

  lemma {:induction false} SortKeepsRows(s: seq<Tagged>)
    ensures multiset(Rows(Sort(s))) == multiset(Rows(s))
    decreases |s|
  {
    if |s| > 0 {
      var p := s[..|s| - 1];
      var x := s[|s| - 1];
      var q := Sort(p);
      assert Sort(s) == Insert(x, q);
      SortKeepsRows(p);
      InsertKeepsRows(x, q);
      RowsLast(s);
    }
  }

  lemma RowsLast(s: seq<Tagged>)
    requires |s| > 0
    ensures multiset(Rows(s)) == multiset(Rows(s[..|s| - 1])) + multiset{s[|s| - 1].row}
  {
    assert Rows(s) == Rows(s[..|s| - 1]) + [s[|s| - 1].row];
  }

  /** File names in non-decreasing order. */
  predicate FilesSorted(s: seq<RawRow>)
  {
    forall i, j :: 0 <= i < j < |s| ==> Lexicographic.LessOrEqual(s[i].fileName, s[j].fileName)
  }

  /** The rows in the order `sort_values(["file_name", "time"], kind="mergesort")`
      leaves them: the same rows, file names ascending, and within one file
      timestamps ascending with missing ones last. */
  function SortRows(rows: seq<RawRow>): (r: seq<RawRow>)
    ensures |r| == |rows|
    ensures multiset(r) == multiset(rows)
    ensures forall i, j :: 0 <= i < j < |r| ==> !KeyBefore(r[j], r[i])
    ensures FilesSorted(r)
  {
    var order := StableOrder(rows);
    SortKeepsRows(Tag(rows));
    assert Rows(Tag(rows)) == rows;
    OrderedKeys(order);
    Rows(order)
  }

  lemma OrderedKeys(s: seq<Tagged>)
    requires Ordered(s)
    ensures forall i, j :: 0 <= i < j < |s| ==> !KeyBefore(s[j].row, s[i].row)
    ensures FilesSorted(Rows(s))
  {
    forall i, j | 0 <= i < j < |s|
      ensures !KeyBefore(s[j].row, s[i].row)
      ensures Lexicographic.LessOrEqual(s[i].row.fileName, s[j].row.fileName)
    {
      if KeyBefore(s[j].row, s[i].row) {
        PrecedesTransitive(s[i], s[j], s[i]);
        PrecedesIrreflexive(s[i]);
      }
      if s[i].row.fileName != s[j].row.fileName {
        Lexicographic.Total(s[i].row.fileName, s[j].row.fileName);
      }
    }
  }

  /** The distinct file names of the rows. */
  function Files(s: seq<RawRow>): set<string>
  {
    set i | 0 <= i < |s| :: s[i].fileName
  }

  /** The distinct file names that sort strictly before `f`. */
  function FilesBelow(s: seq<RawRow>, f: string): set<string>
  {
    set g | g in Files(s) && Lexicographic.Less(g, f)
  }

  lemma SubsetCardinality<T>(a: set<T>, b: set<T>)
    requires a <= b
    ensures |a| <= |b|
    ensures a != b ==> |a| < |b|
  {
    var rest := b - a;
    assert b == a + rest && a * rest == {};
    if a != b {
      var x :| x in b && x !in a;
      assert x in rest;
    }
  }

  /** `track_id` of row `i`: `groupby("file_name").ngroup()`, the rank of its
      file name among the distinct names, so a number below the count of
      distinct names. */
  function TrackId(s: seq<RawRow>, i: nat): (t: nat)
    requires i < |s|
    ensures t < |Files(s)|
  {
    var f := s[i].fileName;
    Lexicographic.Irreflexive(f);
    assert f in Files(s);
    SubsetCardinality(FilesBelow(s, f), Files(s) - {f});
    |FilesBelow(s, f)|
  }

  /** Number of rows carrying file name `f`. */
  function CountFile(s: seq<RawRow>, f: string): (n: nat)
    ensures n <= |s|
  {
    if |s| == 0 then 0
    else CountFile(s[..|s| - 1], f) + (if s[|s| - 1].fileName == f then 1 else 0)
  }

  /** `point_idx` of row `i`: `groupby("track_id").cumcount()`, the number of
      earlier rows of the same trace. */
  function PointIndex(s: seq<RawRow>, i: nat): (p: nat)
    requires i < |s|
    ensures p <= i
  {
    CountFile(s[..i], s[i].fileName)
  }

  lemma {:induction false} CountFileAbsent(s: seq<RawRow>, f: string)
    requires forall k :: 0 <= k < |s| ==> s[k].fileName != f
    ensures CountFile(s, f) == 0
    decreases |s|
  {
    if |s| > 0 {
      CountFileAbsent(s[..|s| - 1], f);
    }
  }

  /** Two rows of a file-sorted sequence with different names are in strict order. */
  lemma SortedDistinct(s: seq<RawRow>, i: nat, j: nat)
    requires FilesSorted(s) && i < j < |s|
    requires s[i].fileName != s[j].fileName
    ensures Lexicographic.Less(s[i].fileName, s[j].fileName)
  {
  }

  /** On file-sorted rows, both numberings start at 0 and advance row by
      row: a row of the same trace keeps the `track_id` and takes the next
      `point_idx`; a row of a new trace takes the next `track_id` and
      `point_idx` 0. */
  lemma NumberingSteps(s: seq<RawRow>)
    requires FilesSorted(s)
    ensures |s| > 0 ==> TrackId(s, 0) == 0 && PointIndex(s, 0) == 0
    ensures forall i, j :: 0 <= i < j < |s| && j == i + 1 && s[j].fileName == s[i].fileName ==>
      TrackId(s, j) == TrackId(s, i) && PointIndex(s, j) == PointIndex(s, i) + 1
    ensures forall i, j :: 0 <= i < j < |s| && j == i + 1 && s[j].fileName != s[i].fileName ==>
      TrackId(s, j) == TrackId(s, i) + 1 && PointIndex(s, j) == 0
  {
    if |s| > 0 {
      FirstRowNumbers(s);
    }
    forall i, j | 0 <= i < j < |s| && j == i + 1
      ensures s[j].fileName == s[i].fileName ==>
        TrackId(s, j) == TrackId(s, i) && PointIndex(s, j) == PointIndex(s, i) + 1
      ensures s[j].fileName != s[i].fileName ==>
        TrackId(s, j) == TrackId(s, i) + 1 && PointIndex(s, j) == 0
    {
      if s[i + 1].fileName != s[i].fileName {
        NewTraceStep(s, i);
      } else {
        SameTraceStep(s, i);
      }
    }
  }

  /** No file name sorts before the first row's, and no row precedes it. */
  lemma FirstRowNumbers(s: seq<RawRow>)
    requires FilesSorted(s) && |s| > 0
    ensures TrackId(s, 0) == 0 && PointIndex(s, 0) == 0
  {
    forall g | g in Files(s)
      ensures !Lexicographic.Less(g, s[0].fileName)
    {
      var k :| 0 <= k < |s| && s[k].fileName == g;
      if k > 0 && g != s[0].fileName {
        Lexicographic.Asymmetric(s[0].fileName, g);
      } else {
        Lexicographic.Irreflexive(g);
      }
    }
    assert FilesBelow(s, s[0].fileName) == {};
  }

  /** The next row of the same file keeps the id and counts one more row. */
  lemma SameTraceStep(s: seq<RawRow>, i: nat)
    requires i + 1 < |s| && s[i + 1].fileName == s[i].fileName
    ensures TrackId(s, i + 1) == TrackId(s, i)
    ensures PointIndex(s, i + 1) == PointIndex(s, i) + 1
  {
    assert s[..i + 1][..i] == s[..i];
  }

  lemma NewTraceStep(s: seq<RawRow>, i: nat)
    requires FilesSorted(s) && i + 1 < |s|
    requires s[i + 1].fileName != s[i].fileName
    ensures TrackId(s, i + 1) == TrackId(s, i) + 1
    ensures PointIndex(s, i + 1) == 0
  {
    var f, f' := s[i].fileName, s[i + 1].fileName;
    NewTraceFirstRow(s, i);
    BelowNextWithin(s, i);
    BelowNextCovers(s, i);
    assert FilesBelow(s, f') == FilesBelow(s, f) + {f};
    Lexicographic.Irreflexive(f);
    assert f !in FilesBelow(s, f);
  }

  /** A new trace's first row has no earlier row of its file. */
  lemma NewTraceFirstRow(s: seq<RawRow>, i: nat)
    requires FilesSorted(s) && i + 1 < |s|
    requires s[i + 1].fileName != s[i].fileName
    ensures PointIndex(s, i + 1) == 0
  {
    var f, f' := s[i].fileName, s[i + 1].fileName;
    SortedDistinct(s, i, i + 1);
    var prefix := s[..i + 1];
    forall k | 0 <= k < |prefix|
      ensures prefix[k].fileName != f'
    {
      if k < i && s[k].fileName == f' {
        assert Lexicographic.LessOrEqual(s[k].fileName, f);
        Lexicographic.Asymmetric(f, f');
      }
    }
    CountFileAbsent(prefix, f');
  }

  /** Every name below the next trace's name is below the current one or is it. */
  lemma BelowNextWithin(s: seq<RawRow>, i: nat)
    requires FilesSorted(s) && i + 1 < |s|
    requires s[i + 1].fileName != s[i].fileName
    ensures FilesBelow(s, s[i + 1].fileName) <= FilesBelow(s, s[i].fileName) + {s[i].fileName}
  {
    var f, f' := s[i].fileName, s[i + 1].fileName;
    forall g | g in FilesBelow(s, f')
      ensures g in FilesBelow(s, f) + {f}
    {
      var k :| 0 <= k < |s| && s[k].fileName == g;
      if k > i {
        if g != f' {
          SortedDistinct(s, i + 1, k);
          Lexicographic.Asymmetric(f', g);
        } else {
          Lexicographic.Irreflexive(g);
        }
      } else if g != f && k < i {
        SortedDistinct(s, k, i);
      }
    }
  }

  /** The current name and every name below it are below the next trace's name. */
  lemma BelowNextCovers(s: seq<RawRow>, i: nat)
    requires FilesSorted(s) && i + 1 < |s|
    requires s[i + 1].fileName != s[i].fileName
    ensures FilesBelow(s, s[i].fileName) + {s[i].fileName} <= FilesBelow(s, s[i + 1].fileName)
  {
    var f, f' := s[i].fileName, s[i + 1].fileName;
    SortedDistinct(s, i, i + 1);
    assert f in Files(s);
    forall g | g in FilesBelow(s, f)
      ensures g in FilesBelow(s, f')
    {
      Lexicographic.Transitive(g, f, f');
    }
  }

  /** The last row's trace has the highest `track_id`: ids run 0..k-1. */
  lemma LastTrackId(s: seq<RawRow>)
    requires FilesSorted(s) && |s| > 0
    ensures TrackId(s, |s| - 1) == |Files(s)| - 1
  {
    var f := s[|s| - 1].fileName;
    forall g | g in Files(s) && g != f
      ensures g in FilesBelow(s, f)
    {
      var k :| 0 <= k < |s| && s[k].fileName == g;
      SortedDistinct(s, k, |s| - 1);
    }
    Lexicographic.Irreflexive(f);
    assert FilesBelow(s, f) == Files(s) - {f};
  }

  /** The `track_id` column. */
  function TrackIds(s: seq<RawRow>): (ids: seq<nat>)
    ensures |ids| == |s|
    ensures forall i :: 0 <= i < |s| ==> ids[i] == TrackId(s, i)
  {
    seq(|s|, i requires 0 <= i < |s| => TrackId(s, i))
  }

  /** On file-sorted rows, every number below the count of distinct file
      names is the `track_id` of some row: the numbering is dense. */
  lemma TrackIdsDense(s: seq<RawRow>)
    requires FilesSorted(s)
    ensures forall t :: 0 <= t < |Files(s)| ==> t in TrackIds(s)
  {
    if |s| == 0 {
      assert Files(s) == {};
    } else {
      LastTrackId(s);
      forall t | 0 <= t < |Files(s)|
        ensures t in TrackIds(s)
      {
        TrackIdReached(s, |s| - 1, t);
      }
    }
  }

  lemma {:induction false} TrackIdReached(s: seq<RawRow>, n: nat, t: nat)
    requires FilesSorted(s) && n < |s| && t <= TrackId(s, n)
    ensures t in TrackIds(s)
    decreases n
  {
    NumberingSteps(s);
    if t < TrackId(s, n) {
      assert n > 0;
      TrackIdReached(s, n - 1, t);
    } else {
      assert TrackIds(s)[n] == t;
    }
  }
}
