/** The two ways the plotting module cuts a flat array of samples into element patches:
    `_nansplit` (nutils/plot.py), which separates at every row holding a NaN and keeps the
    empty pieces, and the segmentation loop of `PyPlot.mesh`, which separates only at rows
    that are entirely NaN and skips empty runs. */
module Segmenter {
  import opened Results
  import opened Split

  /** A floating-point sample: not-a-number, or an ordinary value. */
  datatype Value = NaN | Num(v: real)

  /** One row of a data array of any width (`data.reshape(n, -1)`). */
  type Row = seq<Value>

  /** `_nansplit`'s separator test: the row holds at least one NaN. */
  predicate HasNaN(row: Row) {
    exists j :: 0 <= j < |row| && row[j].NaN?
  }

  /** A point of a two-dimensional mesh (the last axis of `points` has length 2). */
  datatype Point = Point(x: Value, y: Value)

  /** The separator test of `PyPlot.mesh`: every coordinate of the point is NaN. */
  predicate Blank(p: Point) {
    p.x.NaN? && p.y.NaN?
  }

  /** Why `_nansplit` fails: `reshape(0, -1)` cannot size the free axis of an array with
      no rows. */
  datatype NanSplitError = EmptyReshape

  /** `_nansplit`: the pieces between rows holding a NaN. It fails exactly on an array
      without rows. Otherwise there is one piece more than there are such rows (adjacent
      separators leave empty pieces), piece `k` is exactly the rows strictly between the
      `k`-th and the next NaN row (or an end of the data), no piece holds a NaN row, and
      the pieces laid end to end are the input without its NaN rows. */
  function NanSplit(data: seq<Row>): (r: Result<seq<seq<Row>>, NanSplitError>)
    ensures r.Err? <==> |data| == 0
    ensures r.Ok? ==> |r.value| == (|data| - |Without(data, HasNaN)|) + 1
    ensures r.Ok? ==> var sp := Find(data, HasNaN);
      && |r.value| == |sp| + 1
      && forall k :: 0 <= k <= |sp| ==>
           && RunStart(sp, k) <= RunEnd(sp, |data|, k) <= |data|
           && r.value[k] == data[RunStart(sp, k) .. RunEnd(sp, |data|, k)]
    ensures r.Ok? ==> forall k, j :: 0 <= k < |r.value| && 0 <= j < |r.value[k]| ==> !HasNaN(r.value[k][j])
    ensures r.Ok? ==> Flatten(r.value) == Without(data, HasNaN)
  {
    if |data| == 0 then Err(EmptyReshape)
    else
      PiecesHaveNoNaN(data);
      RunsRebuildInput(data, HasNaN);
      FindCountsSeparators(data, HasNaN);
      NanSplitCuts(data);
      Ok(Pieces(data, Runs(data, HasNaN)))
  }

  /** Piece `k` of `_nansplit` is cut between NaN rows `k - 1` and `k`. */
  lemma {:induction false} NanSplitCuts(data: seq<Row>)
    ensures var sp, r := Find(data, HasNaN), Pieces(data, Runs(data, HasNaN));
      && |r| == |sp| + 1
      && forall k :: 0 <= k <= |sp| ==>
           && RunStart(sp, k) <= RunEnd(sp, |data|, k) <= |data|
           && r[k] == data[RunStart(sp, k) .. RunEnd(sp, |data|, k)]
  {
    var sp, runs := Find(data, HasNaN), Runs(data, HasNaN);
    RunsAreBetween(data, HasNaN);
    forall k | 0 <= k <= |sp|
      ensures RunStart(sp, k) <= RunEnd(sp, |data|, k) <= |data|
      ensures Pieces(data, runs)[k] == data[RunStart(sp, k) .. RunEnd(sp, |data|, k)]
    {
      assert runs[k] == Span(RunStart(sp, k), RunEnd(sp, |data|, k));
    }
  }

  lemma {:induction false} PiecesHaveNoNaN(data: seq<Row>)
    ensures var r := Pieces(data, Runs(data, HasNaN));
      forall k, j :: 0 <= k < |r| && 0 <= j < |r[k]| ==> !HasNaN(r[k][j])
  {
    PiecesHaveNoSeparator(data, HasNaN, Runs(data, HasNaN));
  }

  /** The element patches of `PyPlot.mesh`, as row ranges: every range is non-empty, holds
      no blank point and is bounded on each side by a blank point or an end of the array
      (so it is a maximal run), the ranges come in input order, and every non-blank point
      lies in one of them. */
  function Segment(points: seq<Point>): (r: seq<Span>)
    ensures forall k :: 0 <= k < |r| ==>
              && r[k].lo < r[k].hi <= |points|
              && (r[k].lo == 0 || Blank(points[r[k].lo - 1]))
              && (r[k].hi == |points| || Blank(points[r[k].hi]))
    ensures forall k, p :: 0 <= k < |r| && r[k].lo <= p < r[k].hi ==> !Blank(points[p])
    ensures forall i, j :: 0 <= i < j < |r| ==> r[i].hi < r[j].lo
    ensures forall p :: 0 <= p < |points| && !Blank(points[p]) ==>
              exists k :: 0 <= k < |r| && r[k].lo <= p < r[k].hi
  {
    SegmentsAreMaximal(points);
    SegmentsInOrder(points);
    SegmentsCover(points);
    NonEmpty(Runs(points, Blank))
  }

  lemma {:induction false} SegmentsAreMaximal(points: seq<Point>)
    ensures var r := NonEmpty(Runs(points, Blank));
      && (forall k :: 0 <= k < |r| ==>
            && r[k].lo < r[k].hi <= |points|
            && (r[k].lo == 0 || Blank(points[r[k].lo - 1]))
            && (r[k].hi == |points| || Blank(points[r[k].hi])))
      && (forall k, p :: 0 <= k < |r| && r[k].lo <= p < r[k].hi ==> !Blank(points[p]))
  {
    NonEmptyRunsAreMaximal(points, Blank, Runs(points, Blank));
  }

  lemma {:induction false} SegmentsInOrder(points: seq<Point>)
    ensures var r := NonEmpty(Runs(points, Blank));
      forall i, j :: 0 <= i < j < |r| ==> r[i].hi < r[j].lo
  {
    NonEmptyKeepsOrder(Runs(points, Blank));
  }

  lemma {:induction false} SegmentsCover(points: seq<Point>)
    ensures var r := NonEmpty(Runs(points, Blank));
      forall p :: 0 <= p < |points| && !Blank(points[p]) ==> exists k :: 0 <= k < |r| && r[k].lo <= p < r[k].hi
  {
    var runs := Runs(points, Blank);
    forall p | 0 <= p < |points| && !Blank(points[p])
      ensures exists k :: 0 <= k < |NonEmpty(runs)| && NonEmpty(runs)[k].lo <= p < NonEmpty(runs)[k].hi
    {
      RunsCoverClearRows(points, Blank, p);
      var k :| 0 <= k < |runs| && runs[k].lo <= p < runs[k].hi;
      NonEmptyCovers(runs, k, p);
    }
  }

  /** The patches of `PyPlot.mesh` laid end to end are the input without its blank
      points: skipping empty runs loses nothing. */
  lemma {:induction false} SegmentKeepsEveryPoint(points: seq<Point>)
    ensures Flatten(Pieces(points, Segment(points))) == Without(points, Blank)
  {
    NonEmptyPiecesSame(points, Runs(points, Blank));
    RunsRebuildInput(points, Blank);
  }

  /** The converse of `Segment`'s contract: every non-empty run of non-blank points that
      is bounded on each side by a blank point or an end of the array is one of the
      patches. */
  lemma {:induction false} SegmentFindsEveryRun(points: seq<Point>, lo: nat, hi: nat)
    requires lo < hi <= |points|
    requires lo == 0 || Blank(points[lo - 1])
    requires hi == |points| || Blank(points[hi])
    requires forall q :: lo <= q < hi ==> !Blank(points[q])
    ensures exists k :: 0 <= k < |Segment(points)| && Segment(points)[k] == Span(lo, hi)
  {
    var r := Segment(points);
    assert !Blank(points[lo]);
    var k :| 0 <= k < |r| && r[k].lo <= lo < r[k].hi;
    assert r[k].lo == lo;
    assert r[k].hi == hi;
  }

  /** Ten points with blank points at rows 3 and 7 make three patches: rows 0 to 2, 4 to 6
      and 8 to 9. */
  lemma {:induction false} SegmentExample(s: seq<Point>)
    requires |s| == 10 && forall p :: 0 <= p < 10 ==> (Blank(s[p]) <==> p == 3 || p == 7)
    ensures Segment(s) == [Span(0, 3), Span(4, 7), Span(8, 10)]
  {
    ExampleRuns(s);
    ThreeRuns(Segment(s));
  }

  /** The three runs of the example are patches. */
  lemma {:induction false} ExampleRuns(s: seq<Point>)
    requires |s| == 10 && forall p :: 0 <= p < 10 ==> (Blank(s[p]) <==> p == 3 || p == 7)
    ensures exists k :: 0 <= k < |Segment(s)| && Segment(s)[k] == Span(0, 3)
    ensures exists k :: 0 <= k < |Segment(s)| && Segment(s)[k] == Span(4, 7)
    ensures exists k :: 0 <= k < |Segment(s)| && Segment(s)[k] == Span(8, 10)
  {
    SegmentFindsEveryRun(s, 0, 3);
    SegmentFindsEveryRun(s, 4, 7);
    SegmentFindsEveryRun(s, 8, 10);
  }

  /** Non-empty ordered spans within ten rows that include these three are these three. */
  lemma {:induction false} ThreeRuns(r: seq<Span>)
    requires forall k :: 0 <= k < |r| ==> r[k].lo < r[k].hi <= 10
    requires forall i, j :: 0 <= i < j < |r| ==> r[i].hi < r[j].lo
    requires exists k :: 0 <= k < |r| && r[k] == Span(0, 3)
    requires exists k :: 0 <= k < |r| && r[k] == Span(4, 7)
    requires exists k :: 0 <= k < |r| && r[k] == Span(8, 10)
    ensures r == [Span(0, 3), Span(4, 7), Span(8, 10)]
  {
    var ka :| 0 <= ka < |r| && r[ka] == Span(0, 3);
    var kb :| 0 <= kb < |r| && r[kb] == Span(4, 7);
    var kc :| 0 <= kc < |r| && r[kc] == Span(8, 10);
    Spread(r, 0, ka);
    Spread(r, ka, kb);
    Spread(r, kb, kc);
    Spread(r, kc, |r| - 1);
  }

  /** Ordered non-empty spans: each later span ends at least two rows per step further
      on, and starts at least one row after the end of the earlier one and two more per
      further step. */
  lemma {:induction false} Spread(r: seq<Span>, i: nat, j: nat)
    requires forall k :: 0 <= k < |r| ==> r[k].lo < r[k].hi
    requires forall i, j :: 0 <= i < j < |r| ==> r[i].hi < r[j].lo
    requires i <= j < |r|
    ensures i < j ==> r[j].lo >= r[i].hi + 2 * (j - i) - 1
    ensures r[j].hi >= r[i].hi + 2 * (j - i)
    decreases j - i
  {
    if i < j {
      Spread(r, i, j - 1);
      assert r[j - 1].hi < r[j].lo;
    }
  }
}
