/** The bezier triangulation of one element patch in `PyPlot.mesh` (nutils/plot.py):
    a patch of `np` points is laid out either as a `k` by `k` square (`np = k * k`) or
    as a triangle of `m` rows holding `m, m - 1, ..., 1` points (`np = m (m + 1) / 2`),
    and each layout brings its list of triangles and the closed walk along its
    boundary. */
module Bezier {
  import opened Results
  import opened Split
  import opened Roots
  import opened Grid

  /** The triangles of a patch and the closed boundary walk, as point indices. */
  datatype Layout = Layout(tris: seq<Tri>, hull: seq<int>)

  // ---------------------------------------------------------------------------
  // The square layout
  // ---------------------------------------------------------------------------

  /** The boundary of the `k` by `k` square, as in `concatenate([ind[:, 0], ind[-1, 1:],
      ind[-2::-1, -1], ind[0, -2::-1]])`: down the first column, along the last row,
      back up the last column and back along the first row. */
  function SquareHull(k: nat): (r: seq<int>)
    requires k >= 1
    ensures |r| == 4 * k - 3
    ensures r[0] == 0 && r[|r| - 1] == 0
  {
    seq(k, i requires 0 <= i < k => At(k, i, 0))
    + seq(k - 1, j requires 0 <= j < k - 1 => At(k, k - 1, j + 1))
    + seq(k - 1, s requires 0 <= s < k - 1 => At(k, k - 2 - s, k - 1))
    + seq(k - 1, s requires 0 <= s < k - 1 => At(k, 0, k - 2 - s))
  }

  /** Row and column of the point at step `t` of the walk round the square. */
  function SquareRim(k: nat, t: int): (int, int) {
    if t < k then (t, 0)
    else if t < 2 * k - 1 then (k - 1, t - k + 1)
    else if t < 3 * k - 2 then (3 * k - 3 - t, k - 1)
    else (0, 4 * k - 4 - t)
  }

  /** A point of the `k` by `k` square that lies on one of its four sides. */
  predicate OnSquareRim(k: nat, p: (int, int)) {
    0 <= p.0 < k && 0 <= p.1 < k && (p.0 == 0 || p.0 == k - 1 || p.1 == 0 || p.1 == k - 1)
  }

  /** Step `t` of the square's hull is the boundary point `SquareRim(k, t)`. */
  lemma {:induction false} SquareHullAt(k: nat, t: nat)
    requires k >= 1 && t < 4 * k - 3
    ensures OnSquareRim(k, SquareRim(k, t))
    ensures SquareHull(k)[t] == At(k, SquareRim(k, t).0, SquareRim(k, t).1)
  {
  }

  /** The walk round the square visits each of its `4 (k - 1)` boundary points once
      before it returns to 0. */
  lemma {:induction false} SquareHullDistinct(k: nat, a: nat, b: nat)
    requires k >= 1 && a < b < 4 * k - 4
    ensures SquareHull(k)[a] != SquareHull(k)[b]
  {
    SquareHullAt(k, a);
    SquareHullAt(k, b);
    var p, q := SquareRim(k, a), SquareRim(k, b);
    if At(k, p.0, p.1) == At(k, q.0, q.1) {
      AtInjective(k, p.0, p.1, q.0, q.1);
    }
  }

  /** Every boundary point of the square is on the walk. */
  lemma {:induction false} SquareHullVisits(k: nat, p: (int, int))
    requires k >= 1 && OnSquareRim(k, p)
    ensures exists t :: 0 <= t < 4 * k - 3 && SquareHull(k)[t] == At(k, p.0, p.1)
  {
    var t :=
      if p.1 == 0 then p.0
      else if p.0 == k - 1 then k - 1 + p.1
      else if p.1 == k - 1 then 3 * k - 3 - p.0
      else 4 * k - 4 - p.1;
    SquareHullAt(k, t);
  }

  /** Each step of the walk round the square runs along a side of one of the
      triangles of the square's cell split. */
  lemma {:induction false} SquareHullFollowsEdges(k: nat, t: nat)
    requires k >= 2 && t < 4 * k - 4
    ensures exists q :: 0 <= q < |CellSplit(k, k)| && HasEdge(CellSplit(k, k)[q], SquareHull(k)[t], SquareHull(k)[t + 1])
  {
    if t < 2 * k - 2 {
      SquareHullFirstHalf(k, t);
    } else {
      SquareHullSecondHalf(k, t);
    }
  }

  /** Down the first column along near halves, then along the last row along far halves. */
  lemma {:induction false} SquareHullFirstHalf(k: nat, t: nat)
    requires k >= 2 && t < 2 * k - 2
    ensures exists q :: 0 <= q < |CellSplit(k, k)| && HasEdge(CellSplit(k, k)[q], SquareHull(k)[t], SquareHull(k)[t + 1])
  {
    SquareHullAt(k, t);
    SquareHullAt(k, t + 1);
    var u, v := SquareHull(k)[t], SquareHull(k)[t + 1];
    if t < k - 1 {
      CellSides(k, t, 0);
      SplitHasEdge(k, t, 0, false, u, v);
    } else {
      CellSides(k, k - 2, t - k + 1);
      SplitHasEdge(k, k - 2, t - k + 1, true, u, v);
    }
  }

  /** Up the last column along far halves, then back along the first row along near
      halves. */
  lemma {:induction false} SquareHullSecondHalf(k: nat, t: nat)
    requires k >= 2 && 2 * k - 2 <= t < 4 * k - 4
    ensures exists q :: 0 <= q < |CellSplit(k, k)| && HasEdge(CellSplit(k, k)[q], SquareHull(k)[t], SquareHull(k)[t + 1])
  {
    if t < 3 * k - 3 {
      SquareHullLastColumn(k, t);
    } else {
      SquareHullFirstRow(k, t);
    }
  }

  /** Up the last column, along far halves. */
  lemma {:induction false} SquareHullLastColumn(k: nat, t: nat)
    requires k >= 2 && 2 * k - 2 <= t < 3 * k - 3
    ensures exists q :: 0 <= q < |CellSplit(k, k)| && HasEdge(CellSplit(k, k)[q], SquareHull(k)[t], SquareHull(k)[t + 1])
  {
    SquareHullAt(k, t);
    SquareHullAt(k, t + 1);
    CellSides(k, 3 * k - 4 - t, k - 2);
    SplitHasEdge(k, 3 * k - 4 - t, k - 2, true, SquareHull(k)[t], SquareHull(k)[t + 1]);
  }

  /** Back along the first row, along near halves. */
  lemma {:induction false} SquareHullFirstRow(k: nat, t: nat)
    requires k >= 2 && 3 * k - 3 <= t < 4 * k - 4
    ensures exists q :: 0 <= q < |CellSplit(k, k)| && HasEdge(CellSplit(k, k)[q], SquareHull(k)[t], SquareHull(k)[t + 1])
  {
    SquareHullAt(k, t);
    SquareHullAt(k, t + 1);
    CellSides(k, 0, 4 * k - 5 - t);
    SplitHasEdge(k, 0, 4 * k - 5 - t, false, SquareHull(k)[t], SquareHull(k)[t + 1]);
  }

  /** A side of a half of a cell is a side of a triangle of the split. */
  lemma {:induction false} SplitHasEdge(k: nat, i: nat, j: nat, far: bool, u: int, v: int)
    requires i < k - 1 && j < k - 1
    requires HasEdge(Half(k, i, j, far), u, v)
    ensures exists q :: 0 <= q < |CellSplit(k, k)| && HasEdge(CellSplit(k, k)[q], u, v)
  {
    CellSplitListsEveryCell(k, k, i, j);
    var n := Inner(k) * Inner(k);
    if far {
      assert HasEdge(CellSplit(k, k)[n + i * Inner(k) + j], u, v);
    } else {
      assert HasEdge(CellSplit(k, k)[i * Inner(k) + j], u, v);
    }
  }

  /** The square layout of side `k`. */
  function SquareLayout(k: nat): (r: Layout)
    requires k >= 1
    ensures |r.tris| == 2 * (k - 1) * (k - 1)
    ensures forall c :: 0 <= c < |r.tris| ==> InRange(r.tris[c], k * k)
    ensures |r.hull| == 4 * k - 3 && r.hull[0] == 0 == r.hull[|r.hull| - 1]
    ensures forall t :: 0 <= t < |r.hull| ==> 0 <= r.hull[t] < k * k
  {
    var r := Layout(CellSplit(k, k), SquareHull(k));
    forall t | 0 <= t < |r.hull|
      ensures 0 <= r.hull[t] < k * k
    {
      SquareHullAt(k, t);
      AtInRange(k, k, SquareRim(k, t).0, SquareRim(k, t).1);
    }
    r
  }

  // ---------------------------------------------------------------------------
  // The triangular layout
  // ---------------------------------------------------------------------------

  /** The offset of row `i` as the source computes it, `((2 m - i + 1) i) // 2`. */
  function Offset(m: nat, i: int): int {
    ((2 * m - i + 1) * i) / 2
  }

  /** The number of points in the rows before row `i`, rows holding `m, m - 1, ...`
      points. */
  function RowStart(m: nat, i: nat): int {
    if i == 0 then 0 else RowStart(m, i - 1) + (m - (i - 1))
  }

  /** The closed form and the count agree: row `i` starts at `Offset(m, i)`. */
  lemma {:induction false} OffsetIsRowStart(m: nat, i: nat)
    ensures 2 * RowStart(m, i) == (2 * m - i + 1) * i
    ensures Offset(m, i) == RowStart(m, i)
  {
    if i > 0 {
      OffsetIsRowStart(m, i - 1);
      assert (2 * m - i + 1) * i == (2 * m - (i - 1) + 1) * (i - 1) + 2 * (m - (i - 1));
    }
  }

  /** Rows before later rows hold more points, row `i < m` holding `m - i`. */
  lemma {:induction false} RowStartMono(m: nat, i: nat, i': nat)
    requires i <= i' <= m
    ensures RowStart(m, i) + (i' - i) <= RowStart(m, i')
    decreases i' - i
  {
    if i < i' {
      RowStartMono(m, i, i' - 1);
    }
  }

  /** Point `j` of row `i` of the triangle. */
  function TriAt(m: nat, i: nat, j: int): int {
    RowStart(m, i) + j
  }

  /** The index of a point of the triangle determines the point. */
  lemma {:induction false} TriAtInjective(m: nat, i: nat, j: int, i': nat, j': int)
    requires i < m && i' < m && 0 <= j < m - i && 0 <= j' < m - i'
    requires TriAt(m, i, j) == TriAt(m, i', j')
    ensures i == i' && j == j'
  {
    if i < i' {
      RowStartMono(m, i + 1, i');
    } else if i' < i {
      RowStartMono(m, i' + 1, i);
    }
  }

  /** A point of the triangle has an index below `m (m + 1) / 2`. */
  lemma {:induction false} TriAtInRange(m: nat, i: nat, j: int)
    requires i < m && 0 <= j < m - i
    ensures 0 <= TriAt(m, i, j) < RowStart(m, m)
  {
    RowStartMono(m, 0, i);
    RowStartMono(m, i + 1, m);
  }

  /** The `vert1` triangle `(i, j)` as the source builds it,
      `offset + [j, j + 1, j + m - i]`. */
  function UpTri(m: nat, i: nat, j: int): Tri {
    var o := Offset(m, i);
    Tri(o + j, o + j + 1, o + j + m - i)
  }

  /** The `vert2` triangle `(i, j)`, `offset + [j + 1, j + m - i + 1, j + m - i]`. */
  function DownTri(m: nat, i: nat, j: int): Tri {
    var o := Offset(m, i);
    Tri(o + j + 1, o + j + m - i + 1, o + j + m - i)
  }

  /** `vert1` triangle `(i, j)` joins points `j` and `j + 1` of row `i` to point `j` of
      row `i + 1`; `vert2` triangle `(i, j)` joins point `j + 1` of row `i` to points
      `j + 1` and `j` of row `i + 1`. */
  lemma {:induction false} TrianglesOfRows(m: nat, i: nat, j: int)
    requires i < m
    ensures UpTri(m, i, j) == Tri(TriAt(m, i, j), TriAt(m, i, j + 1), TriAt(m, i + 1, j))
    ensures DownTri(m, i, j) == Tri(TriAt(m, i, j + 1), TriAt(m, i + 1, j + 1), TriAt(m, i + 1, j))
  {
    OffsetIsRowStart(m, i);
  }

  /** The rows of `vert1`: row `i < m - 1` has `m - i - 1` triangles. */
  function UpRows(m: nat): (r: seq<seq<Tri>>)
    ensures |r| == Inner(m)
    ensures forall i :: 0 <= i < |r| ==> |r[i]| == m - i - 1
  {
    seq(Inner(m), i requires 0 <= i < Inner(m) => seq(m - i - 1, j requires 0 <= j < m - i - 1 => UpTri(m, i, j)))
  }

  /** The rows of `vert2`: row `i < m - 1` has `m - i - 2` triangles. */
  function DownRows(m: nat): (r: seq<seq<Tri>>)
    ensures |r| == Inner(m)
    ensures forall i :: 0 <= i < |r| ==> |r[i]| == m - i - 2
  {
    seq(Inner(m), i requires 0 <= i < Inner(m) => seq(m - i - 2, j requires 0 <= j < m - i - 2 => DownTri(m, i, j)))
  }

  /** Row `i` of `vert1` starts after `RowStart(m, i) - i` triangles. */
  lemma {:induction false} UpRowsStart(m: nat, i: nat)
    requires i <= Inner(m)
    ensures |Flatten(UpRows(m)[..i])| == RowStart(m, i) - i
  {
    if i > 0 {
      UpRowsStart(m, i - 1);
      FlattenPrefixStep(UpRows(m), i - 1);
    } else {
      assert UpRows(m)[..0] == [];
    }
  }

  /** Row `i` of `vert2` starts after `RowStart(m, i) - 2 i` triangles. */
  lemma {:induction false} DownRowsStart(m: nat, i: nat)
    requires i <= Inner(m)
    ensures |Flatten(DownRows(m)[..i])| == RowStart(m, i) - 2 * i
  {
    if i > 0 {
      DownRowsStart(m, i - 1);
      FlattenPrefixStep(DownRows(m), i - 1);
    } else {
      assert DownRows(m)[..0] == [];
    }
  }

  /** The triangles of the triangular layout, `vert1` then `vert2`, each row by row:
      `m (m - 1) / 2 + (m - 1) (m - 2) / 2 = (m - 1)^2` triangles, each inside the
      `m (m + 1) / 2` points. */
  function TriSplit(m: nat): (r: seq<Tri>)
    requires m >= 1
    ensures 2 * |Flatten(UpRows(m))| == m * (m - 1)
    ensures 2 * |Flatten(DownRows(m))| == (m - 1) * (m - 2)
    ensures |r| == (m - 1) * (m - 1)
    ensures forall c :: 0 <= c < |r| ==> InRange(r[c], RowStart(m, m))
  {
    var up, down := Flatten(UpRows(m)), Flatten(DownRows(m));
    TriSplitCounts(m);
    TriSplitInRange(m);
    up + down
  }

  lemma {:induction false} TriSplitCounts(m: nat)
    requires m >= 1
    ensures 2 * |Flatten(UpRows(m))| == m * (m - 1)
    ensures 2 * |Flatten(DownRows(m))| == (m - 1) * (m - 2)
    ensures |Flatten(UpRows(m))| + |Flatten(DownRows(m))| == (m - 1) * (m - 1)
  {
    UpRowsStart(m, m - 1);
    DownRowsStart(m, m - 1);
    assert UpRows(m)[..m - 1] == UpRows(m);
    assert DownRows(m)[..m - 1] == DownRows(m);
    OffsetIsRowStart(m, m - 1);
    CountsFromRowStart(m, RowStart(m, m - 1), |Flatten(UpRows(m))|, |Flatten(DownRows(m))|);
  }

  /** The arithmetic behind `TriSplitCounts`: with `rs` the start of the last row,
      `rs - (m - 1)` and `rs - 2 (m - 1)` are the two counts. */
  lemma {:induction false} CountsFromRowStart(m: nat, rs: int, up: int, down: int)
    requires m >= 1
    requires 2 * rs == (2 * m - (m - 1) + 1) * (m - 1)
    requires up == rs - (m - 1) && down == rs - 2 * (m - 1)
    ensures 2 * up == m * (m - 1)
    ensures 2 * down == (m - 1) * (m - 2)
    ensures up + down == (m - 1) * (m - 1)
  {
    var n := m - 1;
    assert (2 * m - n + 1) * n == m * n + 2 * n;
    assert m * n == n * n + n;
    assert (m - 1) * (m - 2) == n * n - n;
  }

  lemma {:induction false} TriSplitInRange(m: nat)
    requires m >= 1
    ensures forall c :: 0 <= c < |Flatten(UpRows(m)) + Flatten(DownRows(m))| ==>
              InRange((Flatten(UpRows(m)) + Flatten(DownRows(m)))[c], RowStart(m, m))
  {
    var up, down := Flatten(UpRows(m)), Flatten(DownRows(m));
    forall c | 0 <= c < |up + down|
      ensures InRange((up + down)[c], RowStart(m, m))
    {
      if c < |up| {
        FlattenMember(UpRows(m), c);
        var i, j :| 0 <= i < |UpRows(m)| && 0 <= j < |UpRows(m)[i]| && up[c] == UpRows(m)[i][j];
        TrianglesOfRows(m, i, j);
        TriAtInRange(m, i, j);
        TriAtInRange(m, i, j + 1);
        TriAtInRange(m, i + 1, j);
      } else {
        FlattenMember(DownRows(m), c - |up|);
        var i, j :| 0 <= i < |DownRows(m)| && 0 <= j < |DownRows(m)[i]| && down[c - |up|] == DownRows(m)[i][j];
        TrianglesOfRows(m, i, j);
        TriAtInRange(m, i, j + 1);
        TriAtInRange(m, i + 1, j + 1);
        TriAtInRange(m, i + 1, j);
      }
    }
  }

  /** `vert1` triangle `(i, j)` sits at position `RowStart(m, i) - i + j` of the split. */
  lemma {:induction false} UpTriAt(m: nat, i: nat, j: nat)
    requires i < m - 1 && j < m - i - 1
    ensures 0 <= RowStart(m, i) - i + j < |TriSplit(m)|
    ensures TriSplit(m)[RowStart(m, i) - i + j] == UpTri(m, i, j)
  {
    RowStartMono(m, 0, i);
    UpRowsStart(m, i);
    FlattenAt(UpRows(m), i, j);
  }

  /** `vert2` triangle `(i, j)` sits at position `RowStart(m, i) - 2 i + j` after all of
      `vert1`. */
  lemma {:induction false} DownTriAt(m: nat, i: nat, j: nat)
    requires i < m - 1 && j < m - i - 2
    ensures 0 <= |Flatten(UpRows(m))| + RowStart(m, i) - 2 * i + j < |TriSplit(m)|
    ensures TriSplit(m)[|Flatten(UpRows(m))| + RowStart(m, i) - 2 * i + j] == DownTri(m, i, j)
  {
    RowStartMono(m, 0, i);
    DownRowsStart(m, i);
    FlattenAt(DownRows(m), i, j);
  }

  /** The prefix sums of `s` (numpy's `cumsum`). */
  function CumSum(s: seq<int>): (r: seq<int>)
    ensures |r| == |s|
  {
    seq(|s|, t requires 0 <= t < |s| => Sum(s[..t + 1]))
  }

  function Sum(s: seq<int>): int {
    if |s| == 0 then 0 else Sum(s[..|s| - 1]) + s[|s| - 1]
  }

  /** `arange(m - 1, 0, -1)`: the lengths of rows `1 .. m - 1`. */
  function RightSteps(m: nat): (r: seq<int>)
    ensures |r| == Inner(m)
  {
    seq(Inner(m), s requires 0 <= s < Inner(m) => m - 1 - s)
  }

  /** `arange(m + 1, 2, -1)`. */
  function LeftSteps(m: nat): (r: seq<int>)
    ensures |r| == Inner(m)
  {
    seq(Inner(m), s requires 0 <= s < Inner(m) => m + 1 - s)
  }

  /** The boundary of the triangle, as in `concatenate([arange(m), arange(m - 1, 0,
      -1).cumsum() + m - 1, arange(m + 1, 2, -1).cumsum()[::-1] - m - 1])`: along the
      first row, up the right side to the apex and down the left side. */
  function TriHull(m: nat): (r: seq<int>)
    requires m >= 1
    ensures |r| == 3 * m - 2
  {
    var right := CumSum(RightSteps(m));
    var left := CumSum(LeftSteps(m));
    seq(m, j requires 0 <= j < m => j)
    + seq(m - 1, t requires 0 <= t < m - 1 => right[t] + m - 1)
    + seq(m - 1, t requires 0 <= t < m - 1 => left[m - 2 - t] - m - 1)
  }

  /** The cumulative sums of the right side reach the last point of each row. */
  lemma {:induction false} RightSum(m: nat, t: nat)
    requires t < Inner(m)
    ensures Sum(RightSteps(m)[..t + 1]) + m - 1 == TriAt(m, t + 1, m - 2 - t)
  {
    var s := RightSteps(m);
    assert s[..t + 1][..t] == s[..t];
    if t > 0 {
      RightSum(m, t - 1);
    } else {
      assert s[..1][..0] == [];
      assert Sum(s[..1]) == s[0] == m - 1;
      assert RowStart(m, 1) == m;
    }
  }

  /** The cumulative sums of the left side reach the first point of each row. */
  lemma {:induction false} LeftSum(m: nat, t: nat)
    requires t < Inner(m)
    ensures Sum(LeftSteps(m)[..t + 1]) - m - 1 == TriAt(m, t, 0)
  {
    var s := LeftSteps(m);
    assert s[..t + 1][..t] == s[..t];
    if t > 0 {
      LeftSum(m, t - 1);
    } else {
      assert s[..0] == [];
      assert s[..1] == [s[0]];
    }
  }

  /** Row and point of the point at step `t` of the walk round the triangle. */
  function TriRim(m: nat, t: int): (int, int) {
    if t < m then (0, t)
    else if t < 2 * m - 1 then (t - m + 1, 2 * m - 2 - t)
    else (3 * m - 3 - t, 0)
  }

  /** A point of the triangle on its first row, its right side or its left side. */
  predicate OnTriRim(m: nat, p: (int, int)) {
    0 <= p.0 < m && 0 <= p.1 < m - p.0 && (p.0 == 0 || p.1 == 0 || p.1 == m - 1 - p.0)
  }

  /** The hull runs along the first row: step `j < m` is point `j` of row 0. */
  lemma {:induction false} TriHullOnBase(m: nat, j: nat)
    requires j < m
    ensures TriHull(m)[j] == TriAt(m, 0, j)
  {
  }

  /** Up the right side: step `m - 1 + i` is the last point of row `i`. */
  lemma {:induction false} TriHullOnRight(m: nat, i: nat)
    requires i < m
    ensures TriHull(m)[m - 1 + i] == TriAt(m, i, m - 1 - i)
  {
    if i > 0 {
      RightSum(m, i - 1);
      assert TriHull(m)[m - 1 + i] == CumSum(RightSteps(m))[i - 1] + m - 1;
    }
  }

  /** Down the left side: step `3 m - 3 - i` is the first point of row `i`. */
  lemma {:induction false} TriHullOnLeft(m: nat, i: nat)
    requires i < m
    ensures TriHull(m)[3 * m - 3 - i] == TriAt(m, i, 0)
  {
    if i < m - 1 {
      LeftSum(m, i);
      assert TriHull(m)[3 * m - 3 - i] == CumSum(LeftSteps(m))[i] - m - 1;
    } else {
      TriHullOnRight(m, m - 1);
    }
  }

  /** Step `t` of the triangle's hull is the boundary point `TriRim(m, t)`. */
  lemma {:induction false} TriHullAt(m: nat, t: nat)
    requires m >= 1 && t < 3 * m - 2
    ensures OnTriRim(m, TriRim(m, t))
    ensures TriHull(m)[t] == TriAt(m, TriRim(m, t).0, TriRim(m, t).1)
  {
    if t < m {
      TriHullOnBase(m, t);
    } else if t < 2 * m - 1 {
      TriHullOnRight(m, t - m + 1);
    } else {
      TriHullOnLeft(m, 3 * m - 3 - t);
    }
  }

  /** The triangle's hull starts and ends at point 0. */
  lemma {:induction false} TriHullCloses(m: nat)
    requires m >= 1
    ensures TriHull(m)[0] == 0 && TriHull(m)[3 * m - 3] == 0
  {
    TriHullAt(m, 0);
    TriHullAt(m, 3 * m - 3);
  }

  /** The walk round the triangle visits each of its `3 (m - 1)` boundary points once
      before it returns to 0. */
  lemma {:induction false} TriHullDistinct(m: nat, a: nat, b: nat)
    requires m >= 1 && a < b < 3 * m - 3
    ensures TriHull(m)[a] != TriHull(m)[b]
  {
    TriHullAt(m, a);
    TriHullAt(m, b);
    var p, q := TriRim(m, a), TriRim(m, b);
    if TriAt(m, p.0, p.1) == TriAt(m, q.0, q.1) {
      TriAtInjective(m, p.0, p.1, q.0, q.1);
    }
  }

  /** Every boundary point of the triangle is on the walk. */
  lemma {:induction false} TriHullVisits(m: nat, p: (int, int))
    requires m >= 1 && OnTriRim(m, p)
    ensures exists t :: 0 <= t < 3 * m - 2 && TriHull(m)[t] == TriAt(m, p.0, p.1)
  {
    var t :=
      if p.0 == 0 then p.1
      else if p.1 == m - 1 - p.0 then m - 1 + p.0
      else 3 * m - 3 - p.0;
    TriHullAt(m, t);
  }

  /** Each step of the walk round the triangle runs along a side of one of the `vert1`
      triangles: along the first row by triangles `(0, j)`, down the right side by
      triangles `(i, m - 2 - i)` and down the left side by triangles `(i, 0)`. */
  lemma {:induction false} TriHullFollowsEdges(m: nat, t: nat)
    requires m >= 2 && t < 3 * m - 3
    ensures exists q :: 0 <= q < |TriSplit(m)| && HasEdge(TriSplit(m)[q], TriHull(m)[t], TriHull(m)[t + 1])
  {
    if t < m - 1 {
      TriHullOnBase(m, t);
      TriHullOnBase(m, t + 1);
      TriSplitHasSide(m, 0, t, TriAt(m, 0, t), TriAt(m, 0, t + 1));
    } else if t < 2 * m - 2 {
      var i := t - m + 1;
      TriHullOnRight(m, i);
      TriHullOnRight(m, i + 1);
      TriSplitHasSide(m, i, m - 2 - i, TriAt(m, i, m - 1 - i), TriAt(m, i + 1, m - 2 - i));
    } else {
      var i := 3 * m - 4 - t;
      TriHullOnLeft(m, i + 1);
      TriHullOnLeft(m, i);
      TriSplitHasSide(m, i, 0, TriAt(m, i + 1, 0), TriAt(m, i, 0));
    }
  }

  /** Two corners of `vert1` triangle `(i, j)` are joined by a side of a triangle of the
      split. */
  lemma {:induction false} TriSplitHasSide(m: nat, i: nat, j: nat, u: int, v: int)
    requires i < m - 1 && j < m - i - 1
    requires u != v
    requires u == TriAt(m, i, j) || u == TriAt(m, i, j + 1) || u == TriAt(m, i + 1, j)
    requires v == TriAt(m, i, j) || v == TriAt(m, i, j + 1) || v == TriAt(m, i + 1, j)
    ensures exists q :: 0 <= q < |TriSplit(m)| && HasEdge(TriSplit(m)[q], u, v)
  {
    TrianglesOfRows(m, i, j);
    TriSplitHasEdge(m, i, j, u, v);
  }

  /** The three sides of `vert1` triangle `(i, j)`. */
  lemma {:induction false} UpSides(m: nat, i: nat, j: nat)
    requires i < m - 1 && j < m - i - 1
    ensures HasEdge(UpTri(m, i, j), TriAt(m, i, j), TriAt(m, i, j + 1))
    ensures HasEdge(UpTri(m, i, j), TriAt(m, i, j + 1), TriAt(m, i + 1, j))
    ensures HasEdge(UpTri(m, i, j), TriAt(m, i + 1, j), TriAt(m, i, j))
  {
    TrianglesOfRows(m, i, j);
  }

  /** A side of a `vert1` triangle is a side of a triangle of the split. */
  lemma {:induction false} TriSplitHasEdge(m: nat, i: nat, j: nat, u: int, v: int)
    requires i < m - 1 && j < m - i - 1
    requires HasEdge(UpTri(m, i, j), u, v)
    ensures exists q :: 0 <= q < |TriSplit(m)| && HasEdge(TriSplit(m)[q], u, v)
  {
    UpTriAt(m, i, j);
    assert HasEdge(TriSplit(m)[RowStart(m, i) - i + j], u, v);
  }

  /** The triangular layout with `m` rows. */
  function TriLayout(m: nat): (r: Layout)
    requires m >= 1
    ensures |r.tris| == (m - 1) * (m - 1)
    ensures forall c :: 0 <= c < |r.tris| ==> InRange(r.tris[c], RowStart(m, m))
    ensures |r.hull| == 3 * m - 2 && r.hull[0] == 0 == r.hull[|r.hull| - 1]
    ensures forall t :: 0 <= t < |r.hull| ==> 0 <= r.hull[t] < RowStart(m, m)
  {
    var r := Layout(TriSplit(m), TriHull(m));
    TriHullCloses(m);
    forall t | 0 <= t < |r.hull|
      ensures 0 <= r.hull[t] < RowStart(m, m)
    {
      TriHullAt(m, t);
      TriAtInRange(m, TriRim(m, t).0, TriRim(m, t).1);
    }
    r
  }

  // ---------------------------------------------------------------------------
  // Choosing the layout
  // ---------------------------------------------------------------------------

  /** The layout of a patch of `np >= 1` points: the square one when `np` is a perfect
      square (tested first), else the triangular one when `np` is a triangular number,
      else none ('cannot match points to a bezier scheme'). Either layout keeps every
      index below `np` and closes its hull. */
  function BezierLayout(np: nat): (r: Option<Layout>)
    requires np >= 1
    ensures r.Some? <==> IsSquare(np) || IsTriangular(np)
    ensures forall k :: Sq(k) == np ==> r == Some(SquareLayout(k))
    ensures !IsSquare(np) ==> forall m :: Pronic(m) == 2 * np ==> r == Some(TriLayout(m))
    ensures r.Some? ==> forall c :: 0 <= c < |r.value.tris| ==> InRange(r.value.tris[c], np)
    ensures r.Some? ==> |r.value.hull| >= 1 && r.value.hull[0] == r.value.hull[|r.value.hull| - 1]
    ensures r.Some? ==> forall t :: 0 <= t < |r.value.hull| ==> 0 <= r.value.hull[t] < np
  {
    SquareTest(np);
    TriangleTest(np);
    var k := QuadSide(np);
    if Sq(k) == np then
      SquareSides(np, k);
      Some(SquareLayout(k))
    else
      var m := TriSide(np);
      if Pronic(m) == 2 * np then
        TriangleRows(np, m);
        Some(TriLayout(m))
      else
        None
  }

  lemma {:induction false} SquareSides(np: nat, k: nat)
    requires np >= 1 && Sq(k) == np
    ensures k >= 1
    ensures forall k' :: Sq(k') == np ==> k' == k
  {
    forall k' | Sq(k') == np
      ensures k' == k
    {
      SquareSide(k);
      SquareSide(k');
    }
  }

  lemma {:induction false} TriangleRows(np: nat, m: nat)
    requires np >= 1 && Pronic(m) == 2 * np
    ensures m >= 1 && RowStart(m, m) == np
    ensures forall m' :: Pronic(m') == 2 * np ==> m' == m
  {
    OffsetIsRowStart(m, m);
    forall m' | Pronic(m') == 2 * np
      ensures m' == m
    {
      TriangleSide(m, np);
      TriangleSide(m', np);
    }
  }

  /** 36 is square and triangular and gets the 6 by 6 square; 5 and 7 fit neither
      scheme; 6 gets the triangle of 3 rows. */
  lemma {:induction false} LayoutExamples()
    ensures BezierLayout(36) == Some(SquareLayout(6))
    ensures BezierLayout(5).None? && BezierLayout(7).None?
    ensures BezierLayout(6) == Some(TriLayout(3))
  {
    assert Sq(6) == 36;
    assert Pronic(3) == 12;
    SixIsNotSquare();
    NotSquareOrTriangular(5, 2, 2);
    NotSquareOrTriangular(7, 2, 3);
  }

  lemma {:induction false} SixIsNotSquare()
    ensures !IsSquare(6)
  {
    forall k: nat
      ensures Sq(k) != 6
    {
      if k <= 2 {
      } else {
        Mono(3, k);
      }
    }
  }

  /** `n` lies strictly between two consecutive squares and strictly between two
      consecutive triangular numbers. */
  lemma {:induction false} NotSquareOrTriangular(n: nat, k: nat, m: nat)
    requires Sq(k) < n < Sq(k + 1)
    requires Pronic(m) < 2 * n < Pronic(m + 1)
    ensures !IsSquare(n) && !IsTriangular(n)
  {
    forall k': nat
      ensures Sq(k') != n
    {
      if k' <= k {
        Mono(k', k);
      } else {
        Mono(k + 1, k');
      }
    }
    forall m': nat
      ensures Pronic(m') != 2 * n
    {
      if m' <= m {
        Mono(m', m);
      } else {
        Mono(m + 1, m');
      }
    }
  }
}
