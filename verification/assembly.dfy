/** Putting the element patches of `PyPlot.mesh` (nutils/plot.py) together: the points of
    all patches form one array, each patch's triangles are renumbered by the number of
    points before the patch (`vertices + npoints`), the colors follow the points and the
    boundary of each patch becomes one line of the edge collection. The axis limits are
    the extremes of the coordinates, NaN as soon as one coordinate is NaN (numpy's `min`
    and `max`). */
module Assembly {
  import opened Results
  import opened Split
  import opened Segmenter
  import opened Grid

  /** What one element patch contributes: its points, its triangles numbered within the
      patch, its colors (empty without colors) and its boundary as a line of points. */
  datatype Patch = Patch(points: seq<Point>, tris: seq<Tri>, colors: seq<Value>, boundary: seq<Point>)

  /** A line that ends where it starts. */
  predicate Closed<T(==)>(line: seq<T>) {
    |line| >= 1 && line[0] == line[|line| - 1]
  }

  /** The lists `P`, `N`, `C`, `E` of the patch loop, concatenated. */
  datatype Assembled = Assembled(xy: seq<Point>, tris: seq<Tri>, colors: seq<Value>, edges: seq<seq<Point>>)

  /** A triangle renumbered by `k`. */
  function ShiftTri(t: Tri, k: int): Tri {
    Tri(t.a + k, t.b + k, t.c + k)
  }

  /** Every triangle renumbered by `k` (`vertices + npoints`). */
  function Shift(ts: seq<Tri>, k: int): (r: seq<Tri>)
    ensures |r| == |ts|
  {
    seq(|ts|, c requires 0 <= c < |ts| => ShiftTri(ts[c], k))
  }

  /** The number of points in all patches. */
  function Size(ps: seq<Patch>): nat {
    if |ps| == 0 then 0 else Size(ps[..|ps| - 1]) + |ps[|ps| - 1].points|
  }

  /** The number of triangles in all patches. */
  function TriCount(ps: seq<Patch>): nat {
    if |ps| == 0 then 0 else TriCount(ps[..|ps| - 1]) + |ps[|ps| - 1].tris|
  }

  /** The points of each patch. */
  function PointLists(ps: seq<Patch>): (r: seq<seq<Point>>)
    ensures |r| == |ps|
  {
    seq(|ps|, i requires 0 <= i < |ps| => ps[i].points)
  }

  /** The colors of each patch. */
  function ColorLists(ps: seq<Patch>): (r: seq<seq<Value>>)
    ensures |r| == |ps|
  {
    seq(|ps|, i requires 0 <= i < |ps| => ps[i].colors)
  }

  /** The patch loop's accumulation, patch by patch, with `npoints` the number of points
      gathered so far: one boundary line per patch, in patch order, and as many points and
      triangles as all patches hold together. */
  function Gather(ps: seq<Patch>): (r: Assembled)
    ensures |r.xy| == Size(ps) && |r.tris| == TriCount(ps)
    ensures |r.edges| == |ps| && forall i :: 0 <= i < |ps| ==> r.edges[i] == ps[i].boundary
  {
    if |ps| == 0 then Assembled([], [], [], [])
    else
      var a := Gather(ps[..|ps| - 1]);
      var p := ps[|ps| - 1];
      Assembled(a.xy + p.points, a.tris + Shift(p.tris, |a.xy|), a.colors + p.colors, a.edges + [p.boundary])
  }

  /** The gathered points and colors are those of the patches laid end to end. */
  lemma {:induction false} GatherKeepsPoints(ps: seq<Patch>)
    ensures Gather(ps).xy == Flatten(PointLists(ps))
    ensures Gather(ps).colors == Flatten(ColorLists(ps))
  {
    if |ps| > 0 {
      var n := |ps| - 1;
      GatherKeepsPoints(ps[..n]);
      assert PointLists(ps)[..n] == PointLists(ps[..n]);
      assert ColorLists(ps)[..n] == ColorLists(ps[..n]);
    }
  }

  /** Triangle `c` of patch `i` sits after the triangles of the earlier patches,
      renumbered by the number of points of the earlier patches. */
  lemma {:induction false} GatherPlacesTriangle(ps: seq<Patch>, i: nat, c: nat)
    requires i < |ps| && c < |ps[i].tris|
    ensures TriCount(ps[..i]) + c < |Gather(ps).tris|
    ensures Gather(ps).tris[TriCount(ps[..i]) + c] == ShiftTri(ps[i].tris[c], Size(ps[..i]))
    decreases |ps|
  {
    var n := |ps| - 1;
    assert ps[..n + 1] == ps;
    var a := Gather(ps[..n]);
    assert Gather(ps).tris == a.tris + Shift(ps[n].tris, |a.xy|);
    if i < n {
      GatherPlacesTriangle(ps[..n], i, c);
      assert ps[..n][..i] == ps[..i];
      assert TriCount(ps[..i]) + c < |a.tris|;
    } else {
      assert |a.tris| == TriCount(ps[..i]) && |a.xy| == Size(ps[..i]);
    }
  }

  /** Point `j` of patch `i` sits after the points of the earlier patches. */
  lemma {:induction false} GatherPlacesPoint(ps: seq<Patch>, i: nat, j: nat)
    requires i < |ps| && j < |ps[i].points|
    ensures Size(ps[..i]) + j < |Gather(ps).xy|
    ensures Gather(ps).xy[Size(ps[..i]) + j] == ps[i].points[j]
    decreases |ps|
  {
    var n := |ps| - 1;
    assert ps[..n + 1] == ps;
    var a := Gather(ps[..n]);
    assert Gather(ps).xy == a.xy + ps[n].points;
    if i < n {
      GatherPlacesPoint(ps[..n], i, j);
      assert ps[..n][..i] == ps[..i];
      assert Size(ps[..i]) + j < |a.xy|;
    } else {
      assert |a.xy| == Size(ps[..i]);
    }
  }

  /** The renumbering keeps the geometry: a triangle of patch `i` that names points of
      its patch names, in the gathered array, the very same points. */
  lemma {:induction false} GatherKeepsTriangle(ps: seq<Patch>, i: nat, c: nat)
    requires i < |ps| && c < |ps[i].tris| && InRange(ps[i].tris[c], |ps[i].points|)
    ensures TriCount(ps[..i]) + c < |Gather(ps).tris|
    ensures var t, u := ps[i].tris[c], Gather(ps).tris[TriCount(ps[..i]) + c];
      && InRange(u, |Gather(ps).xy|)
      && Gather(ps).xy[u.a] == ps[i].points[t.a]
      && Gather(ps).xy[u.b] == ps[i].points[t.b]
      && Gather(ps).xy[u.c] == ps[i].points[t.c]
  {
    GatherPlacesTriangle(ps, i, c);
    var t, k := ps[i].tris[c], Size(ps[..i]);
    var g := Gather(ps);
    var u := g.tris[TriCount(ps[..i]) + c];
    assert u.a == k + t.a && u.b == k + t.b && u.c == k + t.c;
    GatherPlacesPoint(ps, i, t.a);
    GatherPlacesPoint(ps, i, t.b);
    GatherPlacesPoint(ps, i, t.c);
  }

  /** Every gathered triangle is a renumbered triangle of some patch. */
  lemma {:induction false} GatherTriangleOrigin(ps: seq<Patch>, q: nat)
    requires q < |Gather(ps).tris|
    ensures exists i, c :: 0 <= i < |ps| && 0 <= c < |ps[i].tris| &&
              Gather(ps).tris[q] == ShiftTri(ps[i].tris[c], Size(ps[..i]))
    decreases |ps|
  {
    var n := |ps| - 1;
    var a := Gather(ps[..n]);
    assert ps[..n + 1] == ps;
    if q < |a.tris| {
      GatherTriangleOrigin(ps[..n], q);
      var i, c :| 0 <= i < n && 0 <= c < |ps[..n][i].tris| &&
        a.tris[q] == ShiftTri(ps[..n][i].tris[c], Size(ps[..n][..i]));
      assert ps[..n][..i] == ps[..i];
      assert Gather(ps).tris[q] == ShiftTri(ps[i].tris[c], Size(ps[..i]));
    } else {
      assert Gather(ps).tris[q] == ShiftTri(ps[n].tris[q - |a.tris|], Size(ps[..n]));
    }
  }

  /** When every patch's triangles stay inside the patch, every gathered triangle stays
      inside the gathered points. */
  lemma {:induction false} GatherInRange(ps: seq<Patch>)
    requires forall i, c :: 0 <= i < |ps| && 0 <= c < |ps[i].tris| ==> InRange(ps[i].tris[c], |ps[i].points|)
    ensures forall q :: 0 <= q < |Gather(ps).tris| ==> InRange(Gather(ps).tris[q], |Gather(ps).xy|)
  {
    forall q | 0 <= q < |Gather(ps).tris|
      ensures InRange(Gather(ps).tris[q], |Gather(ps).xy|)
    {
      GatherTriangleOrigin(ps, q);
      var i, c :| 0 <= i < |ps| && 0 <= c < |ps[i].tris| &&
        Gather(ps).tris[q] == ShiftTri(ps[i].tris[c], Size(ps[..i]));
      SizeOfPrefix(ps, i);
    }
  }

  /** The points before patch `i` and those of patch `i` fit in the whole. */
  lemma {:induction false} SizeOfPrefix(ps: seq<Patch>, i: nat)
    requires i < |ps|
    ensures Size(ps[..i]) + |ps[i].points| <= Size(ps)
    decreases |ps|
  {
    var n := |ps| - 1;
    assert ps[..n + 1] == ps;
    if i < n {
      SizeOfPrefix(ps[..n], i);
      assert ps[..n][..i] == ps[..i];
    }
  }

  // ---------------------------------------------------------------------------
  // Axis limits
  // ---------------------------------------------------------------------------

  /** The limits of the two axes, `xlim(xmin, xmax)` and `ylim(ymin, ymax)`. */
  datatype Box = Box(xmin: Value, xmax: Value, ymin: Value, ymax: Value)

  /** numpy's `min` of a non-empty list: NaN as soon as one entry is NaN, otherwise the
      least entry. */
  function Least(vs: seq<Value>): (r: Value)
    requires |vs| > 0
    ensures r.NaN? <==> exists j :: 0 <= j < |vs| && vs[j].NaN?
    ensures r.Num? ==> forall j :: 0 <= j < |vs| ==> vs[j].Num? && r.v <= vs[j].v
    ensures exists j :: 0 <= j < |vs| && vs[j] == r
  {
    if |vs| == 1 then vs[0]
    else
      var init, x := vs[..|vs| - 1], vs[|vs| - 1];
      var m := Least(init);
      assert forall j :: 0 <= j < |init| ==> init[j] == vs[j];
      if m.NaN? || x.NaN? then NaN
      else if x.v < m.v then x
      else m
  }

  /** numpy's `max` of a non-empty list: NaN as soon as one entry is NaN, otherwise the
      greatest entry. */
  function Greatest(vs: seq<Value>): (r: Value)
    requires |vs| > 0
    ensures r.NaN? <==> exists j :: 0 <= j < |vs| && vs[j].NaN?
    ensures r.Num? ==> forall j :: 0 <= j < |vs| ==> vs[j].Num? && vs[j].v <= r.v
    ensures exists j :: 0 <= j < |vs| && vs[j] == r
  {
    if |vs| == 1 then vs[0]
    else
      var init, x := vs[..|vs| - 1], vs[|vs| - 1];
      var m := Greatest(init);
      assert forall j :: 0 <= j < |init| ==> init[j] == vs[j];
      if m.NaN? || x.NaN? then NaN
      else if m.v < x.v then x
      else m
  }

  function Xs(xy: seq<Point>): (r: seq<Value>)
    ensures |r| == |xy|
  {
    seq(|xy|, i requires 0 <= i < |xy| => xy[i].x)
  }

  function Ys(xy: seq<Point>): (r: seq<Value>)
    ensures |r| == |xy|
  {
    seq(|xy|, i requires 0 <= i < |xy| => xy[i].y)
  }

  /** The axis limits of a non-empty point array (`min(xy, axis=1)` and `max(xy, axis=1)`);
      `None` for an empty array, on which numpy's `min` raises. Each limit is NaN exactly
      when a coordinate on its axis is NaN, and otherwise is the coordinate of some point;
      every point lies within the limits. */
  function Bounds(xy: seq<Point>): (r: Option<Box>)
    ensures r.Some? <==> |xy| > 0
    ensures r.Some? ==> forall i :: 0 <= i < |xy| ==> Within(xy[i], r.value)
    ensures r.Some? ==> (r.value.xmin.NaN? <==> exists i :: 0 <= i < |xy| && xy[i].x.NaN?)
    ensures r.Some? ==> (r.value.xmax.NaN? <==> exists i :: 0 <= i < |xy| && xy[i].x.NaN?)
    ensures r.Some? ==> (r.value.ymin.NaN? <==> exists i :: 0 <= i < |xy| && xy[i].y.NaN?)
    ensures r.Some? ==> (r.value.ymax.NaN? <==> exists i :: 0 <= i < |xy| && xy[i].y.NaN?)
    ensures r.Some? && r.value.xmin.Num? ==> exists i :: 0 <= i < |xy| && xy[i].x == r.value.xmin
    ensures r.Some? && r.value.xmax.Num? ==> exists i :: 0 <= i < |xy| && xy[i].x == r.value.xmax
    ensures r.Some? && r.value.ymin.Num? ==> exists i :: 0 <= i < |xy| && xy[i].y == r.value.ymin
    ensures r.Some? && r.value.ymax.Num? ==> exists i :: 0 <= i < |xy| && xy[i].y == r.value.ymax
  {
    if |xy| == 0 then None
    else
      var b := Box(Least(Xs(xy)), Greatest(Xs(xy)), Least(Ys(xy)), Greatest(Ys(xy)));
      assert forall i :: 0 <= i < |xy| ==> Xs(xy)[i] == xy[i].x && Ys(xy)[i] == xy[i].y;
      Some(b)
  }

  /** `p` lies inside the box, where a NaN limit (from a NaN coordinate) bounds nothing. */
  predicate Within(p: Point, b: Box) {
    && (b.xmin.Num? && b.xmax.Num? ==> p.x.Num? && b.xmin.v <= p.x.v <= b.xmax.v)
    && (b.ymin.Num? && b.ymax.Num? ==> p.y.Num? && b.ymin.v <= p.y.v <= b.ymax.v)
  }
}
