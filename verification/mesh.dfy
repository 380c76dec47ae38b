/** `PyPlot.mesh` (nutils/plot.py) up to the drawing calls: the checks on the arguments,
    the gridded branch, the element branch (cut at blank points, triangulate each patch
    by Delaunay or by a bezier layout, walk its boundary, gather the patches), and the
    axis limits. The triangulation of scipy is a parameter: for a list of points it
    reports triangles and convex-hull edges, or fails. */
module Mesh {
  import opened Results
  import opened Split
  import opened Segmenter
  import opened Roots
  import opened Grid
  import opened Bezier
  import opened Hull
  import opened Assembly

  /** The `triangulate` argument: 'delaunay', 'bezier', or any other name. */
  datatype Method = Delaunay | BezierScheme | Other(name: string)

  /** A method as `mesh` reads it: an `Other` name is neither of the two it knows. */
  type Scheme = m: Method | m.Other? ==> m.name != "delaunay" && m.name != "bezier" witness Delaunay

  /** The method a `triangulate` string names: the two known names select their schemes,
      and every other string is kept as the name of an unknown method. */
  function MethodOf(s: string): (r: Scheme)
    ensures r == Delaunay <==> s == "delaunay"
    ensures r == BezierScheme <==> s == "bezier"
    ensures r.Other? <==> s != "delaunay" && s != "bezier"
    ensures r.Other? ==> r.name == s
  {
    if s == "delaunay" then Delaunay else if s == "bezier" then BezierScheme else Other(s)
  }

  /** What the Delaunay triangulation of one patch reports: its triangles (`vertices`) and
      the edges of its convex hull (`convex_hull`). */
  datatype Delaunayed = Delaunayed(tris: seq<Tri>, hull: seq<Edge>)

  /** The triangulation of scipy, as a parameter; `None` when it fails. */
  type Triangulator = seq<Point> -> Option<Delaunayed>

  /** The `points` argument: `npoints x 2` (one element patch after another, separated by
      blank points), `nx x ny x 2` (a structured grid, flattened row by row), or an array
      of some other number of axes holding `count` points. */
  datatype Points = Flat(pts: seq<Point>) | Gridded(nx: nat, ny: nat, cells: seq<Point>) | OtherRank(count: nat)

  /** Why `mesh` fails, in the order the checks are made. */
  datatype MeshError =
    | ColorShape          // `points.shape[:-1] == colors.shape` fails
    | NoColors            // gridded points without colors
    | ColorAtBlank        // a blank point whose color is not NaN
    | DelaunayFailed      // scipy could not triangulate a patch
    | HullFailed(e: HullError)
    | HullOutOfRange      // a hull index outside the patch (`epoints[hull]`)
    | NoBezierScheme      // 'cannot match points to a bezier scheme'
    | UnknownMethod(name: string)
    | NoPatches           // no element patch: `concatenate` of an empty list
    | BadRank             // 'invalid points shape'
    | NoTriangles         // `max` of an empty triangle array, in the `TriMesh` constructor
    | EmptyBounds         // `min` of an empty coordinate array
    | UnboundLineCollection

  /** What `mesh` hands to the drawing calls: the points, the triangles numbering them,
      the colors, the boundary lines drawn when there are any and the edge color is not
      'none', and the axis limits when `setxylim`. */
  datatype Drawn = Drawn(xy: seq<Point>, tris: seq<Tri>, data: Option<seq<Value>>,
                         lines: Option<seq<seq<Point>>>, box: Option<Box>)

  /** The number of points the array holds (`points.shape[:-1]` as a count). */
  function Count(points: Points): nat {
    match points
    case Flat(pts) => |pts|
    case Gridded(nx, ny, cells) => |cells|
    case OtherRank(count) => count
  }

  /** A gridded array holds `nx * ny` points: numpy arrays are rectangular. */
  predicate Shaped(points: Points) {
    points.Gridded? ==> |points.cells| == points.nx * points.ny
  }

  /** `epoints[hull]`: the points along the boundary; a closed walk gives a closed line. */
  function Pick(pts: seq<Point>, idx: seq<int>): (r: seq<Point>)
    requires forall t :: 0 <= t < |idx| ==> 0 <= idx[t] < |pts|
    ensures |r| == |idx| && forall t :: 0 <= t < |idx| ==> r[t] == pts[idx[t]]
    ensures Closed(idx) ==> Closed(r)
  {
    seq(|idx|, t requires 0 <= t < |idx| => pts[idx[t]])
  }

  /** The errors a single patch can raise. */
  predicate PatchFailure(e: MeshError) {
    e.DelaunayFailed? || e.HullFailed? || e.HullOutOfRange? || e.NoBezierScheme? || e.UnknownMethod?
  }

  /** The patch of the points `pts` (with colors `cols`), triangulated by `scheme`; any
      scheme but Delaunay and bezier fails. */
  function MakePatch(pts: seq<Point>, cols: seq<Value>, scheme: Scheme, tri: Triangulator): (r: Result<Patch, MeshError>)
    requires |pts| >= 1
    ensures r.Ok? ==> r.value.points == pts && r.value.colors == cols
    ensures r.Ok? ==> Closed(r.value.boundary)
    ensures scheme.Other? ==> r == Err(UnknownMethod(scheme.name))
    ensures r.Err? && r.error.UnknownMethod? ==> scheme.Other?
    ensures r.Err? ==> PatchFailure(r.error)
    ensures r.Ok? && scheme.BezierScheme? ==> forall c :: 0 <= c < |r.value.tris| ==> InRange(r.value.tris[c], |pts|)
  {
    match scheme
    case Other(name) => Err(UnknownMethod(name))
    case BezierScheme() => BezierPatch(pts, cols)
    case Delaunay() => DelaunayPatch(pts, cols, tri(pts))
  }

  /** A patch laid out by its bezier scheme: it fails exactly when its size is neither a
      square nor a triangular number, and otherwise its triangles stay inside the patch
      and its boundary is closed. */
  function BezierPatch(pts: seq<Point>, cols: seq<Value>): (r: Result<Patch, MeshError>)
    requires |pts| >= 1
    ensures r.Ok? <==> IsSquare(|pts|) || IsTriangular(|pts|)
    ensures r.Err? ==> r.error == NoBezierScheme
    ensures r.Ok? ==> r.value.points == pts && r.value.colors == cols
    ensures r.Ok? ==> forall c :: 0 <= c < |r.value.tris| ==> InRange(r.value.tris[c], |pts|)
    ensures r.Ok? ==> Closed(r.value.boundary)
  {
    var layout := BezierLayout(|pts|);
    if layout.None? then Err(NoBezierScheme) else Ok(LaidOut(pts, cols, layout.value))
  }

  /** The patch of `pts` laid out by `l`: its boundary is the points along the hull. */
  function LaidOut(pts: seq<Point>, cols: seq<Value>, l: Layout): (r: Patch)
    requires |l.hull| >= 1 && l.hull[0] == l.hull[|l.hull| - 1]
    requires forall t :: 0 <= t < |l.hull| ==> 0 <= l.hull[t] < |pts|
    ensures r.points == pts && r.colors == cols && r.tris == l.tris
    ensures |r.boundary| == |l.hull| && forall t :: 0 <= t < |l.hull| ==> r.boundary[t] == pts[l.hull[t]]
    ensures Closed(r.boundary)
  {
    assert Closed(l.hull);
    Patch(pts, l.tris, cols, Pick(pts, l.hull))
  }

  /** A patch triangulated by scipy (`d`, `None` when scipy fails): its boundary is the
      patch's points along the hull walk, which must stay inside the patch. It fails when
      scipy fails, when the walk fails or when the walk leaves the patch. */
  function DelaunayPatch(pts: seq<Point>, cols: seq<Value>, d: Option<Delaunayed>): (r: Result<Patch, MeshError>)
    ensures d.None? ==> r == Err(DelaunayFailed)
    ensures d.Some? && HullWalk(d.value.hull).Err? ==> r == Err(HullFailed(HullWalk(d.value.hull).error))
    ensures r.Ok? ==> d.Some? && HullWalk(d.value.hull).Ok?
    ensures r.Ok? ==> r.value.points == pts && r.value.colors == cols && r.value.tris == d.value.tris
    ensures r.Ok? ==> |r.value.boundary| == |d.value.hull| + 1
    ensures r.Ok? ==> forall t :: 0 <= t < |r.value.boundary| ==> 0 <= HullWalk(d.value.hull).value[t] < |pts|
    ensures r.Ok? ==> forall t :: 0 <= t < |r.value.boundary| ==> r.value.boundary[t] == pts[HullWalk(d.value.hull).value[t]]
    ensures r.Ok? ==> Closed(r.value.boundary)
  {
    if d.None? then Err(DelaunayFailed)
    else
      var h := HullWalk(d.value.hull);
      if h.Err? then Err(HullFailed(h.error))
      else if exists t :: 0 <= t < |h.value| && !(0 <= h.value[t] < |pts|) then Err(HullOutOfRange)
      else Ok(Patch(pts, d.value.tris, cols, Pick(pts, h.value)))
  }

  /** The colors of the rows of `span`, or none without colors. */
  function ColorsOf(colors: Option<seq<Value>>, span: Span): seq<Value>
    requires colors.Some? ==> span.lo <= span.hi <= |colors.value|
  {
    if colors.Some? then colors.value[span.lo .. span.hi] else []
  }

  /** Spans of rows inside an array of `n` rows, each non-empty. */
  predicate Inside(spans: seq<Span>, n: nat) {
    forall k :: 0 <= k < |spans| ==> spans[k].lo < spans[k].hi <= n
  }

  /** The patch loop: one patch per span, in order, stopping at the first patch that
      fails. It succeeds exactly when every patch does, and then holds those patches; it
      fails with the error of the first patch that fails. */
  function Patches(pts: seq<Point>, colors: Option<seq<Value>>, spans: seq<Span>, scheme: Scheme, tri: Triangulator)
    : (r: Result<seq<Patch>, MeshError>)
    requires Inside(spans, |pts|) && (colors.Some? ==> |colors.value| == |pts|)
    ensures r.Ok? ==> |r.value| == |spans|
    ensures r.Ok? ==> forall k :: 0 <= k < |spans| ==> PatchAt(pts, colors, spans, scheme, tri, k) == Ok(r.value[k])
    ensures r.Err? ==> exists k :: FirstFailure(pts, colors, spans, scheme, tri, k, r.error)
  {
    var rs := seq(|spans|, k requires 0 <= k < |spans| => PatchAt(pts, colors, spans, scheme, tri, k));
    var r := Collect(rs);
    if r.Err? then
      FirstErrorIsFirstFailure(pts, colors, spans, scheme, tri, rs, r.error);
      r
    else
      assert forall k :: 0 <= k < |spans| ==> rs[k] == PatchAt(pts, colors, spans, scheme, tri, k);
      r
  }

  /** The first failing result of the loop is the first failing patch. */
  lemma {:induction false} FirstErrorIsFirstFailure(pts: seq<Point>, colors: Option<seq<Value>>, spans: seq<Span>,
                                                    scheme: Scheme, tri: Triangulator, rs: seq<Result<Patch, MeshError>>, e: MeshError)
    requires Inside(spans, |pts|) && (colors.Some? ==> |colors.value| == |pts|)
    requires |rs| == |spans| && forall k :: 0 <= k < |rs| ==> rs[k] == PatchAt(pts, colors, spans, scheme, tri, k)
    requires exists k :: 0 <= k < |rs| && rs[k] == Err(e) && forall j :: 0 <= j < k ==> rs[j].Ok?
    ensures exists k :: FirstFailure(pts, colors, spans, scheme, tri, k, e)
  {
    var k :| 0 <= k < |rs| && rs[k] == Err(e) && forall j :: 0 <= j < k ==> rs[j].Ok?;
    assert FirstFailure(pts, colors, spans, scheme, tri, k, e);
  }

  /** The patch of span `k`. */
  function PatchAt(pts: seq<Point>, colors: Option<seq<Value>>, spans: seq<Span>, scheme: Scheme, tri: Triangulator, k: int)
    : Result<Patch, MeshError>
    requires Inside(spans, |pts|) && (colors.Some? ==> |colors.value| == |pts|) && 0 <= k < |spans|
  {
    MakePatch(pts[spans[k].lo .. spans[k].hi], ColorsOf(colors, spans[k]), scheme, tri)
  }

  /** The patch of span `k` fails with `e` and every earlier patch succeeds. */
  ghost predicate FirstFailure(pts: seq<Point>, colors: Option<seq<Value>>, spans: seq<Span>, scheme: Scheme,
                               tri: Triangulator, k: int, e: MeshError)
    requires Inside(spans, |pts|) && (colors.Some? ==> |colors.value| == |pts|)
  {
    && 0 <= k < |spans| && PatchAt(pts, colors, spans, scheme, tri, k) == Err(e)
    && forall j :: 0 <= j < k ==> PatchAt(pts, colors, spans, scheme, tri, j).Ok?
  }

  /** The facts every patch of a successful loop keeps: its points and colors are those of
      its span, its boundary is closed, and a bezier layout numbers only its own points. */
  lemma {:induction false} PatchesHold(pts: seq<Point>, colors: Option<seq<Value>>, spans: seq<Span>, scheme: Scheme,
                    tri: Triangulator, ps: seq<Patch>)
    requires Inside(spans, |pts|) && (colors.Some? ==> |colors.value| == |pts|)
    requires |ps| == |spans|
    requires forall k :: 0 <= k < |spans| ==> PatchAt(pts, colors, spans, scheme, tri, k) == Ok(ps[k])
    ensures forall k :: 0 <= k < |ps| ==> ps[k].points == pts[spans[k].lo .. spans[k].hi]
    ensures colors.Some? ==> forall k :: 0 <= k < |ps| ==> ps[k].colors == colors.value[spans[k].lo .. spans[k].hi]
    ensures forall k :: 0 <= k < |ps| ==> Closed(ps[k].boundary)
    ensures scheme.BezierScheme? ==>
              forall k, c :: 0 <= k < |ps| && 0 <= c < |ps[k].tris| ==> InRange(ps[k].tris[c], |ps[k].points|)
  {
    forall k | 0 <= k < |ps|
      ensures ps[k].points == pts[spans[k].lo .. spans[k].hi]
      ensures colors.Some? ==> ps[k].colors == colors.value[spans[k].lo .. spans[k].hi]
      ensures Closed(ps[k].boundary)
      ensures scheme.BezierScheme? ==> forall c :: 0 <= c < |ps[k].tris| ==> InRange(ps[k].tris[c], |ps[k].points|)
    {
      assert PatchAt(pts, colors, spans, scheme, tri, k) == Ok(ps[k]);
    }
  }

  /** A failing loop fails with an error of a single patch. */
  lemma {:induction false} PatchesFailLikeAPatch(pts: seq<Point>, colors: Option<seq<Value>>, spans: seq<Span>, scheme: Scheme,
                              tri: Triangulator, e: MeshError)
    requires Inside(spans, |pts|) && (colors.Some? ==> |colors.value| == |pts|)
    requires exists k :: FirstFailure(pts, colors, spans, scheme, tri, k, e)
    ensures PatchFailure(e)
    ensures scheme.Other? && |spans| > 0 ==> e == UnknownMethod(scheme.name)
  {
    var k :| FirstFailure(pts, colors, spans, scheme, tri, k, e);
    assert PatchAt(pts, colors, spans, scheme, tri, k) == Err(e);
    if scheme.Other? {
      assert PatchAt(pts, colors, spans, scheme, tri, k) == Err(UnknownMethod(scheme.name));
    }
  }

  /** With an unknown method the very first patch fails, so the loop does. */
  lemma {:induction false} UnknownMethodFails(pts: seq<Point>, colors: Option<seq<Value>>, spans: seq<Span>, scheme: Scheme,
                           tri: Triangulator)
    requires Inside(spans, |pts|) && (colors.Some? ==> |colors.value| == |pts|)
    ensures scheme.Other? && |spans| > 0 ==> Patches(pts, colors, spans, scheme, tri) == Err(UnknownMethod(scheme.name))
  {
    var r := Patches(pts, colors, spans, scheme, tri);
    if scheme.Other? && |spans| > 0 {
      if r.Ok? {
        assert false;
      }
      PatchesFailLikeAPatch(pts, colors, spans, scheme, tri, r.error);
    }
  }

  /** `colors[split]` holds a number: a blank point carries a color. */
  predicate ColorClash(pts: seq<Point>, colors: Option<seq<Value>>)
    requires colors.Some? ==> |colors.value| == |pts|
  {
    colors.Some? && exists p :: 0 <= p < |pts| && Blank(pts[p]) && colors.value[p].Num?
  }

  /** The element branch: check the colors at the blank points, cut the points into
      patches at the blank points, then assemble the patches; on success there is at
      least one patch. */
  function Elements(pts: seq<Point>, colors: Option<seq<Value>>, scheme: Scheme, tri: Triangulator)
    : (r: Result<Assembled, MeshError>)
    requires colors.Some? ==> |colors.value| == |pts|
    ensures r.Ok? ==> |r.value.edges| > 0
  {
    if ColorClash(pts, colors) then Err(ColorAtBlank)
    else Assemble(pts, colors, Segment(pts), scheme, tri)
  }

  /** The element branch once the patches are cut: triangulate each patch and gather
      them, failing with the first patch that fails, or when there is no patch. */
  function Assemble(pts: seq<Point>, colors: Option<seq<Value>>, spans: seq<Span>, scheme: Scheme, tri: Triangulator)
    : (r: Result<Assembled, MeshError>)
    requires Inside(spans, |pts|) && (colors.Some? ==> |colors.value| == |pts|)
    ensures r.Ok? ==> |r.value.edges| == |spans| > 0
  {
    var ps := Patches(pts, colors, spans, scheme, tri);
    if ps.Err? then Err(ps.error)
    else if |ps.value| == 0 then Err(NoPatches)
    else Ok(Gather(ps.value))
  }

  /** On success the assembled points are the pieces of the points laid end to end. */
  lemma {:induction false} AssembleKeepsPoints(pts: seq<Point>, colors: Option<seq<Value>>, spans: seq<Span>,
                                               scheme: Scheme, tri: Triangulator)
    requires Inside(spans, |pts|) && (colors.Some? ==> |colors.value| == |pts|)
    ensures var r := Assemble(pts, colors, spans, scheme, tri);
      r.Ok? ==> r.value.xy == Flatten(Pieces(pts, spans))
  {
    var ps := Patches(pts, colors, spans, scheme, tri);
    if ps.Ok? {
      PatchesHold(pts, colors, spans, scheme, tri, ps.value);
      GatheredPoints(pts, spans, ps.value);
    }
  }

  /** On success the assembled colors are the pieces of the colors laid end to end, as
      many as the assembled points. */
  lemma {:induction false} AssembleKeepsColors(pts: seq<Point>, colors: Option<seq<Value>>, spans: seq<Span>,
                                               scheme: Scheme, tri: Triangulator)
    requires Inside(spans, |pts|) && colors.Some? && |colors.value| == |pts|
    ensures var r := Assemble(pts, colors, spans, scheme, tri);
      r.Ok? ==> r.value.xy == Flatten(Pieces(pts, spans)) && r.value.colors == Flatten(Pieces(colors.value, spans))
  {
    var ps := Patches(pts, colors, spans, scheme, tri);
    if ps.Ok? {
      PatchesHold(pts, colors, spans, scheme, tri, ps.value);
      GatheredPairs(pts, colors.value, spans, ps.value);
    }
  }

  /** On success every assembled boundary line is closed. */
  lemma {:induction false} AssembleClosesLines(pts: seq<Point>, colors: Option<seq<Value>>, spans: seq<Span>,
                                               scheme: Scheme, tri: Triangulator)
    requires Inside(spans, |pts|) && (colors.Some? ==> |colors.value| == |pts|)
    ensures var r := Assemble(pts, colors, spans, scheme, tri);
      r.Ok? ==> forall i :: 0 <= i < |r.value.edges| ==> Closed(r.value.edges[i])
  {
    var ps := Patches(pts, colors, spans, scheme, tri);
    if ps.Ok? {
      var g := Gather(ps.value);
      PatchesHold(pts, colors, spans, scheme, tri, ps.value);
      forall i | 0 <= i < |g.edges| ensures Closed(g.edges[i]) {
        assert g.edges[i] == ps.value[i].boundary;
      }
    }
  }

  /** With bezier layouts the assembled triangles number only assembled points. */
  lemma {:induction false} AssembleBezierInRange(pts: seq<Point>, colors: Option<seq<Value>>, spans: seq<Span>,
                                                 tri: Triangulator)
    requires Inside(spans, |pts|) && (colors.Some? ==> |colors.value| == |pts|)
    ensures var r := Assemble(pts, colors, spans, BezierScheme, tri);
      r.Ok? ==> forall q :: 0 <= q < |r.value.tris| ==> InRange(r.value.tris[q], |r.value.xy|)
  {
    var ps := Patches(pts, colors, spans, BezierScheme, tri);
    if ps.Ok? {
      PatchesHold(pts, colors, spans, BezierScheme, tri, ps.value);
      GatherInRange(ps.value);
    }
  }

  /** How assembling fails: with nothing to gather exactly when there are no spans,
      otherwise only with the error of a patch, and with an unknown method always. */
  lemma {:induction false} AssembleFails(pts: seq<Point>, colors: Option<seq<Value>>, spans: seq<Span>,
                                         scheme: Scheme, tri: Triangulator)
    requires Inside(spans, |pts|) && (colors.Some? ==> |colors.value| == |pts|)
    ensures var r := Assemble(pts, colors, spans, scheme, tri);
      && (r == Err(NoPatches) <==> |spans| == 0)
      && (r.Err? && |spans| > 0 ==> PatchFailure(r.error))
      && (scheme.Other? && |spans| > 0 ==> r == Err(UnknownMethod(scheme.name)))
  {
    var ps := Patches(pts, colors, spans, scheme, tri);
    UnknownMethodFails(pts, colors, spans, scheme, tri);
    if ps.Err? {
      PatchesFailLikeAPatch(pts, colors, spans, scheme, tri, ps.error);
    }
  }

  /** On success the element branch keeps exactly the non-blank points, in order. */
  lemma {:induction false} ElementsKeepPoints(pts: seq<Point>, colors: Option<seq<Value>>, scheme: Scheme, tri: Triangulator)
    requires colors.Some? ==> |colors.value| == |pts|
    ensures var r := Elements(pts, colors, scheme, tri);
      r.Ok? ==> r.value.xy == Without(pts, Blank)
  {
    if !ColorClash(pts, colors) {
      AssembleKeepsPoints(pts, colors, Segment(pts), scheme, tri);
      SegmentKeepsEveryPoint(pts);
    }
  }

  /** On success every boundary line the element branch draws is closed. */
  lemma {:induction false} ElementsCloseLines(pts: seq<Point>, colors: Option<seq<Value>>, scheme: Scheme, tri: Triangulator)
    requires colors.Some? ==> |colors.value| == |pts|
    ensures var r := Elements(pts, colors, scheme, tri);
      r.Ok? ==> forall i :: 0 <= i < |r.value.edges| ==> Closed(r.value.edges[i])
  {
    if !ColorClash(pts, colors) {
      AssembleClosesLines(pts, colors, Segment(pts), scheme, tri);
    }
  }

  /** With bezier layouts the gathered triangles number only gathered points. */
  lemma {:induction false} ElementsBezierInRange(pts: seq<Point>, colors: Option<seq<Value>>, tri: Triangulator)
    requires colors.Some? ==> |colors.value| == |pts|
    ensures var r := Elements(pts, colors, BezierScheme, tri);
      r.Ok? ==> forall q :: 0 <= q < |r.value.tris| ==> InRange(r.value.tris[q], |r.value.xy|)
  {
    if !ColorClash(pts, colors) {
      AssembleBezierInRange(pts, colors, Segment(pts), tri);
    }
  }

  /** How the element branch fails: on a colored blank point first, then with the error
      of the first patch that fails (an unknown method fails at the first patch), and when
      every point is blank, since there is nothing to gather. */
  lemma {:induction false} ElementsFail(pts: seq<Point>, colors: Option<seq<Value>>, scheme: Scheme, tri: Triangulator)
    requires colors.Some? ==> |colors.value| == |pts|
    ensures var r := Elements(pts, colors, scheme, tri);
      && (r == Err(ColorAtBlank) <==> ColorClash(pts, colors))
      && (r == Err(NoPatches) <==> !ColorClash(pts, colors) && forall p :: 0 <= p < |pts| ==> Blank(pts[p]))
      && (r.Err? ==> r.error == ColorAtBlank || r.error == NoPatches || PatchFailure(r.error))
      && ((scheme.Other? && !ColorClash(pts, colors) && exists p :: 0 <= p < |pts| && !Blank(pts[p]))
          ==> r == Err(UnknownMethod(scheme.name)))
  {
    if !ColorClash(pts, colors) {
      var spans := Segment(pts);
      ElementsSegments(pts, spans);
      AssembledFail(pts, colors, spans, scheme, tri);
      ElementsAssemble(pts, colors, scheme, tri);
    }
  }

  /** With no colored blank point the element branch assembles the patches of `Segment`. */
  lemma {:induction false} ElementsAssemble(pts: seq<Point>, colors: Option<seq<Value>>, scheme: Scheme, tri: Triangulator)
    requires colors.Some? ==> |colors.value| == |pts|
    requires !ColorClash(pts, colors)
    ensures Elements(pts, colors, scheme, tri) == Assemble(pts, colors, Segment(pts), scheme, tri)
  {
  }

  /** `ElementsFail` once the colors pass, for any spans that are empty exactly when every
      point is blank. */
  lemma {:induction false} AssembledFail(pts: seq<Point>, colors: Option<seq<Value>>, spans: seq<Span>,
                                         scheme: Scheme, tri: Triangulator)
    requires Inside(spans, |pts|) && (colors.Some? ==> |colors.value| == |pts|)
    requires |spans| == 0 <==> forall p :: 0 <= p < |pts| ==> Blank(pts[p])
    ensures var r := Assemble(pts, colors, spans, scheme, tri);
      && r != Err(ColorAtBlank)
      && (r == Err(NoPatches) <==> forall p :: 0 <= p < |pts| ==> Blank(pts[p]))
      && (r.Err? ==> r.error == NoPatches || PatchFailure(r.error))
      && ((scheme.Other? && exists p :: 0 <= p < |pts| && !Blank(pts[p])) ==> r == Err(UnknownMethod(scheme.name)))
  {
    AssembleFails(pts, colors, spans, scheme, tri);
  }

  /** On success every non-blank point lands in the gathered points with its own color
      beside it. */
  lemma {:induction false} ElementsKeepColors(pts: seq<Point>, colors: Option<seq<Value>>, scheme: Scheme, tri: Triangulator)
    requires colors.Some? && |colors.value| == |pts|
    ensures var r := Elements(pts, colors, scheme, tri);
      r.Ok? ==> && |r.value.colors| == |r.value.xy|
                && forall p :: 0 <= p < |pts| && !Blank(pts[p]) ==>
                     exists q :: 0 <= q < |r.value.xy| && r.value.xy[q] == pts[p] && r.value.colors[q] == colors.value[p]
  {
    if !ColorClash(pts, colors) {
      AssembleKeepsColors(pts, colors, Segment(pts), scheme, tri);
      SegmentPairs(pts, colors.value);
    }
  }

  /** Cutting the points and their colors at the blank points and laying the pieces end
      to end puts every non-blank point beside its own color. */
  lemma {:induction false} SegmentPairs(pts: seq<Point>, cs: seq<Value>)
    requires |cs| == |pts|
    ensures var spans := Segment(pts);
      var xy, cols := Flatten(Pieces(pts, spans)), Flatten(Pieces(cs, spans));
      && |cols| == |xy|
      && forall p :: 0 <= p < |pts| && !Blank(pts[p]) ==> exists q :: 0 <= q < |xy| && xy[q] == pts[p] && cols[q] == cs[p]
  {
    var spans := Segment(pts);
    PiecesPairUp(pts, cs, spans);
    SegmentsCover(pts);
    var xy, cols := Flatten(Pieces(pts, spans)), Flatten(Pieces(cs, spans));
    forall p | 0 <= p < |pts| && !Blank(pts[p])
      ensures exists q :: 0 <= q < |xy| && xy[q] == pts[p] && cols[q] == cs[p]
    {
      var k :| 0 <= k < |spans| && spans[k].lo <= p < spans[k].hi;
      var q := Landing(pts, spans, k, p);
      assert 0 <= q < |xy| && xy[q] == pts[p] && cols[q] == cs[p];
    }
  }

  /** The patches are empty exactly when every point is blank. */
  lemma {:induction false} ElementsSegments(pts: seq<Point>, spans: seq<Span>)
    requires spans == Segment(pts)
    ensures |spans| == 0 <==> forall p :: 0 <= p < |pts| ==> Blank(pts[p])
  {
    if |spans| > 0 {
      assert !Blank(pts[spans[0].lo]);
    }
  }

  /** The gathered points are the pieces of the points cut by the spans. */
  lemma {:induction false} GatheredPoints(pts: seq<Point>, spans: seq<Span>, ps: seq<Patch>)
    requires Inside(spans, |pts|) && |ps| == |spans|
    requires forall k :: 0 <= k < |ps| ==> ps[k].points == pts[spans[k].lo .. spans[k].hi]
    ensures Gather(ps).xy == Flatten(Pieces(pts, spans))
  {
    GatherKeepsPoints(ps);
    assert PointLists(ps) == Pieces(pts, spans);
  }

  /** The gathered points and colors are the pieces of the points and of the colors cut
      by the same spans. */
  lemma {:induction false} GatheredPairs(pts: seq<Point>, cs: seq<Value>, spans: seq<Span>, ps: seq<Patch>)
    requires Inside(spans, |pts|) && |cs| == |pts| && |ps| == |spans|
    requires forall k :: 0 <= k < |ps| ==> ps[k].points == pts[spans[k].lo .. spans[k].hi]
    requires forall k :: 0 <= k < |ps| ==> ps[k].colors == cs[spans[k].lo .. spans[k].hi]
    ensures Gather(ps).xy == Flatten(Pieces(pts, spans))
    ensures Gather(ps).colors == Flatten(Pieces(cs, spans))
  {
    GatherKeepsPoints(ps);
    assert PointLists(ps) == Pieces(pts, spans);
    assert ColorLists(ps) == Pieces(cs, spans);
  }

  /** The calls after the triangulation: the triangle collection sizes its face colors by
      the greatest vertex number, which fails when there are no triangles; the boundary
      lines are drawn when there are any and the edge color is not 'none'; and with
      `setxylim` the axis limits are the least and greatest coordinates, which fails for an
      empty array. */
  function Finish(xy: seq<Point>, tris: seq<Tri>, data: Option<seq<Value>>, edges: Option<seq<seq<Point>>>,
                  edgesShown: bool, setxylim: bool): (r: Result<Drawn, MeshError>)
    ensures r.Ok? <==> |tris| > 0 && (!setxylim || |xy| > 0)
    ensures |tris| == 0 ==> r == Err(NoTriangles)
    ensures |tris| > 0 && r.Err? ==> r.error == EmptyBounds
    ensures r.Ok? ==> r.value.xy == xy && r.value.tris == tris && r.value.data == data
    ensures r.Ok? ==> (r.value.lines.Some? <==> edgesShown && edges.Some? && |edges.value| > 0)
    ensures r.Ok? && r.value.lines.Some? ==> r.value.lines == edges
    ensures r.Ok? ==> (r.value.box.Some? <==> setxylim)
    ensures r.Ok? && r.value.box.Some? ==> forall i :: 0 <= i < |xy| ==> Within(xy[i], r.value.box.value)
    ensures r.Ok? && setxylim ==> r.value.box == Bounds(xy)
  {
    var lines := if edgesShown && edges.Some? && |edges.value| > 0 then edges else None;
    if |tris| == 0 then Err(NoTriangles)
    else if !setxylim then Ok(Drawn(xy, tris, data, lines, None))
    else
      var box := Bounds(xy);
      if box.None? then Err(EmptyBounds) else Ok(Drawn(xy, tris, data, lines, box))
  }

  /** `PyPlot.mesh` up to the drawing calls, returning the boundary lines only when there
      are some to draw. `edgesShown` is `edgecolors != 'none'`. The checks come in the order
      of the source: the shape of the colors, then the number of axes of the points. A
      structured grid with colors is drawn exactly when it has at least one cell (two
      points along each axis), with two triangles per grid cell and no boundary lines. */
  function Mesh(points: Points, colors: Option<seq<Value>>, scheme: Scheme, tri: Triangulator,
                edgesShown: bool, setxylim: bool): (r: Result<Drawn, MeshError>)
    requires Shaped(points)
    ensures colors.Some? && |colors.value| != Count(points) ==> r == Err(ColorShape)
    ensures points.Gridded? && colors.None? ==> r == Err(NoColors)
    ensures points.OtherRank? && (colors.Some? ==> |colors.value| == Count(points)) ==> r == Err(BadRank)
    ensures points.Gridded? && colors.Some? && |colors.value| == Count(points) ==>
              (r.Ok? <==> Inner(points.nx) * Inner(points.ny) > 0)
    ensures (points.Gridded? && colors.Some? && |colors.value| == Count(points) && Inner(points.nx) * Inner(points.ny) == 0)
              ==> r == Err(NoTriangles)
    ensures r.Ok? && points.Gridded? ==>
              && r.value.xy == points.cells && r.value.data == colors && r.value.lines.None?
              && r.value.tris == CellSplit(points.nx, points.ny)
              && |r.value.tris| == 2 * (Inner(points.nx) * Inner(points.ny))
              && forall c :: 0 <= c < |r.value.tris| ==> InRange(r.value.tris[c], |r.value.xy|)
    ensures r.Ok? ==> (r.value.data.Some? <==> colors.Some?)
    ensures r.Ok? && points.Flat? ==> (r.value.lines.Some? <==> edgesShown)
    ensures r.Ok? ==> (r.value.box.Some? <==> setxylim)
    ensures r.Ok? && r.value.box.Some? ==> forall i :: 0 <= i < |r.value.xy| ==> Within(r.value.xy[i], r.value.box.value)
    ensures r.Ok? && setxylim ==> r.value.box == Bounds(r.value.xy)
  {
    if colors.Some? && |colors.value| != Count(points) then Err(ColorShape)
    else
      match points
      case Gridded(nx, ny, cells) =>
        if colors.None? then Err(NoColors)
        else Finish(cells, CellSplit(nx, ny), colors, None, edgesShown, setxylim)
      case Flat(pts) =>
        var e := Elements(pts, colors, scheme, tri);
        if e.Err? then Err(e.error)
        else
          var data := if colors.Some? then Some(e.value.colors) else None;
          Finish(e.value.xy, e.value.tris, data, Some(e.value.edges), edgesShown, setxylim)
      case OtherRank(_) => Err(BadRank)
  }

  /** `PyPlot.mesh` as written: when the edge color is not 'none' it returns the line
      collection, which is only assigned when there are boundary lines, so a structured
      grid (which has none) fails even though everything was drawn. */
  function MeshAsWritten(points: Points, colors: Option<seq<Value>>, scheme: Scheme, tri: Triangulator,
                         edgesShown: bool, setxylim: bool): (r: Result<Drawn, MeshError>)
    requires Shaped(points)
    ensures (edgesShown && points.Gridded? && Mesh(points, colors, scheme, tri, edgesShown, setxylim).Ok?)
              ==> r == Err(UnboundLineCollection)
    ensures !(edgesShown && points.Gridded?) ==> r == Mesh(points, colors, scheme, tri, edgesShown, setxylim)
  {
    var m := Mesh(points, colors, scheme, tri, edgesShown, setxylim);
    if m.Ok? && edgesShown && m.value.lines.None? then Err(UnboundLineCollection) else m
  }

  /** A two by two grid with colors and the default edge color: the source fails where the
      corrected model draws the grid (two triangles, no boundary lines). */
  lemma {:induction false} GridWithEdgesFails()
    ensures var pts := Gridded(2, 2, [Point(Num(0.0), Num(0.0)), Point(Num(0.0), Num(1.0)),
                                      Point(Num(1.0), Num(0.0)), Point(Num(1.0), Num(1.0))]);
      var colors := Some([Num(0.0), Num(1.0), Num(2.0), Num(3.0)]);
      var tri := (ps: seq<Point>) => None;
      && MeshAsWritten(pts, colors, Delaunay, tri, true, true) == Err(UnboundLineCollection)
      && var r := Mesh(pts, colors, Delaunay, tri, true, true);
         r.Ok? && r.value.lines.None? && |r.value.tris| == 2
  {
  }

  /** The element branch of `mesh`, end to end: on success the drawn points are exactly
      the non-blank points in order, each non-blank point is drawn beside its own color,
      and every boundary line is closed; its failures are those of the element branch. */
  lemma {:induction false} MeshElements(pts: seq<Point>, colors: Option<seq<Value>>, scheme: Scheme, tri: Triangulator,
                     edgesShown: bool, setxylim: bool)
    requires colors.Some? ==> |colors.value| == |pts|
    ensures var r := Mesh(Flat(pts), colors, scheme, tri, edgesShown, setxylim);
      && (r.Ok? ==> r.value.xy == Without(pts, Blank))
      && (r.Ok? && r.value.lines.Some? ==> forall i :: 0 <= i < |r.value.lines.value| ==> Closed(r.value.lines.value[i]))
      && (r.Ok? && colors.Some? ==> r.value.data.Some? && |r.value.data.value| == |r.value.xy|)
      && (r.Ok? && colors.Some? ==>
            forall p :: 0 <= p < |pts| && !Blank(pts[p]) ==>
              exists q :: 0 <= q < |r.value.xy| && r.value.xy[q] == pts[p] && r.value.data.value[q] == colors.value[p])
      && (r == Err(ColorAtBlank) <==> ColorClash(pts, colors))
      && (r == Err(NoPatches) <==> !ColorClash(pts, colors) && forall p :: 0 <= p < |pts| ==> Blank(pts[p]))
  {
    MeshKeepsPoints(pts, colors, scheme, tri, edgesShown, setxylim);
    if colors.Some? {
      MeshKeepsColors(pts, colors, scheme, tri, edgesShown, setxylim);
    }
    MeshFails(pts, colors, scheme, tri, edgesShown, setxylim);
  }

  /** Flat points are drawn as the element branch assembles them: its failures pass
      through, and a success is either drawn with its points, colors and boundary lines,
      or fails for want of triangles, or fails on the axis limits of an empty array. */
  lemma {:induction false} MeshOfFlat(pts: seq<Point>, colors: Option<seq<Value>>, scheme: Scheme, tri: Triangulator,
                                      edgesShown: bool, setxylim: bool)
    requires colors.Some? ==> |colors.value| == |pts|
    ensures var r := Mesh(Flat(pts), colors, scheme, tri, edgesShown, setxylim);
      var e := Elements(pts, colors, scheme, tri);
      && (e.Err? ==> r == Err(e.error))
      && (e.Ok? && |e.value.tris| == 0 ==> r == Err(NoTriangles))
      && (e.Ok? && |e.value.tris| > 0 && r.Err? ==> r.error == EmptyBounds)
      && (r.Ok? ==> && e.Ok? && r.value.xy == e.value.xy && r.value.tris == e.value.tris
                    && (r.value.lines.Some? ==> r.value.lines == Some(e.value.edges))
                    && (colors.Some? ==> r.value.data == Some(e.value.colors)))
  {
    var e := Elements(pts, colors, scheme, tri);
    assert Count(Flat(pts)) == |pts|;
    if e.Ok? {
      var data := if colors.Some? then Some(e.value.colors) else None;
      assert Mesh(Flat(pts), colors, scheme, tri, edgesShown, setxylim)
          == Finish(e.value.xy, e.value.tris, data, Some(e.value.edges), edgesShown, setxylim);
    }
  }

  /** Flat points: on success the drawn points are the non-blank points in order and
      every boundary line drawn is closed. */
  lemma {:induction false} MeshKeepsPoints(pts: seq<Point>, colors: Option<seq<Value>>, scheme: Scheme, tri: Triangulator,
                                           edgesShown: bool, setxylim: bool)
    requires colors.Some? ==> |colors.value| == |pts|
    ensures var r := Mesh(Flat(pts), colors, scheme, tri, edgesShown, setxylim);
      && (r.Ok? ==> r.value.xy == Without(pts, Blank))
      && (r.Ok? && r.value.lines.Some? ==> forall i :: 0 <= i < |r.value.lines.value| ==> Closed(r.value.lines.value[i]))
  {
    MeshOfFlat(pts, colors, scheme, tri, edgesShown, setxylim);
    ElementsKeepPoints(pts, colors, scheme, tri);
    ElementsCloseLines(pts, colors, scheme, tri);
  }

  /** Flat points with colors: on success every non-blank point is drawn beside its own
      color. */
  lemma {:induction false} MeshKeepsColors(pts: seq<Point>, colors: Option<seq<Value>>, scheme: Scheme, tri: Triangulator,
                                           edgesShown: bool, setxylim: bool)
    requires colors.Some? && |colors.value| == |pts|
    ensures var r := Mesh(Flat(pts), colors, scheme, tri, edgesShown, setxylim);
      && (r.Ok? ==> r.value.data.Some? && |r.value.data.value| == |r.value.xy|)
      && (r.Ok? ==>
            forall p :: 0 <= p < |pts| && !Blank(pts[p]) ==>
              exists q :: 0 <= q < |r.value.xy| && r.value.xy[q] == pts[p] && r.value.data.value[q] == colors.value[p])
  {
    MeshOfFlat(pts, colors, scheme, tri, edgesShown, setxylim);
    ElementsKeepColors(pts, colors, scheme, tri);
  }

  /** Flat points: `mesh` fails on a colored blank point exactly when there is one, and
      for want of patches exactly when every point is blank. */
  lemma {:induction false} MeshFails(pts: seq<Point>, colors: Option<seq<Value>>, scheme: Scheme, tri: Triangulator,
                                     edgesShown: bool, setxylim: bool)
    requires colors.Some? ==> |colors.value| == |pts|
    ensures var r := Mesh(Flat(pts), colors, scheme, tri, edgesShown, setxylim);
      && (r == Err(ColorAtBlank) <==> ColorClash(pts, colors))
      && (r == Err(NoPatches) <==> !ColorClash(pts, colors) && forall p :: 0 <= p < |pts| ==> Blank(pts[p]))
  {
    MeshOfFlat(pts, colors, scheme, tri, edgesShown, setxylim);
    ElementsFail(pts, colors, scheme, tri);
  }
}
