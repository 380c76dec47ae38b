/** The boundary walk of the Delaunay branch of `PyPlot.mesh` (nutils/plot.py): from the
    unordered list of convex-hull edges the triangulation reports, the walk chains the
    edges into one closed polygon, starting from the last edge and repeatedly taking the
    first remaining edge that touches the point reached so far. */
module Hull {
  import opened Results

  /** An edge of the convex hull, by the indices of its two end points (`e0`, `e1`). */
  datatype Edge = Edge(u: int, v: int)

  /** Why the walk fails: the triangulation reported no hull edges (`pop` from an empty
      list), no remaining edge touches the point reached (`e1.index` raises), or the walk
      used every edge but did not return to its first point (the closing assertion). */
  datatype HullError = NoEdges | Stuck(at: int) | Unclosed

  /** A walk: the points visited and the edge taken for each step. */
  datatype Walk = Walk(points: seq<int>, steps: seq<Edge>)

  /** The edge `e` joins `a` and `b`, in either direction. */
  predicate Joins(e: Edge, a: int, b: int) {
    (e.u == a && e.v == b) || (e.u == b && e.v == a)
  }

  /** `e` has `x` as an end point. */
  predicate Touches(e: Edge, x: int) {
    e.u == x || e.v == x
  }

  /** The list without its entry `i` (`list.pop(i)`). */
  function Remove<T>(s: seq<T>, i: nat): (r: seq<T>)
    requires i < |s|
    ensures |r| == |s| - 1
    ensures multiset(r) + multiset{s[i]} == multiset(s)
    ensures forall j :: 0 <= j < |r| ==> r[j] == (if j < i then s[j] else s[j + 1])
  {
    assert s == s[..i] + [s[i]] + s[i + 1..];
    s[..i] + s[i + 1..]
  }

  /** The first position whose edge starts (`fromStart`) or ends at `x`: `e0.index(x)` or
      `e1.index(x)`, `None` for the `ValueError`. */
  function IndexOf(es: seq<Edge>, x: int, fromStart: bool): (r: Option<nat>)
    ensures r.Some? ==> r.value < |es| && (if fromStart then es[r.value].u else es[r.value].v) == x
    ensures r.Some? ==> forall j :: 0 <= j < r.value ==> (if fromStart then es[j].u else es[j].v) != x
    ensures r.None? ==> forall j :: 0 <= j < |es| ==> (if fromStart then es[j].u else es[j].v) != x
  {
    if |es| == 0 then None
    else if (if fromStart then es[0].u else es[0].v) == x then Some(0)
    else
      match IndexOf(es[1..], x, fromStart)
      case None => None
      case Some(i) => Some(i + 1)
  }

  /** One step of the walk from `x`: the position of the edge taken and the point it leads
      to. An edge starting at `x` is preferred to one ending there; with neither the walk
      is stuck. */
  function Next(es: seq<Edge>, x: int): (r: Option<(nat, int)>)
    ensures r.Some? ==> r.value.0 < |es| && Joins(es[r.value.0], x, r.value.1)
    ensures r.None? <==> forall j :: 0 <= j < |es| ==> !Touches(es[j], x)
    ensures (exists j :: 0 <= j < |es| && es[j].u == x) ==>
              && r.Some? && r.value.0 < |es| && es[r.value.0].u == x && r.value.1 == es[r.value.0].v
              && forall j :: 0 <= j < r.value.0 ==> es[j].u != x
    ensures (forall j :: 0 <= j < |es| ==> es[j].u != x) && r.Some? ==>
              && r.value.0 < |es| && es[r.value.0].v == x && r.value.1 == es[r.value.0].u
              && forall j :: 0 <= j < r.value.0 ==> es[j].v != x
  {
    match IndexOf(es, x, true)
    case Some(i) => Some((i, es[i].v))
    case None =>
      match IndexOf(es, x, false)
      case Some(i) => Some((i, es[i].u))
      case None => None
  }

  /** `w` continues the walk `points` along the edges `es`: the points so far are kept,
      one point is added for each edge, every step joins two consecutive points and the
      steps use up the edges exactly. */
  ghost predicate Continues(es: seq<Edge>, points: seq<int>, w: Walk)
    requires |points| >= 1
  {
    && |w.points| == |points| + |es| && w.points[..|points|] == points
    && |w.steps| == |es| && multiset(w.steps) == multiset(es)
    && forall i :: 0 <= i < |w.steps| ==> Joins(w.steps[i], w.points[|points| - 1 + i], w.points[|points| + i])
  }

  /** The loop of the walk: extends `points` by one point per remaining edge, failing
      only when it gets stuck. */
  function Extend(es: seq<Edge>, points: seq<int>): (r: Result<Walk, HullError>)
    requires |points| >= 1
    ensures r.Ok? ==> Continues(es, points, r.value)
    ensures r.Err? ==> r.error.Stuck?
    decreases |es|
  {
    if |es| == 0 then Ok(Walk(points, []))
    else
      match Next(es, points[|points| - 1])
      case None => Err(Stuck(points[|points| - 1]))
      case Some((i, w)) =>
        match Extend(Remove(es, i), points + [w])
        case Err(e) => Err(e)
        case Ok(rest) =>
          TakeStep(es, points, i, w, rest);
          Ok(Walk(rest.points, [es[i]] + rest.steps))
  }

  /** A step along edge `i` to `w`, followed by a walk along the other edges, is a walk
      along all of them. */
  lemma {:induction false} TakeStep(es: seq<Edge>, points: seq<int>, i: nat, w: int, rest: Walk)
    requires |points| >= 1 && i < |es|
    requires Joins(es[i], points[|points| - 1], w)
    requires Continues(Remove(es, i), points + [w], rest)
    ensures Continues(es, points, Walk(rest.points, [es[i]] + rest.steps))
  {
    var r := Walk(rest.points, [es[i]] + rest.steps);
    assert r.points[..|points|] == rest.points[..|points| + 1][..|points|];
    assert r.points[|points|] == rest.points[..|points| + 1][|points|];
    forall k | 0 <= k < |r.steps|
      ensures Joins(r.steps[k], r.points[|points| - 1 + k], r.points[|points| + k])
    {
      if k > 0 {
        assert r.steps[k] == rest.steps[k - 1];
      }
    }
  }

  /** The walk with the edge taken at each step: the last edge gives the first two points
      and `Extend` takes the others; a walk that does not end where it started fails. On
      success the walk is closed and takes every edge exactly once, one point more than
      there are edges. */
  function Trail(es: seq<Edge>): (r: Result<Walk, HullError>)
    ensures r.Ok? ==> EulerCircuit(es, r.value.points, r.value.steps)
    ensures r.Ok? ==> r.value.points[0] == r.value.points[|es|]
    ensures r == Err(NoEdges) <==> |es| == 0
  {
    if |es| == 0 then Err(NoEdges)
    else
      var n := |es| - 1;
      match Extend(es[..n], [es[n].u, es[n].v])
      case Err(e) => Err(e)
      case Ok(w) =>
        FirstStep(es, w);
        if w.points[0] != w.points[|es|] then Err(Unclosed)
        else Ok(Walk(w.points, [es[n]] + w.steps))
  }

  /** Putting the last edge, which gave the first two points, in front of the steps of
      `Extend` gives a walk along every edge. */
  lemma {:induction false} FirstStep(es: seq<Edge>, w: Walk)
    requires |es| >= 1
    requires Continues(es[..|es| - 1], [es[|es| - 1].u, es[|es| - 1].v], w)
    ensures EulerCircuit(es, w.points, [es[|es| - 1]] + w.steps)
  {
    var n := |es| - 1;
    assert es == es[..n] + [es[n]];
    assert w.points[0] == es[n].u && w.points[1] == es[n].v by {
      assert w.points[0] == w.points[..2][0];
      assert w.points[1] == w.points[..2][1];
    }
    var steps := [es[n]] + w.steps;
    forall i | 0 <= i < |steps|
      ensures Joins(steps[i], w.points[i], w.points[i + 1])
    {
      if i > 0 {
        assert steps[i] == w.steps[i - 1];
      }
    }
  }

  /** The hull walk of the Delaunay branch: the points of `Trail`, a closed walk along
      every hull edge exactly once. */
  function HullWalk(es: seq<Edge>): (r: Result<seq<int>, HullError>)
    ensures r.Ok? <==> Trail(es).Ok?
    ensures r.Ok? ==> |r.value| == |es| + 1 && r.value[0] == r.value[|es|]
    ensures r.Ok? ==> exists steps :: EulerCircuit(es, r.value, steps)
    ensures r.Err? ==> r.error == Trail(es).error
    ensures r == Err(NoEdges) <==> |es| == 0
  {
    match Trail(es)
    case Ok(w) => Ok(w.points)
    case Err(e) => Err(e)
  }

  /** `points` walks along every edge of `es` exactly once, in the order `steps`. */
  ghost predicate EulerCircuit(es: seq<Edge>, points: seq<int>, steps: seq<Edge>) {
    && |steps| == |es| && multiset(steps) == multiset(es)
    && |points| == |steps| + 1
    && forall i :: 0 <= i < |steps| ==> Joins(steps[i], points[i], points[i + 1])
  }

  // ---------------------------------------------------------------------------
  // Closing the walk
  // ---------------------------------------------------------------------------

  function Last(s: seq<int>): int
    requires |s| >= 1
  {
    s[|s| - 1]
  }

  /** How many of the end points of `e` are `x` (a loop counts twice). */
  function Ends(e: Edge, x: int): nat {
    (if e.u == x then 1 else 0) + (if e.v == x then 1 else 0)
  }

  /** The degree of `x` in the multigraph of the edges `es`. */
  function Degree(es: seq<Edge>, x: int): nat {
    if |es| == 0 then 0 else Degree(es[..|es| - 1], x) + Ends(es[|es| - 1], x)
  }

  /** A point no edge touches has degree 0. */
  lemma {:induction false} Untouched(es: seq<Edge>, x: int)
    requires forall j :: 0 <= j < |es| ==> !Touches(es[j], x)
    ensures Degree(es, x) == 0
  {
    if |es| > 0 {
      var init := es[..|es| - 1];
      assert forall j :: 0 <= j < |init| ==> init[j] == es[j];
      Untouched(init, x);
    }
  }

  lemma {:induction false} DegreeAppend(a: seq<Edge>, b: seq<Edge>, x: int)
    ensures Degree(a + b, x) == Degree(a, x) + Degree(b, x)
    decreases |b|
  {
    if |b| > 0 {
      assert (a + b)[..|a + b| - 1] == a + b[..|b| - 1];
      DegreeAppend(a, b[..|b| - 1], x);
    } else {
      assert a + b == a;
    }
  }

  /** Taking an edge off the list lowers the degrees of its end points. */
  lemma {:induction false} DegreeRemove(es: seq<Edge>, i: nat, x: int)
    requires i < |es|
    ensures Degree(Remove(es, i), x) + Ends(es[i], x) == Degree(es, x)
  {
    assert es == es[..i] + ([es[i]] + es[i + 1..]);
    DegreeAppend(es[..i], [es[i]] + es[i + 1..], x);
    DegreeAppend([es[i]], es[i + 1..], x);
    DegreeAppend(es[..i], es[i + 1..], x);
    assert Degree([es[i]], x) == Degree([es[i]][..0], x) + Ends(es[i], x);
  }

  /** The points of odd degree among the edges left are the start and the current point
      of the walk, when these differ, and no others. */
  ghost predicate OddAtEnds(es: seq<Edge>, start: int, cur: int) {
    forall x :: Degree(es, x) % 2 == 1 <==> (start != cur && (x == start || x == cur))
  }

  /** Walking along an edge from `cur` to `w` moves the odd end from `cur` to `w`. */
  lemma {:induction false} StepKeepsOddAtEnds(es: seq<Edge>, i: nat, start: int, cur: int, w: int)
    requires i < |es| && Joins(es[i], cur, w)
    requires OddAtEnds(es, start, cur)
    ensures OddAtEnds(Remove(es, i), start, w)
  {
    forall x
      ensures Degree(Remove(es, i), x) % 2 == 1 <==> (start != w && (x == start || x == w))
    {
      DegreeRemove(es, i, x);
      assert Degree(es, x) % 2 == 1 <==> (start != cur && (x == start || x == cur));
    }
  }

  /** While the odd points are the start and the current point, the walk can only get
      stuck back at its start, and when it uses up its edges it is back at its start. */
  lemma {:induction false} ExtendReturns(es: seq<Edge>, points: seq<int>, start: int)
    requires |points| >= 1 && OddAtEnds(es, start, points[|points| - 1])
    ensures Extend(es, points).Err? ==> Extend(es, points) == Err(Stuck(start))
    ensures Extend(es, points).Ok? ==> Last(Extend(es, points).value.points) == start
    decreases |es|
  {
    var cur := points[|points| - 1];
    assert Degree(es, start) % 2 == 1 <==> start != cur;
    assert Degree(es, cur) % 2 == 1 <==> start != cur;
    if |es| == 0 {
      assert start == cur;
      assert Extend(es, points) == Ok(Walk(points, []));
    } else {
      match Next(es, cur)
      case None =>
        Untouched(es, cur);
      case Some((i, w)) =>
        StepKeepsOddAtEnds(es, i, start, cur, w);
        ExtendReturns(Remove(es, i), points + [w], start);
        var rest := Extend(Remove(es, i), points + [w]);
        if rest.Ok? {
          assert Extend(es, points) == Ok(Walk(rest.value.points, [es[i]] + rest.value.steps));
        } else {
          assert Extend(es, points) == rest;
        }
    }
  }

  lemma {:induction false} EvenSum(d: nat, k: nat)
    requires (d + k) % 2 == 0 && k <= 2
    ensures d % 2 == 1 <==> k == 1
  {
  }

  /** With every degree even, the first step of the walk, along the last edge, leaves
      its two end points as the odd ones. */
  lemma {:induction false} FirstStepOddAtEnds(es: seq<Edge>)
    requires |es| > 0 && forall x :: Degree(es, x) % 2 == 0
    ensures OddAtEnds(es[..|es| - 1], es[|es| - 1].u, es[|es| - 1].v)
  {
    var n := |es| - 1;
    var e := es[n];
    forall x
      ensures Degree(es[..n], x) % 2 == 1 <==> (e.u != e.v && (x == e.u || x == e.v))
    {
      assert Degree(es, x) == Degree(es[..n], x) + Ends(e, x);
      EvenSum(Degree(es[..n], x), Ends(e, x));
    }
  }

  /** When every point has even degree among the hull edges (as on the boundary of a
      triangulation), the closing assertion cannot fail: the walk either closes or gets
      stuck at the point it started from. */
  lemma {:induction false} EvenDegreesClose(es: seq<Edge>)
    requires forall x :: Degree(es, x) % 2 == 0
    ensures Trail(es) != Err(Unclosed)
    ensures |es| > 0 && Trail(es).Err? ==> Trail(es) == Err(Stuck(es[|es| - 1].u))
  {
    if |es| > 0 {
      var n := |es| - 1;
      var e := es[n];
      FirstStepOddAtEnds(es);
      ExtendReturns(es[..n], [e.u, e.v], e.u);
      var r := Extend(es[..n], [e.u, e.v]);
      if r.Ok? {
        var w := r.value;
        assert w.points[0] == w.points[..2][0];
        assert w.points[|es|] == Last(w.points);
        assert Trail(es) == Ok(Walk(w.points, [e] + w.steps));
      } else {
        assert Trail(es) == r;
      }
    }
  }

  /** A triangle whose edges come in mixed directions: the walk follows an edge backwards
      when no edge starts at the point reached. */
  lemma {:induction false} TriangleExample()
    ensures HullWalk([Edge(0, 1), Edge(2, 1), Edge(0, 2)]) == Ok([0, 2, 1, 0])
  {
    var es := [Edge(0, 1), Edge(2, 1), Edge(0, 2)];
    assert es[..2] == [Edge(0, 1), Edge(2, 1)];
    var e1 := [Edge(0, 1), Edge(2, 1)];
    assert e1[1..] == [Edge(2, 1)];
    assert IndexOf(e1, 2, true) == Some(1);
    assert Next(e1, 2) == Some((1, 1));
    assert Remove(e1, 1) == [Edge(0, 1)];
    var e2 := [Edge(0, 1)];
    assert IndexOf(e2, 1, true) == None;
    assert IndexOf(e2, 1, false) == Some(0);
    assert Next(e2, 1) == Some((0, 0));
    assert Remove(e2, 0) == [];
    assert [0, 2] + [1] == [0, 2, 1] && [0, 2, 1] + [0] == [0, 2, 1, 0];
    var w2 := Extend(Remove(e2, 0), [0, 2, 1] + [0]);
    assert w2 == Ok(Walk([0, 2, 1, 0], []));
    var w1 := Extend(Remove(e1, 1), [0, 2] + [1]);
    assert w1 == Ok(Walk(w2.value.points, [e2[0]] + w2.value.steps));
    assert Extend(e1, [0, 2]) == Ok(Walk(w1.value.points, [e1[1]] + w1.value.steps));
  }

  /** Two separate edges: no edge is left at the end of the first. */
  lemma {:induction false} StuckExample()
    ensures HullWalk([Edge(0, 1), Edge(2, 3)]) == Err(Stuck(3))
  {
    assert IndexOf([Edge(0, 1)], 3, true) == None;
    assert IndexOf([Edge(0, 1)], 3, false) == None;
  }

  /** A path: every edge is used but the walk ends away from its start. */
  lemma {:induction false} UnclosedExample()
    ensures HullWalk([Edge(1, 2), Edge(0, 1)]) == Err(Unclosed)
    ensures HullWalk([]) == Err(NoEdges)
  {
    var e := [Edge(1, 2)];
    assert [Edge(1, 2), Edge(0, 1)][..1] == e;
    assert Next(e, 1) == Some((0, 2));
    assert Remove(e, 0) == [];
    assert [0, 1] + [2] == [0, 1, 2];
    var rest := Extend(Remove(e, 0), [0, 1] + [2]);
    assert rest == Ok(Walk([0, 1, 2], []));
    assert Extend(e, [0, 1]) == Ok(Walk(rest.value.points, [e[0]] + rest.value.steps));
  }
}
