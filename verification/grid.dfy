/** The structured split of an `nx` by `ny` grid of points into triangles, used by
    `PyPlot.mesh` (nutils/plot.py) both for gridded input and for the square bezier
    layout: point `(i, j)` has flat index `ind[i, j] = i * ny + j`, and every cell
    `(i, j)` is cut along its diagonal from `(i + 1, j)` to `(i, j + 1)`. */
module Grid {
  import opened Arith

  /** A triangle, as three indices into the flat point array. */
  datatype Tri = Tri(a: int, b: int, c: int)

  /** All three corners index into an array of `n` points. */
  predicate InRange(t: Tri, n: int) {
    0 <= t.a < n && 0 <= t.b < n && 0 <= t.c < n
  }

  /** `u` and `v` are two different corners of `t`, so `u v` is one of its sides. */
  predicate HasEdge(t: Tri, u: int, v: int) {
    u != v && (u == t.a || u == t.b || u == t.c) && (v == t.a || v == t.b || v == t.c)
  }

  /** The length of `a[:-1]` (and of `a[1:]`) for an axis of length `n`. */
  function Inner(n: nat): nat {
    if n == 0 then 0 else n - 1
  }

  /** `ind[i, j]` for `ind = arange(nx * ny).reshape(nx, ny)`. */
  function At(ny: nat, i: int, j: int): int {
    i * ny + j
  }

  /** The `vert1` triangle of cell `(i, j)`: the half holding corner `(i, j)`. */
  function NearHalf(ny: nat, i: int, j: int): Tri {
    Tri(At(ny, i, j), At(ny, i + 1, j), At(ny, i, j + 1))
  }

  /** The `vert2` triangle of cell `(i, j)`: the half holding corner `(i + 1, j + 1)`. */
  function FarHalf(ny: nat, i: int, j: int): Tri {
    Tri(At(ny, i + 1, j + 1), At(ny, i + 1, j), At(ny, i, j + 1))
  }

  /** The flat index of a grid point determines the point. */
  lemma {:induction false} AtInjective(ny: nat, i: int, j: int, i': int, j': int)
    requires 0 <= j < ny && 0 <= j' < ny
    requires At(ny, i, j) == At(ny, i', j')
    ensures i == i' && j == j'
  {
    if i < i' {
      MulMono(i + 1, i', ny);
    } else if i' < i {
      MulMono(i' + 1, i, ny);
    }
  }

  /** A grid point of an `nx` by `ny` grid has a flat index in `[0, nx * ny)`. */
  lemma {:induction false} AtInRange(nx: nat, ny: nat, i: int, j: int)
    requires 0 <= i < nx && 0 <= j < ny
    ensures 0 <= At(ny, i, j) < nx * ny
  {
    MulMono(0, i, ny);
    MulMono(i + 1, nx, ny);
  }

  /** The cell with row-major number `c` among rows of `w` cells. */
  lemma {:induction false} CellOf(c: nat, w: nat, i: int, j: int)
    requires 0 <= j < w && 0 <= i && c == i * w + j
    ensures c / w == i && c % w == j
  {
    var q, r := c / w, c % w;
    assert c == q * w + r;
    if q < i {
      MulMono(q + 1, i, w);
    } else if i < q {
      MulMono(i + 1, q, w);
    }
  }

  /** Cell number `c` of a grid with `h` rows of `w` cells lies in row `c / w < h`. */
  lemma {:induction false} CellRowBound(c: nat, w: nat, h: nat)
    requires c < h * w
    ensures w > 0 && c / w < h && 0 <= c % w < w
  {
    if w != 0 && c / w >= h {
      MulMono(h, c / w, w);
    }
  }

  /** The near or the far half of cell `(i, j)`. */
  function Half(ny: nat, i: int, j: int, far: bool): Tri {
    if far then FarHalf(ny, i, j) else NearHalf(ny, i, j)
  }

  /** One half of every cell, cells in row-major order (`ind[:-1, :-1].ravel()` and the
      other three corner slices), each inside the grid. */
  function Halves(nx: nat, ny: nat, far: bool): (r: seq<Tri>)
    ensures |r| == Inner(nx) * Inner(ny)
    ensures forall c :: 0 <= c < |r| ==> InRange(r[c], nx * ny)
  {
    var w := Inner(ny);
    var h := Inner(nx);
    var r := seq(h * w, c requires 0 <= c < h * w =>
      CellRowBound(c, w, h);
      Half(ny, c / w, c % w, far));
    HalvesInRange(nx, ny, far, r);
    r
  }

  lemma {:induction false} HalvesInRange(nx: nat, ny: nat, far: bool, r: seq<Tri>)
    requires |r| == Inner(nx) * Inner(ny)
    requires forall c :: 0 <= c < |r| ==> r[c] == Half(ny, c / Inner(ny), c % Inner(ny), far)
    ensures forall c :: 0 <= c < |r| ==> InRange(r[c], nx * ny)
  {
    var h, w := Inner(nx), Inner(ny);
    forall c | 0 <= c < |r|
      ensures InRange(r[c], nx * ny)
    {
      CellRowBound(c, w, h);
      var i, j := c / w, c % w;
      AtInRange(nx, ny, i, j);
      AtInRange(nx, ny, i + 1, j);
      AtInRange(nx, ny, i, j + 1);
      AtInRange(nx, ny, i + 1, j + 1);
    }
  }

  /** Position `i (ny - 1) + j` of `Halves` holds cell `(i, j)`. */
  lemma {:induction false} HalvesAt(nx: nat, ny: nat, far: bool, i: nat, j: nat)
    requires i < Inner(nx) && j < Inner(ny)
    ensures 0 <= i * Inner(ny) + j < |Halves(nx, ny, far)|
    ensures Halves(nx, ny, far)[i * Inner(ny) + j] == Half(ny, i, j, far)
  {
    var w := Inner(ny);
    CellIndexBound(i, j, Inner(nx), w);
    CellOf(i * w + j, w, i, j);
  }

  /** Cell `(i, j)` of a grid with `h` rows of `w` cells has a row-major number below `h w`. */
  lemma {:induction false} CellIndexBound(i: nat, j: nat, h: nat, w: nat)
    requires i < h && j < w
    ensures 0 <= i * w + j < h * w
  {
    MulMono(i + 1, h, w);
  }

  /** The triangles of an `nx` by `ny` grid: first the near half of every cell, then the
      far half of every cell, each list in row-major cell order; `2 (nx - 1) (ny - 1)`
      in all, each inside the grid. */
  function CellSplit(nx: nat, ny: nat): (r: seq<Tri>)
    ensures |r| == 2 * (Inner(nx) * Inner(ny))
    ensures forall c :: 0 <= c < |r| ==> InRange(r[c], nx * ny)
  {
    Halves(nx, ny, false) + Halves(nx, ny, true)
  }

  /** Cell `(i, j)`, with `i < nx - 1` and `j < ny - 1`, has its near half at position
      `i (ny - 1) + j` of the split and its far half `(nx - 1) (ny - 1)` further on. */
  lemma {:induction false} CellSplitListsEveryCell(nx: nat, ny: nat, i: nat, j: nat)
    requires i < Inner(nx) && j < Inner(ny)
    ensures var r, n := CellSplit(nx, ny), Inner(nx) * Inner(ny);
      && 0 <= i * Inner(ny) + j < n
      && r[i * Inner(ny) + j] == NearHalf(ny, i, j)
      && r[n + i * Inner(ny) + j] == FarHalf(ny, i, j)
  {
    HalvesAt(nx, ny, false, i, j);
    HalvesAt(nx, ny, true, i, j);
  }

  /** The sides of cell `(i, j)` along its rows and columns: the near half has the two
      that meet at `(i, j)`, the far half the two that meet at `(i + 1, j + 1)`. */
  lemma {:induction false} CellSides(ny: nat, i: int, j: int)
    requires 0 <= j && j + 1 < ny
    ensures HasEdge(NearHalf(ny, i, j), At(ny, i, j), At(ny, i + 1, j))
    ensures HasEdge(NearHalf(ny, i, j), At(ny, i, j), At(ny, i, j + 1))
    ensures HasEdge(FarHalf(ny, i, j), At(ny, i + 1, j + 1), At(ny, i + 1, j))
    ensures HasEdge(FarHalf(ny, i, j), At(ny, i + 1, j + 1), At(ny, i, j + 1))
  {
    if At(ny, i, j) == At(ny, i + 1, j) {
      AtInjective(ny, i, j, i + 1, j);
    }
    if At(ny, i + 1, j + 1) == At(ny, i, j + 1) {
      AtInjective(ny, i + 1, j + 1, i, j + 1);
    }
  }

  /** The two halves of a cell cover its four corners and meet along the diagonal from
      `(i + 1, j)` to `(i, j + 1)`. */
  lemma {:induction false} HalvesShareDiagonal(ny: nat, i: int, j: int)
    requires 0 <= j && j + 1 < ny
    ensures HasEdge(NearHalf(ny, i, j), At(ny, i + 1, j), At(ny, i, j + 1))
    ensures HasEdge(FarHalf(ny, i, j), At(ny, i + 1, j), At(ny, i, j + 1))
    ensures !HasEdge(NearHalf(ny, i, j), At(ny, i, j), At(ny, i + 1, j + 1))
    ensures At(ny, i + 1, j + 1) !in {NearHalf(ny, i, j).a, NearHalf(ny, i, j).b, NearHalf(ny, i, j).c}
    ensures At(ny, i, j) !in {FarHalf(ny, i, j).a, FarHalf(ny, i, j).b, FarHalf(ny, i, j).c}
  {
    if At(ny, i + 1, j) == At(ny, i, j + 1) {
      AtInjective(ny, i + 1, j, i, j + 1);
    }
    forall i', j' | 0 <= j' < ny && At(ny, i', j') == At(ny, i + 1, j + 1)
      ensures i' == i + 1 && j' == j + 1
    {
      AtInjective(ny, i', j', i + 1, j + 1);
    }
    forall i', j' | 0 <= j' < ny && At(ny, i', j') == At(ny, i, j)
      ensures i' == i && j' == j
    {
      AtInjective(ny, i', j', i, j);
    }
  }
}
