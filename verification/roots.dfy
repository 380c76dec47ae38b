/** The two integer roots behind the layout tests of the bezier triangulation in
    `PyPlot.mesh` (nutils/plot.py): `nquad = int(sqrt(np) + .5)` and
    `ntri = int(sqrt(2*np + .25))`, taken over exact reals. */
module Roots {
  import opened Arith

  /** `k * k`, named so that quantifiers over squares have a term to trigger on. */
  function Sq(k: nat): nat {
    k * k
  }

  /** `m * (m + 1)`, twice the `m`-th triangular number. */
  function Pronic(m: nat): nat {
    m * (m + 1)
  }

  /** `n` is a perfect square. */
  ghost predicate IsSquare(n: nat) {
    exists k: nat :: Sq(k) == n
  }

  /** `n` is a triangular number `m (m + 1) / 2`. */
  ghost predicate IsTriangular(n: nat) {
    exists m: nat :: Pronic(m) == 2 * n
  }

  /** `Sq` and `Pronic` are monotone. */
  lemma {:induction false} Mono(a: nat, b: nat)
    requires a <= b
    ensures Sq(a) <= Sq(b) && Pronic(a) <= Pronic(b)
  {
    MulMono(a, b, a);
    MulMono(a, b, b);
    MulMono(a + 1, b + 1, a);
    MulMono(a, b, b + 1);
  }

  /** `Pronic(k)` lies `k` above `Sq(k)` and `k + 1` below `Sq(k + 1)`. */
  lemma {:induction false} PronicIsSqPlus(k: nat)
    ensures Pronic(k) == Sq(k) + k
    ensures Sq(k + 1) == Pronic(k) + k + 1
  {
  }

  /** Rounding the square root: `floor(sqrt(n) + 1/2)` is the least `k` with
      `n <= k (k + 1)`, because `k - 1/2 <= sqrt(n) < k + 1/2` holds exactly when
      `(k - 1) k < n <= k (k + 1)`. */
  function QuadSide(n: nat): (r: nat)
    ensures n <= Pronic(r)
    ensures r == 0 || Pronic(r - 1) < n
  {
    QuadSideFrom(n, 0)
  }

  function QuadSideFrom(n: nat, k: nat): (r: nat)
    requires k == 0 || Pronic(k - 1) < n
    ensures n <= Pronic(r)
    ensures r == 0 || Pronic(r - 1) < n
    decreases n - k
  {
    if n <= Pronic(k) then k
    else
      assert k <= Pronic(k);
      QuadSideFrom(n, k + 1)
  }

  /** The integer square root `floor(sqrt(x))`. Since `2 n` is an integer,
      `floor(sqrt(2 n + 1/4))` is `floor(sqrt(2 n))`. */
  function FloorSqrt(x: nat): (r: nat)
    ensures Sq(r) <= x < Sq(r + 1)
  {
    FloorSqrtFrom(x, 0)
  }

  function FloorSqrtFrom(x: nat, k: nat): (r: nat)
    requires Sq(k) <= x
    ensures Sq(r) <= x < Sq(r + 1)
    decreases x - k
  {
    if Sq(k + 1) <= x then
      assert k + 1 <= Sq(k + 1);
      FloorSqrtFrom(x, k + 1)
    else k
  }

  /** `ntri` of the triangular layout test. */
  function TriSide(n: nat): (r: nat)
    ensures Sq(r) <= 2 * n < Sq(r + 1)
  {
    FloorSqrt(2 * n)
  }

  /** The square test `nquad**2 == np` holds exactly for the perfect squares, and then
      `nquad` is the side. */
  lemma {:induction false} SquareTest(n: nat)
    ensures Sq(QuadSide(n)) == n <==> IsSquare(n)
  {
    if IsSquare(n) {
      var k: nat :| Sq(k) == n;
      SquareSide(k);
    }
  }

  /** The rounded root of `k * k` is `k`. */
  lemma {:induction false} SquareSide(k: nat)
    ensures QuadSide(Sq(k)) == k
  {
    var r := QuadSide(Sq(k));
    PronicIsSqPlus(k);
    if k > 0 {
      PronicIsSqPlus(k - 1);
    }
    if r < k {
      Mono(r, k - 1);
    } else if r > k {
      Mono(k, r - 1);
    }
  }

  /** The triangular test `ntri * (ntri + 1) == 2 * np` holds exactly for the
      triangular numbers, and then `ntri` is the number of rows. */
  lemma {:induction false} TriangleTest(n: nat)
    ensures Pronic(TriSide(n)) == 2 * n <==> IsTriangular(n)
  {
    if IsTriangular(n) {
      var m: nat :| Pronic(m) == 2 * n;
      TriangleSide(m, n);
    }
  }

  /** The root of `2 n = m (m + 1)` is `m`. */
  lemma {:induction false} TriangleSide(m: nat, n: nat)
    requires Pronic(m) == 2 * n
    ensures TriSide(n) == m
  {
    var r := TriSide(n);
    PronicIsSqPlus(m);
    if r < m {
      Mono(r + 1, m);
    } else if r > m {
      Mono(m + 1, r);
    }
  }

  /** The square numbers among the triangular ones: 1 and 36 are both, which is why the
      square test must come first. */
  lemma {:induction false} SquareAndTriangular()
    ensures IsSquare(1) && IsTriangular(1)
    ensures IsSquare(36) && IsTriangular(36)
  {
    assert Sq(1) == 1 && Pronic(1) == 2;
    assert Sq(6) == 36 && Pronic(8) == 72;
  }
}
