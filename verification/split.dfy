/** Index machinery shared by the two row splitters of the plotting module: the positions
    of the separator rows (what numpy's `find` returns), the runs of rows between
    consecutive separators, and the rows that remain once the separators are dropped. */
module Split {

  /** The half-open row range `lo .. hi` of a flat array. */
  datatype Span = Span(lo: nat, hi: nat)

  /** Concatenation of a list of lists, in order. */
  function Flatten<T>(ss: seq<seq<T>>): (r: seq<T>)
  {
    if |ss| == 0 then [] else Flatten(ss[..|ss| - 1]) + ss[|ss| - 1]
  }

  /** The elements of `s` that are not separators, in their original order. */
  function Without<T>(s: seq<T>, sep: T -> bool): (r: seq<T>)
    ensures |r| <= |s|
  {
    if |s| == 0 then []
    else Without(s[..|s| - 1], sep) + (if sep(s[|s| - 1]) then [] else [s[|s| - 1]])
  }

  /** The positions of the separators in `s`, increasing: exactly the positions a
      separator occupies, one entry per separator row. */
  function Find<T>(s: seq<T>, sep: T -> bool): (r: seq<nat>)
    ensures forall i, j :: 0 <= i < j < |r| ==> r[i] < r[j]
    ensures forall i :: 0 <= i < |r| ==> r[i] < |s| && sep(s[r[i]])
    ensures forall p {:trigger p in r} :: 0 <= p < |s| && sep(s[p]) ==> p in r
  {
    if |s| == 0 then []
    else
      var r := Find(s[..|s| - 1], sep) + (if sep(s[|s| - 1]) then [|s| - 1] else []);
      assert forall p :: 0 <= p < |s| - 1 ==> s[..|s| - 1][p] == s[p];
      r
  }

  /** Every row is either a separator, listed by `Find`, or kept by `Without`. */
  lemma {:induction false} FindCountsSeparators<T>(s: seq<T>, sep: T -> bool)
    ensures |Find(s, sep)| + |Without(s, sep)| == |s|
  {
    if |s| > 0 {
      FindCountsSeparators(s[..|s| - 1], sep);
    }
  }

  /** Start of run `k`: just after separator `k - 1`, or 0 for the first run. */
  function RunStart(split: seq<nat>, k: nat): nat
    requires k <= |split|
  {
    if k == 0 then 0 else split[k - 1] + 1
  }

  /** End of run `k`: at separator `k`, or `n` for the last run. */
  function RunEnd(split: seq<nat>, n: nat, k: nat): nat
    requires k <= |split|
  {
    if k == |split| then n else split[k]
  }

  /** The runs between consecutive entries of an increasing list of separator positions
      (`zip([-1] + split, split + [n])`, each start moved one past its separator). */
  function RunsBetween(split: seq<nat>, n: nat): (r: seq<Span>)
    requires Increasing(split)
    requires forall i :: 0 <= i < |split| ==> split[i] < n
    ensures |r| == |split| + 1
    ensures r[0].lo == 0 && r[|r| - 1].hi == n
    ensures forall k :: 0 <= k < |r| ==> r[k].lo <= r[k].hi <= n
    ensures forall k {:trigger r[k]} :: 0 <= k < |r| - 1 ==> r[k].hi == split[k]
    ensures forall i, j {:trigger r[i], r[j]} :: 0 <= i && j == i + 1 && j < |r| ==> r[j].lo == r[i].hi + 1
    ensures forall k, p :: 0 <= k < |r| && r[k].lo <= p < r[k].hi ==> p !in split
    ensures forall i, j :: 0 <= i < j < |r| ==> r[i].hi < r[j].lo
  {
    RunsBetweenHaveNoSeparator(split, n);
    RunsBetweenAreOrdered(split, n);
    RunsAt(split, n)
  }

  /** Strictly increasing. */
  ghost predicate Increasing(split: seq<nat>) {
    forall i, j :: 0 <= i < j < |split| ==> split[i] < split[j]
  }

  function RunsAt(split: seq<nat>, n: nat): (r: seq<Span>)
    requires Increasing(split)
    requires forall i :: 0 <= i < |split| ==> split[i] < n
    ensures |r| == |split| + 1
    ensures forall k :: 0 <= k < |r| ==> r[k] == Span(RunStart(split, k), RunEnd(split, n, k))
  {
    seq(|split| + 1, k requires 0 <= k <= |split| => Span(RunStart(split, k), RunEnd(split, n, k)))
  }

  lemma {:induction false} RunsBetweenHaveNoSeparator(split: seq<nat>, n: nat)
    requires Increasing(split)
    requires forall i :: 0 <= i < |split| ==> split[i] < n
    ensures forall k, p :: 0 <= k < |RunsAt(split, n)| && RunsAt(split, n)[k].lo <= p < RunsAt(split, n)[k].hi ==> p !in split
  {
    var r := RunsAt(split, n);
    forall k, p | 0 <= k < |r| && r[k].lo <= p < r[k].hi
      ensures p !in split
    {
      GapHasNoSeparator(split, n, k, p);
    }
  }

  lemma {:induction false} RunsBetweenAreOrdered(split: seq<nat>, n: nat)
    requires Increasing(split)
    requires forall i :: 0 <= i < |split| ==> split[i] < n
    ensures forall i, j :: 0 <= i < j < |RunsAt(split, n)| ==> RunsAt(split, n)[i].hi < RunsAt(split, n)[j].lo
  {
    var r := RunsAt(split, n);
    forall i, j | 0 <= i < j < |r|
      ensures r[i].hi < r[j].lo
    {
      assert split[i] <= split[j - 1];
    }
  }

  /** The runs of non-separator rows of `s`: one more run than there are separators, some
      of them possibly empty. Each run holds no separator, ends at a separator or at the
      end of `s`, and the next run starts right after that separator. */
  function Runs<T>(s: seq<T>, sep: T -> bool): (r: seq<Span>)
    ensures |r| == |Find(s, sep)| + 1
    ensures r[0].lo == 0 && r[|r| - 1].hi == |s|
    ensures forall k :: 0 <= k < |r| ==> r[k].lo <= r[k].hi <= |s|
    ensures forall k :: 0 <= k < |r| - 1 ==> r[k].hi < |s| && sep(s[r[k].hi])
    ensures forall i, j {:trigger r[i], r[j]} :: 0 <= i && j == i + 1 && j < |r| ==> r[j].lo == r[i].hi + 1
    ensures forall k, p :: 0 <= k < |r| && r[k].lo <= p < r[k].hi ==> !sep(s[p])
    ensures forall i, j :: 0 <= i < j < |r| ==> r[i].hi < r[j].lo
  {
    var split := Find(s, sep);
    var r := RunsBetween(split, |s|);
    RunsEndAtSeparators(s, sep, split, r);
    r
  }

  /** Run `k` lies between separator `k - 1` and separator `k`: the runs are the zip of
      the separator positions. */
  lemma {:induction false} RunsAreBetween<T>(s: seq<T>, sep: T -> bool)
    ensures var sp := Find(s, sep);
      forall k :: 0 <= k < |Runs(s, sep)| ==> k <= |sp| && Runs(s, sep)[k] == Span(RunStart(sp, k), RunEnd(sp, |s|, k))
  {
    var sp := Find(s, sep);
    assert Runs(s, sep) == RunsBetween(sp, |s|) == RunsAt(sp, |s|);
  }

  lemma {:induction false} RunsEndAtSeparators<T>(s: seq<T>, sep: T -> bool, split: seq<nat>, r: seq<Span>)
    requires |r| == |split| + 1
    requires forall i :: 0 <= i < |split| ==> split[i] < |s| && sep(s[split[i]])
    requires forall p {:trigger p in split} :: 0 <= p < |s| && sep(s[p]) ==> p in split
    requires forall k :: 0 <= k < |r| ==> r[k].lo <= r[k].hi <= |s|
    requires forall k :: 0 <= k < |r| - 1 ==> r[k].hi == split[k]
    requires forall k, p :: 0 <= k < |r| && r[k].lo <= p < r[k].hi ==> p !in split
    ensures forall k :: 0 <= k < |r| - 1 ==> r[k].hi < |s| && sep(s[r[k].hi])
    ensures forall k, p :: 0 <= k < |r| && r[k].lo <= p < r[k].hi ==> !sep(s[p])
  {
    forall k | 0 <= k < |r| - 1
      ensures r[k].hi < |s| && sep(s[r[k].hi])
    {
      assert r[k].hi == split[k];
    }
    forall k, p | 0 <= k < |r| && r[k].lo <= p < r[k].hi
      ensures !sep(s[p])
    {
      assert p !in split;
    }
  }

  lemma {:induction false} RunsStartAfterSeparators<T>(s: seq<T>, sep: T -> bool, r: seq<Span>)
    requires forall k :: 0 <= k < |r| ==> r[k].lo <= r[k].hi <= |s|
    requires forall k :: 0 <= k < |r| - 1 ==> r[k].hi < |s| && sep(s[r[k].hi])
    requires forall i, j {:trigger r[i], r[j]} :: 0 <= i && j == i + 1 && j < |r| ==> r[j].lo == r[i].hi + 1
    ensures forall k :: 0 < k < |r| ==> 1 <= r[k].lo && sep(s[r[k].lo - 1])
  {
    forall k | 0 < k < |r|
      ensures 1 <= r[k].lo && sep(s[r[k].lo - 1])
    {
      assert r[k].lo == r[k - 1].hi + 1;
    }
  }

  /** No entry of an increasing list of positions lies strictly inside run `k`. */
  lemma {:induction false} GapHasNoSeparator(split: seq<nat>, n: nat, k: nat, p: nat)
    requires Increasing(split)
    requires k <= |split|
    requires RunStart(split, k) <= p < RunEnd(split, n, k)
    ensures p !in split
  {
    forall j | 0 <= j < |split|
      ensures split[j] != p
    {
      if j < k {
        assert split[j] <= split[k - 1];
      } else {
        assert split[k] <= split[j];
      }
    }
  }

  /** Every non-separator row lies in some run. */
  lemma {:induction false} RunsCoverClearRows<T>(s: seq<T>, sep: T -> bool, p: nat)
    requires p < |s| && !sep(s[p])
    ensures exists k :: 0 <= k < |Runs(s, sep)| && Runs(s, sep)[k].lo <= p < Runs(s, sep)[k].hi
  {
    RunCoverFrom(s, sep, p, 0);
  }

  lemma {:induction false} RunCoverFrom<T>(s: seq<T>, sep: T -> bool, p: nat, k: nat)
    requires p < |s| && !sep(s[p])
    requires k < |Runs(s, sep)| && Runs(s, sep)[k].lo <= p
    ensures exists k' :: k <= k' < |Runs(s, sep)| && Runs(s, sep)[k'].lo <= p < Runs(s, sep)[k'].hi
    decreases |s| - Runs(s, sep)[k].lo
  {
    var r := Runs(s, sep);
    if p >= r[k].hi {
      assert k < |r| - 1;
      assert p != r[k].hi;
      RunCoverFrom(s, sep, p, k + 1);
    }
  }

  /** The rows of `s` cut out by each span, in span order. */
  function Pieces<T>(s: seq<T>, spans: seq<Span>): (r: seq<seq<T>>)
    requires forall k :: 0 <= k < |spans| ==> spans[k].lo <= spans[k].hi <= |s|
    ensures |r| == |spans|
  {
    seq(|spans|, k requires 0 <= k < |spans| => s[spans[k].lo .. spans[k].hi])
  }

  /** No piece cut out by a separator-free span holds a separator. */
  lemma {:induction false} PiecesHaveNoSeparator<T>(s: seq<T>, sep: T -> bool, spans: seq<Span>)
    requires forall k :: 0 <= k < |spans| ==> spans[k].lo <= spans[k].hi <= |s|
    requires forall k, p :: 0 <= k < |spans| && spans[k].lo <= p < spans[k].hi ==> !sep(s[p])
    ensures var r := Pieces(s, spans);
      forall k, j :: 0 <= k < |r| && 0 <= j < |r[k]| ==> !sep(r[k][j])
  {
    var r := Pieces(s, spans);
    forall k, j | 0 <= k < |r| && 0 <= j < |r[k]|
      ensures !sep(r[k][j])
    {
      assert r[k][j] == s[spans[k].lo + j];
    }
  }

  /** Dropping the separator rows of a prefix that ends in a clear stretch keeps that
      stretch whole. */
  lemma {:induction false} WithoutClearStretch<T>(s: seq<T>, sep: T -> bool, a: nat, b: nat)
    requires a <= b <= |s|
    requires forall p :: a <= p < b ==> !sep(s[p])
    ensures Without(s[..b], sep) == Without(s[..a], sep) + s[a..b]
    decreases b - a
  {
    if a < b {
      WithoutClearStretch(s, sep, a, b - 1);
      PrefixOfPrefix(s, b - 1, b);
      assert s[a..b] == s[a..b - 1] + [s[b - 1]];
    } else {
      assert s[a..b] == [];
    }
  }

  /** Concatenating the runs gives back the input with its separator rows removed. */
  lemma {:induction false} RunsRebuildInput<T>(s: seq<T>, sep: T -> bool)
    ensures Flatten(Pieces(s, Runs(s, sep))) == Without(s, sep)
  {
    var r := Runs(s, sep);
    RunsRebuildPrefix(s, sep, r, |r| - 1);
    assert Pieces(s, r)[..|r|] == Pieces(s, r);
    assert s[..|s|] == s;
  }

  lemma {:induction false} RunsRebuildPrefix<T>(s: seq<T>, sep: T -> bool, r: seq<Span>, k: nat)
    requires k < |r| && r[0].lo == 0
    requires forall j :: 0 <= j < |r| ==> r[j].lo <= r[j].hi <= |s|
    requires forall j :: 0 <= j < |r| - 1 ==> r[j].hi < |s| && sep(s[r[j].hi])
    requires forall i, j {:trigger r[i], r[j]} :: 0 <= i && j == i + 1 && j < |r| ==> r[j].lo == r[i].hi + 1
    requires forall j, p :: 0 <= j < |r| && r[j].lo <= p < r[j].hi ==> !sep(s[p])
    ensures Flatten(Pieces(s, r)[..k + 1]) == Without(s[..r[k].hi], sep)
  {
    var P := Pieces(s, r);
    if k == 0 {
      RebuildFirst(s, sep, P, r[0].hi);
    } else {
      RunsRebuildPrefix(s, sep, r, k - 1);
      var h := r[k - 1].hi;
      assert r[k].lo == h + 1;
      RebuildStep(s, sep, P, k, h, r[k].hi);
    }
  }

  /** The first run, which starts at row 0, rebuilds the rows before its end. */
  lemma {:induction false} RebuildFirst<T>(s: seq<T>, sep: T -> bool, P: seq<seq<T>>, hi: nat)
    requires 0 < |P| && hi <= |s| && P[0] == s[..hi]
    requires forall p :: 0 <= p < hi ==> !sep(s[p])
    ensures Flatten(P[..1]) == Without(s[..hi], sep)
  {
    WithoutClearStretch(s, sep, 0, hi);
    assert s[..0] == [];
    assert P[..1][..0] == [];
    assert Flatten(P[..1]) == Flatten(P[..1][..0]) + P[0];
    assert s[0..hi] == s[..hi];
  }

  /** One more run after a separator row extends the rebuilt prefix. */
  lemma {:induction false} RebuildStep<T>(s: seq<T>, sep: T -> bool, P: seq<seq<T>>, k: nat, h: nat, hi: nat)
    requires k < |P| && h < hi <= |s| && sep(s[h])
    requires Flatten(P[..k]) == Without(s[..h], sep)
    requires P[k] == s[h + 1..hi]
    requires forall p :: h + 1 <= p < hi ==> !sep(s[p])
    ensures Flatten(P[..k + 1]) == Without(s[..hi], sep)
  {
    PrefixOfPrefix(P, k, k + 1);
    assert Flatten(P[..k + 1]) == Flatten(P[..k]) + P[k];
    WithoutSkipsSeparator(s, sep, h);
    WithoutClearStretch(s, sep, h + 1, hi);
  }

  lemma {:induction false} PrefixOfPrefix<T>(s: seq<T>, a: nat, b: nat)
    requires a <= b <= |s|
    ensures s[..b][..a] == s[..a]
  {
  }

  /** A separator row contributes nothing. */
  lemma {:induction false} WithoutSkipsSeparator<T>(s: seq<T>, sep: T -> bool, h: nat)
    requires h < |s| && sep(s[h])
    ensures Without(s[..h + 1], sep) == Without(s[..h], sep)
  {
    PrefixOfPrefix(s, h, h + 1);
  }

  /** A span holding at least one row. */
  predicate Filled(x: Span) {
    x.lo < x.hi
  }

  /** A span holding no row. */
  predicate Unfilled(x: Span) {
    !Filled(x)
  }

  /** The entries of `s` at the positions `idx`, in that order (numpy's `s[idx]`). */
  function Select<T>(s: seq<T>, idx: seq<nat>): (r: seq<T>)
    requires forall k :: 0 <= k < |idx| ==> idx[k] < |s|
    ensures |r| == |idx| && forall k :: 0 <= k < |idx| ==> r[k] == s[idx[k]]
  {
    seq(|idx|, k requires 0 <= k < |idx| => s[idx[k]])
  }

  /** The runs that hold at least one row, picked at the positions `Find` reports for
      `Filled` (`NonEmptyIsFilter` shows that this drops exactly the empty spans). */
  function NonEmpty(spans: seq<Span>): (r: seq<Span>)
    ensures |r| == |Find(spans, Filled)|
    ensures forall k :: 0 <= k < |r| ==> r[k] == spans[Find(spans, Filled)[k]]
  {
    Select(spans, Find(spans, Filled))
  }

  /** Picking the spans at the positions of the filled ones is dropping the empty ones:
      the non-empty runs are exactly the spans that remain, in their original order. */
  lemma {:induction false} NonEmptyIsFilter(spans: seq<Span>)
    ensures NonEmpty(spans) == Without(spans, Unfilled)
  {
    SelectFilledIsFilter(spans);
  }

  lemma {:induction false} SelectFilledIsFilter(spans: seq<Span>)
    ensures Select(spans, Find(spans, Filled)) == Without(spans, Unfilled)
  {
    if |spans| > 0 {
      var n := |spans| - 1;
      var init := spans[..n];
      SelectFilledIsFilter(init);
      var a := Find(init, Filled);
      var tail := if Filled(spans[n]) then [n] else [];
      assert Find(spans, Filled) == a + tail;
      var r := Select(spans, a + tail);
      var r0 := Select(init, a);
      assert r[..|a|] == r0 by {
        forall k | 0 <= k < |a| ensures r[k] == r0[k] {
          assert init[a[k]] == spans[a[k]];
        }
      }
      assert r == r[..|a|] + r[|a|..];
      assert r[|a|..] == if Filled(spans[n]) then [spans[n]] else [];
    }
  }

  /** `NonEmpty` of a list with one more span at the end. */
  lemma {:induction false} NonEmptySnoc(spans: seq<Span>)
    requires |spans| > 0
    ensures NonEmpty(spans) == NonEmpty(spans[..|spans| - 1]) + (if Filled(spans[|spans| - 1]) then [spans[|spans| - 1]] else [])
  {
    var init := spans[..|spans| - 1];
    var idx0 := Find(init, Filled);
    assert Find(spans, Filled) == idx0 + (if Filled(spans[|spans| - 1]) then [|spans| - 1] else []);
    var r := NonEmpty(spans);
    var r0 := NonEmpty(init);
    forall k | 0 <= k < |r0|
      ensures r[k] == r0[k]
    {
      assert r0[k] == init[idx0[k]];
    }
  }

  /** Keeping only the non-empty runs preserves their left-to-right separation. */
  lemma {:induction false} NonEmptyKeepsOrder(spans: seq<Span>)
    requires forall i, j :: 0 <= i < j < |spans| ==> spans[i].hi < spans[j].lo
    ensures forall i, j :: 0 <= i < j < |NonEmpty(spans)| ==> NonEmpty(spans)[i].hi < NonEmpty(spans)[j].lo
  {
    var idx := Find(spans, Filled);
    var r := NonEmpty(spans);
    forall i, j | 0 <= i < j < |r|
      ensures r[i].hi < r[j].lo
    {
      assert idx[i] < idx[j];
    }
  }

  /** The spans `NonEmpty` keeps lie within `s` when all of `spans` do. */
  lemma {:induction false} NonEmptyInBounds<T>(s: seq<T>, spans: seq<Span>)
    requires forall k :: 0 <= k < |spans| ==> spans[k].lo <= spans[k].hi <= |s|
    ensures forall k :: 0 <= k < |NonEmpty(spans)| ==> NonEmpty(spans)[k].lo <= NonEmpty(spans)[k].hi <= |s|
  {
  }

  /** Dropping empty runs does not change what they cut out when concatenated. */
  lemma {:induction false} NonEmptyPiecesSame<T>(s: seq<T>, spans: seq<Span>)
    requires forall k :: 0 <= k < |spans| ==> spans[k].lo <= spans[k].hi <= |s|
    ensures forall k :: 0 <= k < |NonEmpty(spans)| ==> NonEmpty(spans)[k].lo <= NonEmpty(spans)[k].hi <= |s|
    ensures Flatten(Pieces(s, NonEmpty(spans))) == Flatten(Pieces(s, spans))
  {
    NonEmptyInBounds(s, spans);
    if |spans| > 0 {
      var init := spans[..|spans| - 1];
      NonEmptyPiecesSame(s, init);
      assert init + [spans[|spans| - 1]] == spans;
      NonEmptyInBounds(s, spans);
      NonEmptyPiecesStep(s, init, spans[|spans| - 1]);
    } else {
      assert |Pieces(s, NonEmpty(spans))| == 0 == |Pieces(s, spans)|;
    }
  }

  lemma {:induction false} NonEmptyPiecesStep<T>(s: seq<T>, init: seq<Span>, last: Span)
    requires forall k :: 0 <= k < |init| ==> init[k].lo <= init[k].hi <= |s|
    requires last.lo <= last.hi <= |s|
    requires forall k :: 0 <= k < |NonEmpty(init)| ==> NonEmpty(init)[k].lo <= NonEmpty(init)[k].hi <= |s|
    requires forall k :: 0 <= k < |NonEmpty(init + [last])| ==> NonEmpty(init + [last])[k].lo <= NonEmpty(init + [last])[k].hi <= |s|
    requires Flatten(Pieces(s, NonEmpty(init))) == Flatten(Pieces(s, init))
    ensures Flatten(Pieces(s, NonEmpty(init + [last]))) == Flatten(Pieces(s, init + [last]))
  {
    var spans := init + [last];
    assert spans[..|spans| - 1] == init;
    NonEmptySnoc(spans);
    PiecesSnoc(s, init, last);
    if Filled(last) {
      PiecesStepFilled(s, init, last, NonEmpty(init), NonEmpty(spans));
    } else {
      PiecesStepEmpty(s, init, last, NonEmpty(init), NonEmpty(spans));
    }
  }

  /** A filled last span adds its piece to both sides. */
  lemma {:induction false} PiecesStepFilled<T>(s: seq<T>, init: seq<Span>, last: Span, kept: seq<Span>, kept': seq<Span>)
    requires forall k :: 0 <= k < |init| ==> init[k].lo <= init[k].hi <= |s|
    requires forall k :: 0 <= k < |kept| ==> kept[k].lo <= kept[k].hi <= |s|
    requires last.lo <= last.hi <= |s| && kept' == kept + [last]
    requires Flatten(Pieces(s, kept)) == Flatten(Pieces(s, init))
    requires Flatten(Pieces(s, init + [last])) == Flatten(Pieces(s, init)) + s[last.lo .. last.hi]
    ensures forall k :: 0 <= k < |kept'| ==> kept'[k].lo <= kept'[k].hi <= |s|
    ensures Flatten(Pieces(s, kept')) == Flatten(Pieces(s, init + [last]))
  {
    PiecesSnoc(s, kept, last);
  }

  /** An empty last span adds nothing to either side. */
  lemma {:induction false} PiecesStepEmpty<T>(s: seq<T>, init: seq<Span>, last: Span, kept: seq<Span>, kept': seq<Span>)
    requires forall k :: 0 <= k < |init| ==> init[k].lo <= init[k].hi <= |s|
    requires forall k :: 0 <= k < |kept| ==> kept[k].lo <= kept[k].hi <= |s|
    requires last.lo <= last.hi <= |s| && !Filled(last) && kept' == kept
    requires Flatten(Pieces(s, kept)) == Flatten(Pieces(s, init))
    requires Flatten(Pieces(s, init + [last])) == Flatten(Pieces(s, init)) + s[last.lo .. last.hi]
    ensures Flatten(Pieces(s, kept')) == Flatten(Pieces(s, init + [last]))
  {
    assert s[last.lo .. last.hi] == [];
    assert Flatten(Pieces(s, init)) + [] == Flatten(Pieces(s, init));
  }

  /** The pieces of a span list with one more span at the end. */
  lemma {:induction false} PiecesSnoc<T>(s: seq<T>, spans: seq<Span>, x: Span)
    requires forall k :: 0 <= k < |spans| ==> spans[k].lo <= spans[k].hi <= |s|
    requires x.lo <= x.hi <= |s|
    ensures Flatten(Pieces(s, spans + [x])) == Flatten(Pieces(s, spans)) + s[x.lo .. x.hi]
  {
    var P := Pieces(s, spans + [x]);
    assert P[..|spans|] == Pieces(s, spans);
  }

  /** The non-empty runs among a list of runs that tile `s` between its separators: each
      is non-empty, holds no separator and is bounded on both sides by a separator or an
      end of `s`. */
  lemma {:induction false} NonEmptyRunsAreMaximal<T>(s: seq<T>, sep: T -> bool, runs: seq<Span>)
    requires |runs| > 0 && runs[0].lo == 0 && runs[|runs| - 1].hi == |s|
    requires forall k :: 0 <= k < |runs| ==> runs[k].lo <= runs[k].hi <= |s|
    requires forall k :: 0 <= k < |runs| - 1 ==> runs[k].hi < |s| && sep(s[runs[k].hi])
    requires forall i, j {:trigger runs[i], runs[j]} :: 0 <= i && j == i + 1 && j < |runs| ==> runs[j].lo == runs[i].hi + 1
    requires forall k, p :: 0 <= k < |runs| && runs[k].lo <= p < runs[k].hi ==> !sep(s[p])
    ensures var r := NonEmpty(runs);
      forall k :: 0 <= k < |r| ==>
        && r[k].lo < r[k].hi <= |s|
        && (r[k].lo == 0 || sep(s[r[k].lo - 1]))
        && (r[k].hi == |s| || sep(s[r[k].hi]))
    ensures var r := NonEmpty(runs);
      forall k, p :: 0 <= k < |r| && r[k].lo <= p < r[k].hi ==> !sep(s[p])
  {
    RunsStartAfterSeparators(s, sep, runs);
    var idx := Find(runs, Filled);
    var r := NonEmpty(runs);
    forall k | 0 <= k < |r|
      ensures r[k].lo < r[k].hi <= |s|
      ensures forall p :: r[k].lo <= p < r[k].hi ==> !sep(s[p])
      ensures r[k].lo == 0 || sep(s[r[k].lo - 1])
      ensures r[k].hi == |s| || sep(s[r[k].hi])
    {
      assert r[k] == runs[idx[k]];
    }
  }

  /** A row inside a non-empty span lies inside a span that `NonEmpty` keeps. */
  lemma {:induction false} NonEmptyCovers(spans: seq<Span>, k: int, p: int)
    requires 0 <= k < |spans| && spans[k].lo <= p < spans[k].hi
    ensures exists j :: 0 <= j < |NonEmpty(spans)| && NonEmpty(spans)[j].lo <= p < NonEmpty(spans)[j].hi
  {
    var idx := Find(spans, Filled);
    assert k in idx;
    var j :| 0 <= j < |idx| && idx[j] == k;
    assert NonEmpty(spans)[j] == spans[k];
  }

  /** The prefix of `ss` one list longer flattens to one more list at the end. */
  lemma {:induction false} FlattenPrefixStep<T>(ss: seq<seq<T>>, i: nat)
    requires i < |ss|
    ensures Flatten(ss[..i + 1]) == Flatten(ss[..i]) + ss[i]
  {
    assert ss[..i + 1][..i] == ss[..i];
  }

  /** Element `j` of list `i` sits in the flattened list right after the lists before
      it. */
  lemma {:induction false} FlattenAt<T>(ss: seq<seq<T>>, i: nat, j: nat)
    requires i < |ss| && j < |ss[i]|
    ensures |Flatten(ss[..i])| + j < |Flatten(ss)|
    ensures Flatten(ss)[|Flatten(ss[..i])| + j] == ss[i][j]
    decreases |ss|
  {
    var n := |ss| - 1;
    assert ss[..n + 1] == ss;
    FlattenPrefixStep(ss, n);
    if i < n {
      FlattenAt(ss[..n], i, j);
      assert ss[..n][..i] == ss[..i];
    }
  }

  /** Two equally long arrays cut by the same spans: the leading pieces of either, laid
      end to end, are equally long, so rows of the same position stay side by side. */
  lemma {:induction false} PiecesLineUp<A, B>(a: seq<A>, b: seq<B>, spans: seq<Span>, k: nat)
    requires |a| == |b| && k <= |spans|
    requires forall i :: 0 <= i < |spans| ==> spans[i].lo <= spans[i].hi <= |a|
    ensures |Flatten(Pieces(a, spans)[..k])| == |Flatten(Pieces(b, spans)[..k])|
  {
    if k > 0 {
      PiecesLineUp(a, b, spans, k - 1);
      FlattenPrefixStep(Pieces(a, spans), k - 1);
      FlattenPrefixStep(Pieces(b, spans), k - 1);
    }
  }

  /** Where row `p` of span `k` lands once the pieces are laid end to end. */
  function Landing<T>(s: seq<T>, spans: seq<Span>, k: nat, p: int): int
    requires k < |spans| && forall i :: 0 <= i < |spans| ==> spans[i].lo <= spans[i].hi <= |s|
  {
    |Flatten(Pieces(s, spans)[..k])| + (p - spans[k].lo)
  }

  /** Two equally long arrays cut by the same spans and laid end to end: the pieces are
      equally long in all, and each row inside a span lands at one position in both. */
  lemma {:induction false} PiecesPairUp<A, B>(a: seq<A>, b: seq<B>, spans: seq<Span>)
    requires |a| == |b|
    requires forall i :: 0 <= i < |spans| ==> spans[i].lo <= spans[i].hi <= |a|
    ensures |Flatten(Pieces(a, spans))| == |Flatten(Pieces(b, spans))|
    ensures forall k: nat, p :: k < |spans| && spans[k].lo <= p < spans[k].hi ==>
              var q := Landing(a, spans, k, p);
              0 <= q < |Flatten(Pieces(a, spans))| && Flatten(Pieces(a, spans))[q] == a[p] && Flatten(Pieces(b, spans))[q] == b[p]
  {
    PiecesLineUp(a, b, spans, |spans|);
    assert Pieces(a, spans)[..|spans|] == Pieces(a, spans);
    assert Pieces(b, spans)[..|spans|] == Pieces(b, spans);
    forall k: nat, p | k < |spans| && spans[k].lo <= p < spans[k].hi
      ensures var q := Landing(a, spans, k, p);
        0 <= q < |Flatten(Pieces(a, spans))| && Flatten(Pieces(a, spans))[q] == a[p] && Flatten(Pieces(b, spans))[q] == b[p]
    {
      PieceLands(a, b, spans, k, p);
    }
  }

  /** Row `p` of span `k` lands at `Landing` in both arrays' laid-out pieces. */
  lemma {:induction false} PieceLands<A, B>(a: seq<A>, b: seq<B>, spans: seq<Span>, k: nat, p: int)
    requires |a| == |b| && k < |spans| && spans[k].lo <= p < spans[k].hi
    requires forall i :: 0 <= i < |spans| ==> spans[i].lo <= spans[i].hi <= |a|
    ensures var q := Landing(a, spans, k, p);
      && 0 <= q < |Flatten(Pieces(a, spans))| && q < |Flatten(Pieces(b, spans))|
      && Flatten(Pieces(a, spans))[q] == a[p] && Flatten(Pieces(b, spans))[q] == b[p]
  {
    var j := p - spans[k].lo;
    FlattenAt(Pieces(a, spans), k, j);
    FlattenAt(Pieces(b, spans), k, j);
    PiecesLineUp(a, b, spans, k);
  }

  /** Every element of a flattened list comes from one of the lists. */
  lemma {:induction false} FlattenMember<T>(ss: seq<seq<T>>, q: nat)
    requires q < |Flatten(ss)|
    ensures exists i, j :: 0 <= i < |ss| && 0 <= j < |ss[i]| && Flatten(ss)[q] == ss[i][j]
    decreases |ss|
  {
    var n := |ss| - 1;
    assert ss[..n + 1] == ss;
    FlattenPrefixStep(ss, n);
    if q < |Flatten(ss[..n])| {
      FlattenMember(ss[..n], q);
      var i, j :| 0 <= i < n && 0 <= j < |ss[..n][i]| && Flatten(ss[..n])[q] == ss[..n][i][j];
      assert Flatten(ss)[q] == ss[i][j];
    } else {
      assert Flatten(ss)[q] == ss[n][q - |Flatten(ss[..n])|];
    }
  }

  /** Flattening distributes over concatenation. */
  lemma {:induction false} FlattenAppend<T>(a: seq<seq<T>>, b: seq<seq<T>>)
    ensures Flatten(a + b) == Flatten(a) + Flatten(b)
    decreases |b|
  {
    if |b| > 0 {
      FlattenAppend(a, b[..|b| - 1]);
      assert (a + b)[..|a + b| - 1] == a + b[..|b| - 1];
    } else {
      assert a + b == a;
    }
  }
}
