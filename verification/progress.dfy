/** The logging helpers of log.py: the verbosity gate of `log` and the text-mode
    `ProgressBar`, which fills a line of `linewidth` columns with its title, a run of
    dashes growing with the iteration, the texts added to its end, and the elapsed time.
    Writing is modelled by returning the text written; the clock is left out (the elapsed
    time is a parameter of `Close`). */
module Progress {
  import opened Arith

  /** The levels of the helpers `error`, `warning`, `info`, `progress` and `debug`. */
  const ErrorLevel: int := 0
  const WarningLevel: int := 1
  const InfoLevel: int := 2
  const ProgressLevel: int := 3
  const DebugLevel: int := 4

  /** `log`: the text written for a message at `level` when the `verbose` property is
      `verbosity` — nothing when the verbosity is below the level, the message and its
      end otherwise. */
  function Log(verbosity: int, level: int, msg: string, end: string): (out: string)
    ensures verbosity < level ==> out == []
    ensures verbosity >= level ==> out == msg + end
  {
    if verbosity < level then [] else msg + end
  }

  /** A message that gets through at some level gets through at every lower level. */
  lemma {:induction false} LogLevelsNest(verbosity: int, level: int, lower: int, msg: string, end: string, msg': string, end': string)
    requires lower <= level && |Log(verbosity, level, msg, end)| > 0
    ensures Log(verbosity, lower, msg', end') == msg' + end'
  {
  }

  /** Raising the verbosity never hides a message. */
  lemma {:induction false} LogMonotone(verbosity: int, more: int, level: int, msg: string, end: string)
    requires verbosity <= more
    ensures |Log(verbosity, level, msg, end)| <= |Log(more, level, msg, end)|
    ensures |Log(verbosity, level, msg, end)| > 0 ==> Log(more, level, msg, end) == Log(verbosity, level, msg, end)
  {
  }

  /** `'-' * k`: `k` dashes, and none when `k` is not positive. */
  function Dashes(k: int): (r: string)
    ensures |r| == if k > 0 then k else 0
    ensures forall i :: 0 <= i < |r| ==> r[i] == '-'
  {
    if k <= 0 then [] else Dashes(k - 1) + "-"
  }

  /** Two runs of dashes make one run. */
  lemma {:induction false} DashesAdd(a: nat, b: nat)
    ensures Dashes(a) + Dashes(b) == Dashes(a + b)
  {
    var l, r := Dashes(a) + Dashes(b), Dashes(a + b);
    assert |l| == |r|;
    forall i | 0 <= i < |l| ensures l[i] == r[i] {
      if i < a {
        assert l[i] == Dashes(a)[i];
      } else {
        assert l[i] == Dashes(b)[i - a];
      }
    }
  }

  /** A progress bar: `x` dashes drawn so far, `length` columns left for dashes on the
      line, and the text to print after the bar. */
  datatype Bar = Bar(x: int, length: int, endtext: string)

  /** What an operation leaves: the bar and the text it writes. */
  datatype Printed = Printed(bar: Bar, out: string)

  /** The constructor: no dashes yet, the whole `linewidth` property left for them. */
  function NewBar(linewidth: int): (b: Bar)
    ensures b.x == 0 && b.length == linewidth && b.endtext == []
  {
    Bar(0, linewidth, [])
  }

  /** `add`: write `text` and a blank at the progress level; they take `len(text) + 1`
      columns from the bar. */
  function Add(b: Bar, text: string, verbosity: int): (r: Printed)
    ensures r.bar.length == b.length - (|text| + 1)
    ensures r.bar.x == b.x && r.bar.endtext == b.endtext
    ensures verbosity >= ProgressLevel ==> r.out == text + " "
    ensures verbosity < ProgressLevel ==> r.out == []
  {
    Printed(b.(length := b.length - (|text| + 1)), Log(verbosity, ProgressLevel, text + " ", ""))
  }

  /** `add_to_end`: keep ` text` for after the bar; it takes `len(text) + 1` columns from
      the bar and writes nothing now. */
  function AddToEnd(b: Bar, text: string): (r: Bar)
    ensures r.length == b.length - (|text| + 1)
    ensures r.endtext == b.endtext + " " + text
    ensures r.x == b.x
  {
    b.(length := b.length - (|text| + 1), endtext := b.endtext + " " + text)
  }

  /** The position the bar should reach after item `i` of `n`: `(i + 1) * length // (n + 1)`.
      Python's `//` rounds down; with the positive divisor `n + 1` so does Dafny's `/`. */
  function Target(b: Bar, i: int, n: nat): int {
    ((i + 1) * b.length) / (n + 1)
  }

  /** `update`: when the target lies beyond the dashes drawn and within the line, draw
      the missing dashes and move there; otherwise change nothing and write nothing. */
  function Update(b: Bar, i: int, n: nat, verbosity: int): (r: Printed)
    ensures b.x < Target(b, i, n) <= b.length ==> r.bar == b.(x := Target(b, i, n))
    ensures !(b.x < Target(b, i, n) <= b.length) ==> r.bar == b && r.out == []
    ensures verbosity >= ProgressLevel ==> r.out == Dashes(r.bar.x - b.x)
    ensures verbosity < ProgressLevel ==> r.out == []
    ensures r.bar.length == b.length && r.bar.endtext == b.endtext
  {
    var x := Target(b, i, n);
    if b.x < x <= b.length then Printed(b.(x := x), Log(verbosity, ProgressLevel, Dashes(x - b.x), ""))
    else Printed(b, [])
  }

  /** The target of item `i` of `n` never passes the end of the line, and stays short of
      it while there is room, so the last dash is left to `Close`. */
  lemma {:induction false} TargetBelowLength(b: Bar, i: nat, n: nat)
    requires i < n && b.length >= 0
    ensures Target(b, i, n) <= b.length
    ensures b.length > 0 ==> Target(b, i, n) < b.length
  {
    var q := Target(b, i, n);
    var d := n + 1;
    assert (i + 1) * b.length <= d * b.length by { MulMono(i + 1, d, b.length); }
    assert q * d <= (i + 1) * b.length;
    if b.length > 0 {
      assert (i + 1) * b.length < d * b.length by { MulLt(i + 1, d, b.length); }
      if q >= b.length {
        MulMono(b.length, q, d);
        assert false;
      }
    } else if q > b.length {
      MulLt(b.length, q, d);
      assert false;
    }
  }

  /** The targets of successive items never go back. */
  lemma {:induction false} TargetMono(b: Bar, i: nat, n: nat)
    requires b.length >= 0
    ensures Target(b, i, n) <= Target(b, i + 1, n)
  {
    DivMono((i + 1) * b.length, (i + 2) * b.length, n + 1);
  }

  /** One update per item, then the item. */
  datatype Tick<T> = Tick(out: string, item: T)

  /** A run of `bar`: the bar after it and what each step wrote with the item it yielded. */
  datatype Run<T> = Run(bar: Bar, ticks: seq<Tick<T>>)

  /** Everything the steps wrote, in order. */
  function Written<T>(ticks: seq<Tick<T>>): string {
    if |ticks| == 0 then [] else Written(ticks[..|ticks| - 1]) + ticks[|ticks| - 1].out
  }

  /** `bar`: before yielding item `i` it updates the bar with `i` of `n`. The items are
      yielded unchanged and in order, the dashes only grow and never pass the end of the
      line, and together the steps write exactly the dashes the bar gained. */
  function Iterate<T>(b: Bar, items: seq<T>, n: nat, verbosity: int): (r: Run<T>)
    ensures |r.ticks| == |items| && forall i :: 0 <= i < |items| ==> r.ticks[i].item == items[i]
    ensures r.bar.length == b.length && r.bar.endtext == b.endtext
    ensures b.x <= r.bar.x
    ensures b.x <= b.length ==> r.bar.x <= b.length
    ensures verbosity >= ProgressLevel ==> Written(r.ticks) == Dashes(r.bar.x - b.x)
    ensures verbosity < ProgressLevel ==> Written(r.ticks) == []
  {
    if |items| == 0 then Run(b, [])
    else
      var k := |items| - 1;
      var r0 := Iterate(b, items[..k], n, verbosity);
      var u := Update(r0.bar, k, n, verbosity);
      var ticks := r0.ticks + [Tick(u.out, items[k])];
      assert ticks[..k] == r0.ticks;
      DashesAdd(r0.bar.x - b.x, u.bar.x - r0.bar.x);
      Run(u.bar, ticks)
  }

  /** `bar` over `n` items with `n` left at `len(iterable)`, from a bar without dashes and
      with room on the line: it ends at the target of the last item, `n * length // (n + 1)`. */
  lemma {:induction false} IterateReachesLastTarget<T>(b: Bar, items: seq<T>, verbosity: int)
    requires b.x == 0 && b.length >= 0 && |items| > 0
    ensures Iterate(b, items, |items|, verbosity).bar.x == Target(b, |items| - 1, |items|)
  {
    IterateAt(b, items, |items|, verbosity, |items|);
    assert items[..|items|] == items;
  }

  /** After the first `k` of `n` items, a bar that started without dashes stands at the
      target of item `k - 1`. */
  lemma {:induction false} IterateAt<T>(b: Bar, items: seq<T>, n: nat, verbosity: int, k: nat)
    requires b.x == 0 && b.length >= 0 && 0 < k <= |items| <= n
    ensures Iterate(b, items[..k], n, verbosity).bar.x == Target(b, k - 1, n)
  {
    assert items[..k][..k - 1] == items[..k - 1];
    var r0 := Iterate(b, items[..k - 1], n, verbosity);
    var t := Target(b, k - 1, n);
    TargetBelowLength(b, k - 1, n);
    if k == 1 {
      assert r0.bar == b;
      assert 0 <= t by { DivMono(0, b.length, n + 1); }
    } else {
      IterateAt(b, items, n, verbosity, k - 1);
      TargetMono(b, k - 2, n);
    }
    IterateLast(b, items[..k], n, verbosity);
    UpdateLands(r0.bar, k - 1, n, verbosity);
  }

  /** The last step of `bar` is an update with the last index. */
  lemma {:induction false} IterateLast<T>(b: Bar, items: seq<T>, n: nat, verbosity: int)
    requires |items| > 0
    ensures Iterate(b, items, n, verbosity).bar
         == Update(Iterate(b, items[..|items| - 1], n, verbosity).bar, |items| - 1, n, verbosity).bar
  {
  }

  /** An update whose target lies between the dashes drawn and the end of the line
      moves the bar to the target. */
  lemma {:induction false} UpdateLands(b: Bar, i: int, n: nat, verbosity: int)
    requires b.x <= Target(b, i, n) <= b.length
    ensures Update(b, i, n, verbosity).bar.x == Target(b, i, n)
  {
  }

  /** The destructor: pad the line with the dashes still missing (none when the bar is
      full or overfull), then the end text, a blank and the elapsed time `dts`, and end
      the line. */
  function Close(b: Bar, dts: string, verbosity: int): (out: string)
    ensures verbosity >= ProgressLevel ==>
              && |out| == |Dashes(b.length - b.x)| + |b.endtext| + |dts| + 2
              && out[..|Dashes(b.length - b.x)|] == Dashes(b.length - b.x)
              && out[|Dashes(b.length - b.x)|..] == b.endtext + " " + dts + "\n"
    ensures verbosity < ProgressLevel ==> out == []
  {
    Log(verbosity, ProgressLevel, Dashes(b.length - b.x) + b.endtext + " " + dts, "\n")
  }

  /** The line so far and the bar agree: what is written, what is still to come at the
      end, and the dashes still missing fill exactly `linewidth` columns. */
  predicate Fits(b: Bar, line: string, linewidth: int) {
    0 <= b.x <= b.length && |line| + (b.length - b.x) + |b.endtext| == linewidth
  }

  /** `add` keeps the line filling `linewidth` columns, while there is room for its text. */
  lemma {:induction false} AddFits(b: Bar, line: string, linewidth: int, text: string, verbosity: int)
    requires verbosity >= ProgressLevel && Fits(b, line, linewidth) && b.x <= b.length - (|text| + 1)
    ensures Fits(Add(b, text, verbosity).bar, line + Add(b, text, verbosity).out, linewidth)
  {
  }

  /** `add_to_end` keeps the line filling `linewidth` columns, while there is room for its
      text. */
  lemma {:induction false} AddToEndFits(b: Bar, line: string, linewidth: int, text: string)
    requires Fits(b, line, linewidth) && b.x <= b.length - (|text| + 1)
    ensures Fits(AddToEnd(b, text), line, linewidth)
  {
  }

  /** `update` keeps the line filling `linewidth` columns. */
  lemma {:induction false} UpdateFits(b: Bar, line: string, linewidth: int, i: int, n: nat, verbosity: int)
    requires verbosity >= ProgressLevel && Fits(b, line, linewidth)
    ensures Fits(Update(b, i, n, verbosity).bar, line + Update(b, i, n, verbosity).out, linewidth)
  {
  }

  /** `bar` keeps the line filling `linewidth` columns. */
  lemma {:induction false} IterateFits<T>(b: Bar, line: string, linewidth: int, items: seq<T>, n: nat, verbosity: int)
    requires verbosity >= ProgressLevel && Fits(b, line, linewidth)
    ensures var r := Iterate(b, items, n, verbosity);
      Fits(r.bar, line + Written(r.ticks), linewidth)
  {
  }

  /** Closing a bar whose line fits ends a line of exactly `linewidth` columns followed by
      a blank and the elapsed time. */
  lemma {:induction false} CloseFills(b: Bar, line: string, linewidth: int, dts: string, verbosity: int)
    requires verbosity >= ProgressLevel && Fits(b, line, linewidth)
    ensures |line + Close(b, dts, verbosity)| == linewidth + |" " + dts + "\n"|
  {
  }

  /** `progressbar`: a new bar titled `title`, then `bar` over the items. */
  function ProgressBarOf<T>(items: seq<T>, title: string, linewidth: int, verbosity: int): (r: (string, Run<T>))
    ensures |r.1.ticks| == |items| && forall i :: 0 <= i < |items| ==> r.1.ticks[i].item == items[i]
  {
    var a := Add(NewBar(linewidth), title, verbosity);
    (a.out, Iterate(a.bar, items, |items|, verbosity))
  }

  /** A titled bar over all its items, closed: when the title leaves room on the line,
      the title, the dashes and the time fill exactly `linewidth` columns plus the blank,
      the time and the newline; the dashes of the bar and of the close together fill the
      columns the title leaves. */
  lemma {:induction false} ProgressLine<T>(items: seq<T>, title: string, linewidth: int, dts: string, verbosity: int)
    requires verbosity >= ProgressLevel && |title| + 1 <= linewidth
    ensures var (head, run) := ProgressBarOf(items, title, linewidth, verbosity);
      && |head + Written(run.ticks) + Close(run.bar, dts, verbosity)| == linewidth + |" " + dts + "\n"|
      && |Written(run.ticks)| + |Dashes(run.bar.length - run.bar.x)| == linewidth - (|title| + 1)
  {
    var b := NewBar(linewidth);
    assert Fits(b, [], linewidth);
    AddFits(b, [], linewidth, title, verbosity);
    var a := Add(b, title, verbosity);
    IterateFits(a.bar, a.out, linewidth, items, |items|, verbosity);
    var run := Iterate(a.bar, items, |items|, verbosity);
    CloseFills(run.bar, a.out + Written(run.ticks), linewidth, dts, verbosity);
    assert a.out + Written(run.ticks) + Close(run.bar, dts, verbosity) == (a.out + Written(run.ticks)) + Close(run.bar, dts, verbosity);
  }
}
