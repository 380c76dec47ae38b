/** The numbered file names of `BasePlot.__init__` (nutils/plot.py): with `ndigits`
    digits and no index given, the next index is one past the largest number already
    used by a file named `name<number>.<extension>` in the dump directory (at least 1),
    written in decimal and padded with zeros to `ndigits` places. The directory listing
    is a parameter. */
module FileIndex {
  import opened Results

  /** Why the constructor fails: `ndigits` must not be negative. */
  datatype NameError = NegativeDigits

  /** `c` is one of the digits `0` to `9`. */
  predicate IsDigit(c: char) {
    '0' <= c <= '9'
  }

  /** `str.isdigit`: a non-empty run of digits. */
  predicate IsDigits(s: string) {
    |s| > 0 && forall i :: 0 <= i < |s| ==> IsDigit(s[i])
  }

  /** The value of a single digit. */
  function DigitValue(c: char): nat
    requires IsDigit(c)
  {
    (c as int - '0' as int) as nat
  }

  /** The digit of a value below ten. */
  function Digit(d: nat): (c: char)
    requires d < 10
    ensures IsDigit(c) && DigitValue(c) == d
  {
    ('0' as int + d) as char
  }

  /** `int(num)` for a run of digits, most significant first. */
  function Value(s: string): nat
    requires forall i :: 0 <= i < |s| ==> IsDigit(s[i])
  {
    if |s| == 0 then 0 else Value(s[..|s| - 1]) * 10 + DigitValue(s[|s| - 1])
  }

  /** `str(n)`: the decimal digits of `n`, without leading zeros. */
  function Decimal(n: nat): (s: string)
    ensures IsDigits(s)
    ensures |s| > 1 ==> s[0] != '0'
  {
    if n < 10 then [Digit(n)] else Decimal(n / 10) + [Digit(n % 10)]
  }

  /** `str` and `int` undo each other. */
  lemma {:induction false} ValueOfDecimal(n: nat)
    ensures Value(Decimal(n)) == n
  {
    if n >= 10 {
      var s := Decimal(n);
      assert s[..|s| - 1] == Decimal(n / 10);
      ValueOfDecimal(n / 10);
    }
  }

  /** `s.rjust(width, fill)`: `s` behind as many copies of `fill` as it takes to reach
      `width` characters; `s` itself when it is already that long. */
  function RJust(s: string, width: int, fill: char): (r: string)
    ensures |r| == if |s| < width then width else |s|
    ensures r[|r| - |s|..] == s
    ensures forall i :: 0 <= i < |r| - |s| ==> r[i] == fill
  {
    if |s| >= width then s else [fill] + RJust(s, width - 1, fill)
  }

  /** Leading zeros do not change the value of a run of digits. */
  lemma {:induction false} LeadingZeros(z: string, s: string)
    requires forall i :: 0 <= i < |z| ==> z[i] == '0'
    requires forall i :: 0 <= i < |s| ==> IsDigit(s[i])
    ensures forall i :: 0 <= i < |z + s| ==> IsDigit((z + s)[i])
    ensures Value(z + s) == Value(s)
  {
    if |s| == 0 {
      if |z| > 0 {
        assert (z + s)[..|z| - 1] == z[..|z| - 1] + s;
        LeadingZeros(z[..|z| - 1], s);
      }
      assert z + s == z;
    } else {
      assert (z + s)[..|z + s| - 1] == z + s[..|s| - 1];
      LeadingZeros(z, s[..|s| - 1]);
    }
  }

  /** `s.split('.')[0]`: everything before the first dot. */
  function BeforeDot(s: string): (r: string)
    ensures |r| <= |s| && r == s[..|r|]
    ensures forall i :: 0 <= i < |r| ==> r[i] != '.'
    ensures |r| < |s| ==> s[|r|] == '.'
  {
    if |s| == 0 || s[0] == '.' then [] else [s[0]] + BeforeDot(s[1..])
  }

  /** The number a file named `name<digits>` or `name<digits>.<extension>` carries, if it
      is one. */
  function Number(name: string, filename: string): (r: Option<nat>)
  {
    if |name| <= |filename| && filename[..|name|] == name then
      var num := BeforeDot(filename[|name|..]);
      if IsDigits(num) then Some(Value(num)) else None
    else None
  }

  /** The next free index: one past the largest number used, and at least 1. It is greater
      than every number in use, and it is either 1 or one past a number in use. */
  function NextIndex(name: string, files: seq<string>): (r: nat)
    ensures r >= 1
    ensures forall f :: f in files && Number(name, f).Some? ==> Number(name, f).value < r
    ensures r == 1 || exists f :: f in files && Number(name, f) == Some(r - 1)
  {
    if |files| == 0 then 1
    else
      var init := NextIndex(name, files[..|files| - 1]);
      var last := files[|files| - 1];
      assert forall f :: f in files ==> f in files[..|files| - 1] || f == last;
      var num := Number(name, last);
      if num.Some? && num.value + 1 > init then num.value + 1 else init
  }

  /** The name of the plot: `name`, followed with `ndigits` digits by `index`, or by the
      next free index when none is given, padded with zeros. The suffix is all digits,
      `ndigits` long unless the index needs more, and reads back as the index. */
  function PlotName(name: string, ndigits: int, index: Option<nat>, files: seq<string>): (r: Result<string, NameError>)
    ensures r.Err? <==> ndigits < 0
    ensures ndigits == 0 ==> r == Ok(name)
    ensures ndigits > 0 ==> r.Ok? && |r.value| >= |name| + ndigits && r.value[..|name|] == name
    ensures ndigits > 0 ==>
      var i := if index.Some? then index.value else NextIndex(name, files);
      var width := if |Decimal(i)| > ndigits then |Decimal(i)| else ndigits;
      && r.Ok? && |r.value| == |name| + width && r.value[..|name|] == name
      && IsDigits(r.value[|name|..]) && Value(r.value[|name|..]) == i
  {
    if ndigits < 0 then Err(NegativeDigits)
    else if ndigits == 0 then Ok(name)
    else
      var i := if index.Some? then index.value else NextIndex(name, files);
      PaddedIndex(name, i, ndigits);
      Ok(name + RJust(Decimal(i), ndigits, '0'))
  }

  /** `name` followed by `i` padded with zeros to `ndigits` digits: the suffix is all
      digits, `ndigits` long unless `i` needs more, and reads back as `i`. */
  lemma {:induction false} PaddedIndex(name: string, i: nat, ndigits: int)
    requires ndigits > 0
    ensures var full := name + RJust(Decimal(i), ndigits, '0');
      var width := if |Decimal(i)| > ndigits then |Decimal(i)| else ndigits;
      && |full| == |name| + width && full[..|name|] == name
      && IsDigits(full[|name|..]) && Value(full[|name|..]) == i
  {
    var d := Decimal(i);
    var pad := RJust(d, ndigits, '0');
    assert pad == pad[..|pad| - |d|] + d;
    LeadingZeros(pad[..|pad| - |d|], d);
    ValueOfDecimal(i);
    assert (name + pad)[|name|..] == pad;
  }

  /** With digits and no index given, the suffix of the new name is the next free index,
      padded, and no file in the directory is the new name or the new name with an
      extension: the new name is fresh. */
  lemma {:induction false} PlotNameIsFresh(name: string, ndigits: int, files: seq<string>)
    requires ndigits > 0
    ensures var r := PlotName(name, ndigits, None, files);
      && r.Ok?
      && Number(name, r.value) == Some(NextIndex(name, files))
      && forall f :: f in files ==> !(|r.value| <= |f| && f[..|r.value|] == r.value && (|f| == |r.value| || f[|r.value|] == '.'))
  {
    var idx := NextIndex(name, files);
    var d := Decimal(idx);
    var pad := RJust(d, ndigits, '0');
    var full := name + pad;
    PaddedIndex(name, idx, ndigits);
    assert full[|name|..] == pad;
    NumberOfPadded(name, pad, full);
    forall f | f in files
      ensures !(|full| <= |f| && f[..|full|] == full && (|f| == |full| || f[|full|] == '.'))
    {
      if |full| <= |f| && f[..|full|] == full && (|f| == |full| || f[|full|] == '.') {
        NumberOfExtended(name, pad, full, f);
        assert false;
      }
    }
  }

  /** A name followed by digits carries the value of those digits. */
  lemma {:induction false} NumberOfPadded(name: string, pad: string, full: string)
    requires IsDigits(pad) && full == name + pad
    ensures Number(name, full) == Some(Value(pad))
  {
    assert full[..|name|] == name && full[|name|..] == pad;
    NoDotBefore(pad, pad);
  }

  /** A name followed by digits and then nothing or an extension carries the value of
      those digits. */
  lemma {:induction false} NumberOfExtended(name: string, pad: string, full: string, f: string)
    requires IsDigits(pad) && full == name + pad
    requires |full| <= |f| && f[..|full|] == full && (|f| == |full| || f[|full|] == '.')
    ensures Number(name, f) == Some(Value(pad))
  {
    assert f[..|name|] == name;
    assert f[|name|..][..|pad|] == f[..|full|][|name|..];
    assert f[|name|..][..|pad|] == pad;
    NoDotBefore(f[|name|..], pad);
  }

  /** A run without dots, followed by nothing or by a dot, is what comes before the
      first dot. */
  lemma {:induction false} NoDotBefore(s: string, p: string)
    requires |p| <= |s| && s[..|p|] == p && (|s| == |p| || s[|p|] == '.')
    requires forall i :: 0 <= i < |p| ==> p[i] != '.'
    ensures BeforeDot(s) == p
  {
    if |p| > 0 {
      assert s[1..][..|p| - 1] == p[1..];
      NoDotBefore(s[1..], p[1..]);
    }
  }
}
