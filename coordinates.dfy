/**
 * The coordinate cleaner of the tree registry: strip the text, keep only
 * digits, points and minus signs, fold every point after the first into
 * the fraction, read the result as a decimal and reject it outside
 * [-90, 90]. Any failure gives `None`, which pandas stores as a missing
 * cell.
 */
module Coordinates {
  import opened Wrappers
  import opened Text
  import opened Tables

  // ---------------------------------------------------------------------
  // str.count, str.split and str.join

  /** `s.count(c)` for a one-character `c`. */
  function Count(s: string, c: char): (n: nat)
    ensures n <= |s|
    ensures n == 0 <==> c !in s
  {
    if s == [] then 0 else (if s[0] == c then 1 else 0) + Count(s[1..], c)
  }

  lemma {:induction false} CountAppend(a: string, b: string, c: char)
    ensures Count(a + b, c) == Count(a, c) + Count(b, c)
  {
    if a == [] {
      assert a + b == b;
    } else {
      CountAppend(a[1..], b, c);
      assert (a + b)[1..] == a[1..] + b;
    }
  }

  /** The position of the first `c`. */
  function FirstIndex(s: string, c: char): (i: nat)
    requires c in s
    ensures i < |s| && s[i] == c && c !in s[..i]
  {
    if s[0] == c then 0
    else
      var j := FirstIndex(s[1..], c);
      assert s[..j + 1] == [s[0]] + s[1..][..j];
      j + 1
  }

  /** A position holding `c` with no `c` before it is the first index of `c`. */
  lemma {:induction false} FirstIndexOf(s: string, c: char, k: nat)
    requires k < |s| && s[k] == c && c !in s[..k]
    ensures c in s && FirstIndex(s, c) == k
  {
    assert s[k] in s;
    if k > 0 {
      assert s[..k] == [s[0]] + s[1..][..k - 1];
      FirstIndexOf(s[1..], c, k - 1);
    }
  }

  /** `s.split(sep)`: the pieces between separators; always at least one. */
  function Split(s: string, sep: char): (parts: seq<string>)
    ensures |parts| == Count(s, sep) + 1
    ensures forall i :: 0 <= i < |parts| ==> sep !in parts[i]
  {
    if s == [] then [""]
    else
      var rest := Split(s[1..], sep);
      if s[0] == sep then [""] + rest
      else
        var parts := [[s[0]] + rest[0]] + rest[1..];
        assert forall i :: 1 <= i < |parts| ==> parts[i] == rest[i];
        parts
  }

  /** `sep.join(parts)` */
  function Join(parts: seq<string>, sep: char): string
    requires parts != []
  {
    if |parts| == 1 then parts[0] else parts[0] + [sep] + Join(parts[1..], sep)
  }

  /** `''.join(parts)` */
  function Concat(parts: seq<string>): string {
    if parts == [] then "" else parts[0] + Concat(parts[1..])
  }

  /** Joining the pieces of a split with the same separator gives back the text. */
  lemma {:induction false} JoinSplit(s: string, sep: char)
    ensures Join(Split(s, sep), sep) == s
  {
    if s != [] {
      var rest := Split(s[1..], sep);
      JoinSplit(s[1..], sep);
      if s[0] == sep {
        var parts := [""] + rest;
        assert Split(s, sep) == parts && parts[1..] == rest;
        assert Join(parts, sep) == "" + [sep] + Join(rest, sep);
        assert s == [sep] + s[1..];
      } else {
        assert Split(s, sep) == [[s[0]] + rest[0]] + rest[1..];
        JoinPrepend(s[0], rest, sep);
        assert s == [s[0]] + s[1..];
      }
    }
  }

  /** Prepending a character to the first piece prepends it to the joined text. */
  lemma JoinPrepend(c: char, parts: seq<string>, sep: char)
    requires parts != []
    ensures Join([[c] + parts[0]] + parts[1..], sep) == [c] + Join(parts, sep)
  {
    var q := [[c] + parts[0]] + parts[1..];
    if |parts| > 1 {
      assert q[1..] == parts[1..];
      assert Join(q, sep) == ([c] + parts[0]) + [sep] + Join(parts[1..], sep);
      assert Join(parts, sep) == parts[0] + [sep] + Join(parts[1..], sep);
    }
  }

  /** A split at the first separator: the text before it, then the split of the rest. */
  lemma {:induction false} SplitAtFirst(s: string, sep: char, i: nat)
    requires i < |s| && s[i] == sep && sep !in s[..i]
    ensures Split(s, sep) == [s[..i]] + Split(s[i + 1..], sep)
  {
    if i > 0 {
      assert s[0] in s[..i];
      assert s[1..][..i - 1] == s[1..i];
      assert sep !in s[1..][..i - 1];
      SplitAtFirst(s[1..], sep, i - 1);
      assert s[1..][i..] == s[i + 1..];
      assert [s[0]] + s[1..i] == s[..i];
      var rest := Split(s[1..], sep);
      assert rest[1..] == Split(s[i + 1..], sep);
    }
  }

  predicate NotPoint(c: char) { c != '.' }

  /** Concatenating the pieces of a split at '.' drops every point. */
  lemma {:induction false} ConcatSplitPoints(s: string)
    ensures Concat(Split(s, '.')) == Filter(s, NotPoint)
  {
    if s != [] {
      ConcatSplitPoints(s[1..]);
      var rest := Split(s[1..], '.');
      if s[0] == '.' {
        var parts := [""] + rest;
        assert Split(s, '.') == parts && parts[1..] == rest;
        assert Concat(parts) == "" + Concat(rest);
        assert Filter(s, NotPoint) == Filter(s[1..], NotPoint);
      } else {
        var parts := [[s[0]] + rest[0]] + rest[1..];
        assert Split(s, '.') == parts;
        assert parts[1..] == rest[1..];
        var more := Concat(rest[1..]);
        assert Concat(parts) == ([s[0]] + rest[0]) + more;
        assert Concat(rest) == rest[0] + more;
        assert Filter(s, NotPoint) == [s[0]] + Filter(s[1..], NotPoint);
        assert ([s[0]] + rest[0]) + more == [s[0]] + (rest[0] + more);
      }
    }
  }

  // ---------------------------------------------------------------------
  // The cleaning steps

  /** The characters that survive `re.sub(r'[^0-9.-]', '', ...)`. */
  predicate IsKept(c: char) { IsDigit(c) || c == '.' || c == '-' }

  /** `re.sub(r'[^0-9.-]', '', s)`: the kept characters, in their order. */
  function KeepNumeric(s: string): string {
    if s == [] then ""
    else (if IsKept(s[0]) then [s[0]] else "") + KeepNumeric(s[1..])
  }

  /** The substitution is the filter by the kept class, so it removes and never reorders. */
  lemma {:induction false} KeepNumericFilter(s: string)
    ensures KeepNumeric(s) == Filter(s, IsKept)
    ensures Subsequence(KeepNumeric(s), s)
  {
    if s != [] {
      KeepNumericFilter(s[1..]);
    }
    FilterSubsequence(s, IsKept);
  }

  /**
   * Keep the first point and fold the others into the fraction: `parts[0]`,
   * a point, then every later piece of the split, when there is more than
   * one point.
   */
  function CollapsePoints(v: string): string {
    if Count(v, '.') > 1 then
      var parts := Split(v, '.');
      parts[0] + "." + Concat(parts[1..])
    else v
  }

  /** Text without a point is left as it is. */
  lemma CollapsePointsNone(v: string)
    requires '.' !in v
    ensures CollapsePoints(v) == v
  {
  }

  /**
   * Everything before the first point is kept, then the point; after it,
   * every point is dropped.
   */
  lemma CollapsePointsParts(v: string, i: nat)
    requires '.' in v && i == FirstIndex(v, '.')
    ensures CollapsePoints(v) == v[..i] + "." + Filter(v[i + 1..], NotPoint)
    ensures v == v[..i] + "." + v[i + 1..]
    ensures '.' !in v[..i] && '.' !in Filter(v[i + 1..], NotPoint)
  {
    var head, tail := v[..i], v[i + 1..];
    assert v == head + "." + tail by {
      assert v == v[..i] + [v[i]] + v[i + 1..];
    }
    if Count(v, '.') > 1 {
      SplitAtFirst(v, '.', i);
      ConcatSplitPoints(tail);
      var parts := Split(v, '.');
      assert parts[0] == head && parts[1..] == Split(tail, '.');
    } else {
      CountAppend(head + ".", tail, '.');
      CountAppend(head, ".", '.');
      assert '.' !in tail;
      FilterAll(tail, NotPoint);
    }
  }

  /** The first point of `head + "." + tail` is the one after `head`. */
  lemma CollapseAt(head: string, tail: string)
    requires '.' !in head
    ensures CollapsePoints(head + "." + tail) == head + "." + Filter(tail, NotPoint)
  {
    var v := head + "." + tail;
    assert v[..|head|] == head && v[|head| + 1..] == tail;
    FirstIndexOf(v, '.', |head|);
    CollapsePointsParts(v, |head|);
  }

  /** At most one point is left, and nothing but points is removed. */
  lemma CollapsePointsEffect(v: string)
    ensures Count(CollapsePoints(v), '.') <= 1
    ensures Filter(CollapsePoints(v), NotPoint) == Filter(v, NotPoint)
    ensures forall c :: c in CollapsePoints(v) ==> c in v
  {
    if '.' !in v {
      CollapsePointsNone(v);
    } else {
      var i := FirstIndex(v, '.');
      CollapsePointsParts(v, i);
      var head, tail := v[..i], v[i + 1..];
      CollapseCount(head, Filter(tail, NotPoint));
      CollapseFilter(head, tail);
      assert forall c :: c in Filter(tail, NotPoint) ==> c in tail;
    }
  }

  lemma CollapseCount(head: string, tail: string)
    requires '.' !in head && '.' !in tail
    ensures Count(head + "." + tail, '.') == 1
  {
    CountAppend(head + ".", tail, '.');
    CountAppend(head, ".", '.');
  }

  lemma CollapseFilter(head: string, tail: string)
    ensures Filter(head + "." + Filter(tail, NotPoint), NotPoint) == Filter(head + "." + tail, NotPoint)
  {
    FilterAppend(head + ".", Filter(tail, NotPoint), NotPoint);
    FilterAppend(head + ".", tail, NotPoint);
    FilterIdempotent(tail, NotPoint);
  }

  lemma {:induction false} KeepNumericAppend(a: string, b: string)
    ensures KeepNumeric(a + b) == KeepNumeric(a) + KeepNumeric(b)
  {
    if a == [] {
      assert a + b == b;
    } else {
      var c, x := a[0], KeepNumeric(a[1..]);
      KeepNumericAppend(a[1..], b);
      assert (a + b)[0] == c && (a + b)[1..] == a[1..] + b;
      var head := if IsKept(c) then [c] else "";
      assert KeepNumeric(a + b) == head + (x + KeepNumeric(b));
      assert KeepNumeric(a) == head + x;
    }
  }

  lemma {:induction false} KeepNumericSpaces(a: string)
    requires forall i :: 0 <= i < |a| ==> IsSpace(a[i])
    ensures KeepNumeric(a) == ""
  {
    if a != [] {
      KeepNumericSpaces(a[1..]);
    }
  }

  lemma KeepNumericBetween(head: string, mid: string, tail: string)
    requires forall i :: 0 <= i < |head| ==> IsSpace(head[i])
    requires forall i :: 0 <= i < |tail| ==> IsSpace(tail[i])
    ensures KeepNumeric(head + mid + tail) == KeepNumeric(mid)
  {
    KeepNumericSpaces(head);
    KeepNumericSpaces(tail);
    KeepNumericAppend(head + mid, tail);
    KeepNumericAppend(head, mid);
    assert KeepNumeric(mid) + "" == KeepNumeric(mid);
  }

  /** Whitespace is never kept, so stripping it first changes nothing. */
  lemma StripKeep(s: string)
    ensures KeepNumeric(Strip(s)) == KeepNumeric(s)
  {
    var head, tail := StripPieces(s);
    KeepNumericBetween(head, Strip(s), tail);
  }

  /** The text the cleaner hands to `float()`. */
  function Cleaned(raw: string): string {
    CollapsePoints(KeepNumeric(Strip(raw)))
  }

  /**
   * The cleaned text holds only digits, points and minus signs, at most one
   * point, the digits of the input in their order, and every kept character
   * other than a point in its order.
   */
  lemma CleanedText(raw: string)
    ensures forall c :: c in Cleaned(raw) ==> IsKept(c)
    ensures Count(Cleaned(raw), '.') <= 1
    ensures Filter(Cleaned(raw), IsDigit) == Filter(raw, IsDigit)
    ensures Filter(Cleaned(raw), NotPoint) == Filter(KeepNumeric(raw), NotPoint)
  {
    var v := KeepNumeric(Strip(raw));
    StripKeep(raw);
    CollapsePointsEffect(v);
    KeepNumericFilter(raw);
    FilterNarrow(CollapsePoints(v), NotPoint, IsDigit);
    FilterNarrow(v, NotPoint, IsDigit);
    FilterNarrow(raw, IsKept, IsDigit);
  }

  // ---------------------------------------------------------------------
  // float() over the cleaned alphabet

  predicate AllDigits(s: string) {
    forall i :: 0 <= i < |s| ==> IsDigit(s[i])
  }

  /**
   * A decimal literal: an optional minus sign, the integer digits and, after
   * a point, the fraction digits. `float()` accepts `"1."` and `".5"` but
   * not `"."`.
   */
  datatype Decimal = Decimal(negative: bool, whole: string, fraction: Option<string>)

  predicate WellFormed(d: Decimal) {
    && AllDigits(d.whole)
    && (d.fraction.Some? ==> AllDigits(d.fraction.value))
    && |d.whole| + |d.fraction.GetOr("")| > 0
  }

  function Render(d: Decimal): string {
    (if d.negative then "-" else "") + d.whole + (if d.fraction.Some? then "." + d.fraction.value else "")
  }

  /** Length of the leading run of digits. */
  function DigitRun(s: string): (n: nat)
    ensures n <= |s|
    ensures AllDigits(s[..n])
    ensures n < |s| ==> !IsDigit(s[n])
  {
    if s == [] || !IsDigit(s[0]) then 0 else 1 + DigitRun(s[1..])
  }

  lemma {:induction false} DigitRunAppend(a: string, b: string)
    requires AllDigits(a)
    requires b == [] || !IsDigit(b[0])
    ensures DigitRun(a + b) == |a|
  {
    if a == [] {
      assert a + b == b;
    } else {
      assert (a + b)[1..] == a[1..] + b;
      DigitRunAppend(a[1..], b);
    }
  }

  /** `float(s)` on text over the alphabet `0-9 . -`; `None` where it raises ValueError. */
  function ParseDecimal(s: string): (r: Option<Decimal>)
    ensures r.Some? ==> WellFormed(r.value) && Render(r.value) == s
  {
    var negative := |s| > 0 && s[0] == '-';
    var body := if negative then s[1..] else s;
    var n := DigitRun(body);
    var whole, rest := body[..n], body[n..];
    if rest == [] then
      if n > 0 then
        RenderOf(s, negative, body, whole, None);
        Some(Decimal(negative, whole, None))
      else None
    else if rest[0] == '.' && AllDigits(rest[1..]) && (n > 0 || |rest| > 1) then
      RenderOf(s, negative, body, whole, Some(rest[1..]));
      Some(Decimal(negative, whole, Some(rest[1..])))
    else
      None
  }

  /** The pieces a decimal is read from render back to the text. */
  lemma RenderOf(s: string, negative: bool, body: string, whole: string, fraction: Option<string>)
    requires negative == (|s| > 0 && s[0] == '-')
    requires body == if negative then s[1..] else s
    requires |whole| <= |body| && whole == body[..|whole|]
    requires body[|whole|..] == if fraction.Some? then "." + fraction.value else ""
    ensures Render(Decimal(negative, whole, fraction)) == s
  {
    var tail := if fraction.Some? then "." + fraction.value else "";
    var sign := if negative then "-" else "";
    assert body == body[..|whole|] + body[|whole|..];
    assert Render(Decimal(negative, whole, fraction)) == sign + whole + tail;
    if negative {
      assert s == [s[0]] + s[1..];
      assert sign + whole + tail == sign + (whole + tail);
    } else {
      assert sign + whole + tail == whole + tail;
    }
  }

  /** Every well-formed decimal reads back as itself. */
  lemma ParseRender(d: Decimal)
    requires WellFormed(d)
    ensures ParseDecimal(Render(d)) == Some(d)
  {
    var tail := if d.fraction.Some? then "." + d.fraction.value else "";
    var body := d.whole + tail;
    var s := Render(d);
    assert s == (if d.negative then "-" else "") + body;
    if d.negative {
      assert s[0] == '-' && s[1..] == body;
    } else {
      assert s == body;
      if d.whole != [] {
        assert IsDigit(s[0]);
      } else {
        assert s[0] == '.';
      }
    }
    DigitRunAppend(d.whole, tail);
    assert body[..|d.whole|] == d.whole;
    assert body[|d.whole|..] == tail;
  }

  function Pow10(n: nat): (p: nat)
    ensures p >= 1
  {
    if n == 0 then 1 else 10 * Pow10(n - 1)
  }

  /** The number a run of decimal digits denotes. */
  function DigitsValue(s: string): (v: nat)
    requires AllDigits(s)
    ensures v < Pow10(|s|)
  {
    if s == [] then 0
    else
      var init := s[..|s| - 1];
      var d := s[|s| - 1] as int - '0' as int;
      var w := DigitsValue(init);
      assert Pow10(|s|) == 10 * Pow10(|init|);
      assert w * 10 + d < 10 * Pow10(|init|) by {
        assert w + 1 <= Pow10(|init|);
        assert (w + 1) * 10 <= Pow10(|init|) * 10;
      }
      w * 10 + d
  }

  lemma DivBelowOne(a: real, b: real)
    requires 0.0 <= a < b
    ensures 0.0 <= a / b < 1.0
  {
  }

  /** The value of the digits after the point. */
  function FractionValue(f: string): (x: real)
    requires AllDigits(f)
    ensures 0.0 <= x < 1.0
  {
    var n, p := DigitsValue(f) as real, Pow10(|f|) as real;
    DivBelowOne(n, p);
    n / p
  }

  /** The value of a decimal; its integer digits give its magnitude's floor. */
  function Value(d: Decimal): (x: real)
    requires WellFormed(d)
    ensures d.negative <==> x < 0.0 || (x == 0.0 && d.negative)
    ensures DigitsValue(d.whole) as real <= (if d.negative then -x else x) < DigitsValue(d.whole) as real + 1.0
  {
    var fraction := if d.fraction.Some? then FractionValue(d.fraction.value) else 0.0;
    var magnitude := DigitsValue(d.whole) as real + fraction;
    if d.negative then -magnitude else magnitude
  }

  // ---------------------------------------------------------------------
  // corregir_coordenadas

  predicate InRange(x: real) { -90.0 <= x <= 90.0 }

  /** The cleaner on the text form of a cell. */
  function CorrectCoordinate(raw: string): (r: Option<real>)
    ensures r.Some? ==> InRange(r.value)
  {
    match ParseDecimal(Cleaned(raw))
    case None => None
    case Some(d) =>
      var x := Value(d);
      if x < -90.0 || x > 90.0 then None else Some(x)
  }

  /**
   * The cleaner returns `x` exactly when the cleaned text is the writing of a
   * decimal whose value is `x` and `x` is within [-90, 90].
   */
  lemma CorrectCoordinateMeaning(raw: string, x: real)
    ensures CorrectCoordinate(raw) == Some(x) <==>
      InRange(x) && exists d :: WellFormed(d) && Render(d) == Cleaned(raw) && Value(d) == x
  {
    if exists d :: WellFormed(d) && Render(d) == Cleaned(raw) && Value(d) == x {
      var d :| WellFormed(d) && Render(d) == Cleaned(raw) && Value(d) == x;
      ParseRender(d);
    }
  }

  /** A decimal outside [-90, 90] is rejected. */
  lemma OutOfRangeRejected(raw: string, d: Decimal)
    requires WellFormed(d) && Render(d) == Cleaned(raw)
    requires !InRange(Value(d))
    ensures CorrectCoordinate(raw) == None
  {
    ParseRender(d);
  }

  /** Text that is not a decimal once cleaned is rejected rather than raising. */
  lemma NotDecimalRejected(raw: string)
    requires forall d :: WellFormed(d) ==> Render(d) != Cleaned(raw)
    ensures CorrectCoordinate(raw) == None
  {
  }

  /** Whitespace is never kept, so the `strip()` before the substitution changes nothing. */
  lemma StripRedundant(raw: string)
    ensures KeepNumeric(Strip(raw)) == KeepNumeric(raw)
    ensures Cleaned(raw) == CollapsePoints(KeepNumeric(raw))
  {
    StripKeep(raw);
  }

  // Each worked example below is assembled from single evaluation steps:
  // evaluating several steps on literals in one proof is too costly.

  lemma KeepExtraPoint()
    ensures KeepNumeric("27.4.8") == "27.4.8"
  {
  }

  lemma KeepStray()
    ensures KeepNumeric(" 27.48X") == "27.48"
  {
  }

  lemma KeepOutOfRange()
    ensures KeepNumeric("120.5") == "120.5"
  {
  }

  lemma CollapseExtraPoint()
    ensures CollapsePoints("27.4.8") == "27.48"
  {
    ExtraPointPieces();
    CollapseAt("27", "4.8");
    DropPoints48();
  }

  lemma ExtraPointPieces()
    ensures "27" + "." + "4.8" == "27.4.8" && "27" + "." + "48" == "27.48"
  {
  }

  lemma DropPoints48()
    ensures Filter("4.8", NotPoint) == "48"
  {
  }

  lemma Parse2748()
    ensures ParseDecimal("27.48") == Some(Decimal(false, "27", Some("48")))
  {
    var s := "27.48";
    assert DigitRun(s) == 2 && s[..2] == "27" && s[2..] == ".48" && AllDigits("48");
  }

  lemma Value2748()
    ensures Value(Decimal(false, "27", Some("48"))) == 27.48
  {
  }

  lemma Parse1205()
    ensures ParseDecimal("120.5") == Some(Decimal(false, "120", Some("5")))
  {
    var s := "120.5";
    assert DigitRun(s) == 3 && s[..3] == "120" && s[3..] == ".5" && AllDigits("5");
  }

  lemma Value1205()
    ensures Value(Decimal(false, "120", Some("5"))) == 120.5
  {
    assert "120"[..2] == "12" && "12"[..1] == "1";
    assert DigitsValue("120") == 120;
  }

  /** Extra points are folded into the fraction. */
  lemma ExampleExtraPoint()
    ensures CorrectCoordinate("27.4.8") == Some(27.48)
  {
    StripRedundant("27.4.8");
    KeepExtraPoint();
    CollapseExtraPoint();
    Parse2748();
    Value2748();
  }

  /** Surrounding spaces and stray letters are dropped. */
  lemma ExampleStrayCharacters()
    ensures CorrectCoordinate(" 27.48X") == Some(27.48)
  {
    StripRedundant(" 27.48X");
    KeepStray();
    assert Count("27.48", '.') == 1;
    Parse2748();
    Value2748();
  }

  /** A well-formed value outside [-90, 90] is rejected. */
  lemma ExampleOutOfRange()
    ensures CorrectCoordinate("120.5") == None
  {
    StripRedundant("120.5");
    KeepOutOfRange();
    assert Count("120.5", '.') == 1;
    Parse1205();
    Value1205();
  }

  /** A minus sign inside the digits makes the text unreadable. */
  lemma ExampleInnerMinus()
    ensures CorrectCoordinate("1-2") == None
  {
    StripRedundant("1-2");
    KeepInnerMinus();
    CollapsePointsNone("1-2");
    ParseInnerMinus();
  }

  lemma KeepInnerMinus()
    ensures KeepNumeric("1-2") == "1-2"
  {
  }

  lemma ParseInnerMinus()
    ensures ParseDecimal("1-2") == None
  {
    assert DigitRun("1-2") == 1 && "1-2"[1..] == "-2";
  }

  /** A missing cell is rendered `'nan'`, which cleans to the empty text. */
  lemma ExampleNan()
    ensures CorrectCoordinate("nan") == None
  {
    StripRedundant("nan");
    assert KeepNumeric("nan") == "";
    assert CollapsePoints("") == "";
  }

  /** The empty text, a lone sign and a lone point are not decimals. */
  lemma ExampleEmpty()
    ensures CorrectCoordinate("") == None
    ensures CorrectCoordinate("-") == None
    ensures CorrectCoordinate(".") == None
  {
    CleanedShort();
    ParseShort();
  }

  lemma CleanedShort()
    ensures Cleaned("") == "" && Cleaned("-") == "-" && Cleaned(".") == "."
  {
    StripRedundant("");
    StripRedundant("-");
    StripRedundant(".");
    CollapsePointsNone("-");
    assert Count(".", '.') == 1;
  }

  lemma ParseShort()
    ensures ParseDecimal("") == None && ParseDecimal("-") == None && ParseDecimal(".") == None
  {
    assert "-"[1..] == "";
  }

  /**
   * `registro_arboles_df['lat'].apply(corregir_coordenadas)` on one cell:
   * a missing cell is rendered `'nan'`, which cleans to the empty text.
   */
  function CoordinateCell(c: Cell): (r: Cell)
    ensures r.Null? || (r.Num? && InRange(r.value))
    ensures c.Null? ==> r.Null?
    ensures c.Str? ==> (r.Num? <==> CorrectCoordinate(c.text).Some?)
    ensures c.Str? && CorrectCoordinate(c.text).Some? ==> r == Num(CorrectCoordinate(c.text).value)
    ensures c.Num? ==> r == (if InRange(c.value) then c else Null)
  {
    var parsed := match c
      case Null => CorrectCoordinate("nan")
      case Str(t) => CorrectCoordinate(t)
      case Num(v) => if InRange(v) then Some(v) else None;
    assert c.Null? ==> parsed.None? by {
      ExampleNan();
    }
    if parsed.Some? then Num(parsed.value) else Null
  }
}
