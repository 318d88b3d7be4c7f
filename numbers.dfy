/** Number parsing as the cleaning step relies on it: Python's `int(str)`
    (used by the date resolver) and `pd.to_numeric(..., errors="coerce")`
    followed by `fillna(0)` and `astype(int)` (the numeric columns). */
module Numbers {
  import opened Wrappers
  import opened Strings

  /** Decimal digits, with single underscores allowed between two digits
      (`int("1_000")` is 1000). */
  predicate IsDigitGroup(s: string)
  {
    && |s| > 0 && IsDigit(s[0]) && IsDigit(s[|s| - 1])
    && (forall i :: 0 <= i < |s| ==> IsDigit(s[i]) || s[i] == '_')
    && (forall i :: 0 <= i < |s| - 1 ==> !(s[i] == '_' && s[i + 1] == '_'))
  }

  function DropUnderscores(s: string): (r: string)
    requires forall i :: 0 <= i < |s| ==> IsDigit(s[i]) || s[i] == '_'
    ensures AllDigits(r)
    ensures AllDigits(s) ==> r == s
  {
    if s == [] then []
    else (if s[0] == '_' then [] else [s[0]]) + DropUnderscores(s[1..])
  }

  /** An optional leading sign: whether it is a minus, and the rest. */
  function SplitSign(t: string): (r: (bool, string))
    ensures r.1 == t || (|t| >= 1 && t[0] in "+-" && r.1 == t[1..])
    ensures r.0 <==> |t| >= 1 && t[0] == '-'
  {
    if |t| >= 1 && (t[0] == '-' || t[0] == '+') then (t[0] == '-', t[1..]) else (false, t)
  }

  /** `int(s)`: surrounding whitespace, an optional sign, then a digit
      group. `None` is the `ValueError` Python raises. */
  function ParsePyInt(s: string): Option<int>
  {
    var t := Strip(s);
    if t == [] then None
    else
      var (negative, body) := SplitSign(t);
      if IsDigitGroup(body) then
        var v: int := DigitsValue(DropUnderscores(body));
        Some(if negative then -v else v)
      else None
  }

  /** `str(n)` for an integer. */
  function IntToString(n: int): (r: string)
    ensures |r| >= 1
  {
    if n < 0 then "-" + NatToDigits(-n) else NatToDigits(n)
  }

  lemma DigitsAreGroup(s: string)
    requires |s| >= 1 && AllDigits(s)
    ensures IsDigitGroup(s)
  {
  }

  lemma DigitsNotSpace(s: string)
    requires AllDigits(s)
    ensures Strip(s) == s
  {
    if s != [] {
      StripNoEdgeSpace(s);
    }
  }

  /** A non-whitespace character of `s` survives `strip`. */
  lemma StripKeeps(s: string, i: nat)
    requires i < |s| && !IsSpace(s[i])
    ensures s[i] in Strip(s)
  {
    StripSlice(s);
    var k := StripOffset(s);
    assert Strip(s)[i - k] == s[i];
  }

  /** A string holding a character that cannot appear in an integer
      literal does not parse. */
  lemma ParsePyIntRejects(s: string, i: nat)
    requires i < |s| && !IsDigit(s[i]) && !IsSpace(s[i]) && s[i] !in "+-_"
    ensures ParsePyInt(s) == None
  {
    StripKeeps(s, i);
    var t := Strip(s);
    var body := SplitSign(t).1;
    assert s[i] in body;
  }

  // ---------------------------------------------------------------------
  // pd.to_numeric

  /** A parsed decimal literal: sign, integer part, fraction digits. */
  datatype Decimal = Decimal(negative: bool, whole: nat, fraction: string)

  /** Unsigned digits with at most one decimal point and at least one
      digit: the integer part's value and the fraction digits. */
  function ParseUnsigned(body: string): (r: Option<(nat, string)>)
    ensures r.Some? ==> AllDigits(r.value.1)
  {
    var parts := Split(body, '.');
    if |parts| == 1 && |parts[0]| > 0 && AllDigits(parts[0]) then
      Some((DigitsValue(parts[0]), []))
    else if |parts| == 2 && |parts[0]| + |parts[1]| > 0 && AllDigits(parts[0]) && AllDigits(parts[1]) then
      Some((DigitsValue(parts[0]), parts[1]))
    else None
  }

  /** The subset of `pd.to_numeric` input the model accepts: surrounding
      whitespace, an optional sign, digits with at most one decimal point,
      at least one digit. `None` is a value `errors="coerce"` turns into
      NaN. */
  function ParseDecimal(s: string): (r: Option<Decimal>)
    ensures r.Some? ==> AllDigits(r.value.fraction)
  {
    var t := Strip(s);
    if t == [] then None
    else
      var (negative, body) := SplitSign(t);
      match ParseUnsigned(body)
      case None => None
      case Some((whole, fraction)) => Some(Decimal(negative, whole, fraction))
  }

  /** Only digits and the decimal point get through. */
  lemma ParseUnsignedChars(body: string, c: char)
    requires ParseUnsigned(body).Some? && c in body
    ensures IsDigit(c) || c == '.'
  {
    var parts := Split(body, '.');
    JoinSplit(body, '.');
    if |parts| == 2 {
      assert body == parts[0] + "." + parts[1];
    }
  }

  /** `astype(int)` of a float: truncation toward zero. */
  function Truncate(d: Decimal): int
  {
    var w: int := d.whole;
    if d.negative then -w else w
  }

  /** A value kept to tenths, truncated toward zero: the ordered key used
      for `vote_average`. */
  function Tenths(d: Decimal): int
    requires AllDigits(d.fraction)
  {
    var t := 10 * d.whole + (if d.fraction == [] then 0 else DigitValue(d.fraction[0]));
    if d.negative then -t else t
  }

  /** `pd.to_numeric(cell, errors="coerce").fillna(0).astype(int)`. */
  function ToIntColumn(cell: Option<string>): int
  {
    match cell
    case None => 0
    case Some(s) =>
      match ParseDecimal(s)
      case None => 0
      case Some(d) => Truncate(d)
  }

  /** `pd.to_numeric(cell, errors="coerce").fillna(0.0)`, in tenths. */
  function ToTenthsColumn(cell: Option<string>): int
  {
    match cell
    case None => 0
    case Some(s) =>
      match ParseDecimal(s)
      case None => 0
      case Some(d) => Tenths(d)
  }

  /** A digit is neither a sign nor white space. */
  lemma DigitIsPlain(c: char)
    requires IsDigit(c)
    ensures c != '-' && c != '+' && !IsSpace(c)
  {
  }

  lemma SplitSignMinus(body: string)
    ensures SplitSign("-" + body) == (true, body)
  {
    assert ("-" + body)[1..] == body;
  }

  lemma SplitSignDigit(t: string)
    requires |t| >= 1 && IsDigit(t[0])
    ensures SplitSign(t) == (false, t)
  {
    DigitIsPlain(t[0]);
  }

  lemma ShowParts(n: int, rest: string)
    requires rest == [] || IsDigit(rest[|rest| - 1])
    ensures var s, digits := IntToString(n) + rest, NatToDigits(if n < 0 then -n else n);
      && Strip(s) == s
      && SplitSign(s) == (n < 0, digits + rest)
  {
    var digits := NatToDigits(if n < 0 then -n else n);
    var body := digits + rest;
    assert body[0] == digits[0];
    assert IsDigit(body[|body| - 1]) by {
      if rest == [] {
        assert body[|body| - 1] == digits[|digits| - 1];
      } else {
        assert body[|body| - 1] == rest[|rest| - 1];
      }
    }
    if n < 0 {
      assert IntToString(n) + rest == "-" + body;
    } else {
      assert IntToString(n) + rest == [] + body;
    }
    SignedDigits(n < 0, body);
  }

  /** A run that starts and ends with a digit, behind an optional minus,
      has nothing to strip and splits into that sign and that run. */
  lemma SignedDigits(negative: bool, body: string)
    requires body != [] && IsDigit(body[0]) && IsDigit(body[|body| - 1])
    ensures var s := (if negative then "-" else []) + body;
      && Strip(s) == s
      && SplitSign(s) == (negative, body)
  {
    var s := (if negative then "-" else []) + body;
    DigitIsPlain(body[0]);
    DigitIsPlain(body[|body| - 1]);
    assert s[|s| - 1] == body[|body| - 1];
    if negative {
      StripNoEdgeSpace(s);
      SplitSignMinus(body);
    } else {
      assert s == body;
      StripNoEdgeSpace(s);
      SplitSignDigit(s);
    }
  }

  /** A signed digit string, as `str(n)` writes it, survives `strip` and
      splits into its sign and digits. */
  lemma ShowSign(n: int)
    ensures var s, digits := IntToString(n), NatToDigits(if n < 0 then -n else n);
      && Strip(s) == s
      && SplitSign(s) == (n < 0, digits)
  {
    ShowParts(n, []);
    assert IntToString(n) + [] == IntToString(n);
    assert NatToDigits(if n < 0 then -n else n) + [] == NatToDigits(if n < 0 then -n else n);
  }

  /** An integer written out is read back as itself, by both parsers. */
  lemma ToIntColumnShow(n: int)
    ensures ToIntColumn(Some(IntToString(n))) == n
    ensures ParsePyInt(IntToString(n)) == Some(n)
  {
    var s := IntToString(n);
    var m: nat := if n < 0 then -n else n;
    var digits := NatToDigits(m);
    NatToDigitsValue(m);
    ShowSign(n);
    ParseUnsignedDigits(digits);
    assert ParseDecimal(s) == Some(Decimal(n < 0, m, []));
    ParsePyIntShow(n);
  }

  /** `int(str(n)) == n`. */
  lemma ParsePyIntShow(n: int)
    ensures ParsePyInt(IntToString(n)) == Some(n)
  {
    var s := IntToString(n);
    var m: nat := if n < 0 then -n else n;
    var digits := NatToDigits(m);
    NatToDigitsValue(m);
    ShowSign(n);
    DigitsAreGroup(digits);
    assert DropUnderscores(digits) == digits;
    ParsePyIntOf(s, n < 0, digits);
  }

  /** `int` of a stripped, signed digit group. */
  lemma ParsePyIntOf(s: string, negative: bool, body: string)
    requires s != [] && Strip(s) == s && SplitSign(s) == (negative, body) && IsDigitGroup(body)
    ensures var v: int := DigitsValue(DropUnderscores(body));
      ParsePyInt(s) == Some(if negative then -v else v)
  {
  }

  /** Digits without a point parse as a whole number. */
  lemma ParseUnsignedDigits(digits: string)
    requires |digits| >= 1 && AllDigits(digits)
    ensures ParseUnsigned(digits) == Some((DigitsValue(digits), []))
  {
    DigitsExclude(digits, '.');
    SplitNoSep(digits, '.');
  }

  /** Integer digits, a point and fraction digits parse as such. */
  lemma ParseUnsignedPoint(digits: string, fraction: string)
    requires |digits| >= 1 && AllDigits(digits) && AllDigits(fraction)
    ensures ParseUnsigned(digits + ("." + fraction)) == Some((DigitsValue(digits), fraction))
  {
    SplitPoint(digits, fraction);
  }

  lemma SplitPoint(digits: string, fraction: string)
    requires AllDigits(digits) && AllDigits(fraction)
    ensures Split(digits + ("." + fraction), '.') == [digits, fraction]
  {
    DigitsExclude(digits, '.');
    DigitsExclude(fraction, '.');
    JoinTwo(digits, fraction, '.');
    assert JoinWith([digits, fraction], '.') == digits + ("." + fraction);
    SplitJoin([digits, fraction], '.');
  }

  /** `str(n)` followed by a point and fraction digits parses back into
      its sign, magnitude and fraction. */
  lemma ParseDecimalShown(n: int, fraction: string)
    requires |fraction| >= 1 && AllDigits(fraction)
    ensures ParseDecimal(IntToString(n) + ("." + fraction)) ==
            Some(Decimal(n < 0, if n < 0 then -n else n, fraction))
  {
    var m: nat := if n < 0 then -n else n;
    var digits := NatToDigits(m);
    NatToDigitsValue(m);
    ShowParts(n, "." + fraction);
    ParseUnsignedPoint(digits, fraction);
  }

  /** A fractional part is cut off: `"-3.9"` becomes -3, `"12.7"` 12; the
      tenths key keeps its first digit. */
  lemma ToIntColumnTruncates(s: string, n: int, fraction: string)
    requires |fraction| >= 1 && AllDigits(fraction)
    requires s == IntToString(n) + ("." + fraction)
    ensures ToIntColumn(Some(s)) == n
    ensures ToTenthsColumn(Some(s)) ==
            if n < 0 then 10 * n - DigitValue(fraction[0]) else 10 * n + DigitValue(fraction[0])
  {
    var d := Decimal(n < 0, if n < 0 then -n else n, fraction);
    ParseDecimalShown(n, fraction);
    CoerceParsed(s, d);
  }

  /** The coercions of a cell that parses. */
  lemma CoerceParsed(s: string, d: Decimal)
    requires ParseDecimal(s) == Some(d)
    ensures ToIntColumn(Some(s)) == Truncate(d)
    ensures ToTenthsColumn(Some(s)) == Tenths(d)
  {
  }

  /** Text that is not a number falls back to 0: `"abc"` gives 0. */
  lemma ToIntColumnRejects(s: string, i: nat)
    requires i < |s| && !IsDigit(s[i]) && !IsSpace(s[i]) && s[i] !in "+-."
    ensures ToIntColumn(Some(s)) == 0 && ToTenthsColumn(Some(s)) == 0
  {
    StripKeeps(s, i);
    var t := Strip(s);
    var body := SplitSign(t).1;
    assert s[i] in body;
    if ParseUnsigned(body).Some? {
      ParseUnsignedChars(body, s[i]);
    }
  }

  /** `"abc"` is not a number: 0. */
  lemma CoercionRejectsText()
    ensures ToIntColumn(Some("abc")) == 0
  {
    ToIntColumnRejects("abc", 0);
  }

  /** `"8.1"` keeps 81 tenths. */
  lemma CoercionTenths()
    ensures ToTenthsColumn(Some("8.1")) == 81
  {
    assert "8.1" == IntToString(8) + ("." + "1");
    ToIntColumnTruncates("8.1", 8, "1");
  }

  /** `"-3.9"` truncates toward zero: -3. */
  lemma CoercionTruncatesNegative()
    ensures ToIntColumn(Some("-3.9")) == -3
  {
    assert "-3.9" == IntToString(-3) + ("." + "9");
    ToIntColumnTruncates("-3.9", -3, "9");
  }
}
