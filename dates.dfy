/** The release-date resolver: `M/D/Y` text with possibly swapped month
    and day and possibly two-digit years becomes a calendar date, written
    out as an RFC 3339 (section 5.6) `full-date`, `YYYY-MM-DD`. */
module Dates {
  import opened Wrappers
  import opened Strings
  import opened Numbers

  datatype Date = Date(year: int, month: int, day: int)

  /** The window two-digit years are resolved into. */
  const MinYear := 1900
  const MaxYear := 2015

  predicate IsLeap(y: int)
  {
    y % 4 == 0 && (y % 100 != 0 || y % 400 == 0)
  }

  function DaysInMonth(y: int, m: int): (n: int)
    requires 1 <= m <= 12
    ensures 28 <= n <= 31
  {
    if m == 2 then (if IsLeap(y) then 29 else 28)
    else if m == 4 || m == 6 || m == 9 || m == 11 then 30
    else 31
  }

  /** Chronological order on dates. */
  predicate DateLe(a: Date, b: Date)
  {
    a.year < b.year ||
    (a.year == b.year && (a.month < b.month || (a.month == b.month && a.day <= b.day)))
  }

  /** The first and last days a pandas `Timestamp` (nanoseconds since the
      epoch in 64 bits) can hold at midnight. */
  const FirstTimestampDay := Date(1677, 9, 22)
  const LastTimestampDay := Date(2262, 4, 11)

  /** What `pd.to_datetime` accepts from `"{year}-{month:02d}-{day:02d}"`:
      a real calendar day within the `Timestamp` range. */
  predicate IsValid(d: Date)
  {
    && 1 <= d.month <= 12 && 1 <= d.day <= DaysInMonth(d.year, d.month)
    && DateLe(FirstTimestampDay, d) && DateLe(d, LastTimestampDay)
  }

  /** The two-digit-year rule: years of 100 and above are taken as they
      are, smaller ones move into [1900, 2015], trying `2000 + y` first. */
  function ResolveYear(y: int): Option<int>
  {
    if y >= 100 then Some(y)
    else if MinYear <= 2000 + y <= MaxYear then Some(2000 + y)
    else if MinYear <= 1900 + y <= MaxYear then Some(1900 + y)
    else None
  }

  /** The `try` block of `fix_ambiguous_date` once the three parts are
      integers: the month/day swap, the year rule and the calendar check. */
  function ResolveParts(m0: int, d0: int, y0: int): (r: Option<Date>)
    ensures r.Some? ==> IsValid(r.value)
  {
    var (m, d) := if m0 > 12 && d0 <= 12 then (d0, m0) else (m0, d0);
    match ResolveYear(y0)
    case None => None
    case Some(y) => if IsValid(Date(y, m, d)) then Some(Date(y, m, d)) else None
  }

  /** `fix_ambiguous_date`: `None` is `NaT`. */
  function FixAmbiguousDate(cell: Option<string>): (r: Option<Date>)
    ensures r.Some? ==> IsValid(r.value)
    ensures cell.None? || Strip(cell.value) == [] || |Split(cell.value, '/')| != 3 ==> r.None?
  {
    match cell
    case None => None
    case Some(s) =>
      if Strip(s) == [] then None
      else
        var parts := Split(s, '/');
        if |parts| != 3 then None
        else
          ReadParts(parts)
  }

  /** The three parts read with `int` and resolved; a part that is not an
      integer raises, which gives `NaT`. */
  function ReadParts(parts: seq<string>): (r: Option<Date>)
    requires |parts| == 3
    ensures ParsePyInt(parts[0]).None? || ParsePyInt(parts[1]).None? || ParsePyInt(parts[2]).None? ==> r.None?
  {
    match (ParsePyInt(parts[0]), ParsePyInt(parts[1]), ParsePyInt(parts[2]))
    case (Some(m0), Some(d0), Some(y0)) => ResolveParts(m0, d0, y0)
    case _ => None
  }

  /** A part that is not an integer makes the whole date `NaT`. */
  lemma FixRejectsNonInteger(s: string, parts: seq<string>)
    requires parts == Split(s, '/') && |parts| == 3
    requires ParsePyInt(parts[0]).None? || ParsePyInt(parts[1]).None? || ParsePyInt(parts[2]).None?
    ensures FixAmbiguousDate(Some(s)) == None
  {
    assert ReadParts(parts) == None;
    if Strip(s) != [] {
      FixReadsParts(s, parts);
    }
  }

  /** `strftime("%Y-%m-%d")`. */
  function Iso(d: Date): (r: string)
    requires IsValid(d)
    ensures |r| == 10
  {
    PaddedDigits(d.year, 4) + ("-" + (PaddedDigits(d.month, 2) + ("-" + PaddedDigits(d.day, 2))))
  }

  /** The `release_date` column after the resolver and `strftime`. */
  function ReleaseDate(cell: Option<string>): (r: Option<string>)
    ensures r.Some? <==> FixAmbiguousDate(cell).Some?
  {
    match FixAmbiguousDate(cell)
    case None => None
    case Some(d) => Some(Iso(d))
  }

  // ---------------------------------------------------------------------
  // properties of the year rule

  /** Two-digit years land on the latest year of the window with the same
      last two digits; larger years are kept; negative years down to -100
      still resolve (`int("-5")` is -5), smaller ones do not. */
  lemma ResolveYearWindow(y: int)
    ensures y >= 100 ==> ResolveYear(y) == Some(y)
    ensures ResolveYear(y).Some? <==> y >= -100
    ensures 0 <= y < 100 ==>
      var r := ResolveYear(y).value;
      && MinYear <= r <= MaxYear && r % 100 == y % 100
      && forall z :: MinYear <= z <= MaxYear && z % 100 == y % 100 ==> z <= r
  {
    if 0 <= y < 100 {
      var r := ResolveYear(y).value;
      forall z | MinYear <= z <= MaxYear && z % 100 == y % 100
        ensures z <= r
      {
        if y <= 15 {
          assert r == 2000 + y;
        } else {
          assert r == 1900 + y;
          assert z % 100 == y;
        }
      }
    }
  }

  // ---------------------------------------------------------------------
  // properties of the ISO rendering

  /** The rendering is a `full-date`: four year digits, a hyphen, two month
      digits, a hyphen, two day digits, and the digits read back as the
      date's fields. */
  lemma IsoFields(d: Date)
    requires IsValid(d)
    ensures var r := Iso(d);
      && r[4] == '-' && r[7] == '-'
      && AllDigits(r[..4]) && AllDigits(r[5..7]) && AllDigits(r[8..])
      && DigitsValue(r[..4]) == d.year
      && DigitsValue(r[5..7]) == d.month
      && DigitsValue(r[8..]) == d.day
  {
    var y, m, dd := PaddedDigits(d.year, 4), PaddedDigits(d.month, 2), PaddedDigits(d.day, 2);
    var r := Iso(d);
    assert r == y + "-" + m + "-" + dd;
    assert r[..4] == y && r[5..7] == m && r[8..] == dd;
    PaddedDigitsValue(d.year, 4);
    PaddedDigitsValue(d.month, 2);
    PaddedDigitsValue(d.day, 2);
  }

  /** Comparing two padded fields followed by rests. */
  lemma FieldThenRest(x: nat, y: nat, w: nat, a: string, b: string)
    requires x < Pow10(w) && y < Pow10(w)
    ensures LexLe(PaddedDigits(x, w) + a, PaddedDigits(y, w) + b) <==>
            x < y || (x == y && LexLe(a, b))
  {
    PaddedDigitsOrder(x, y, w);
    LexConcat(PaddedDigits(x, w), a, PaddedDigits(y, w), b);
  }

  lemma HyphenThenRest(a: string, b: string)
    ensures LexLe("-" + a, "-" + b) <==> LexLe(a, b)
  {
    LexConcat("-", a, "-", b);
  }

  /** String order of the renderings is chronological order, so sorting the
      column as text sorts it by date; distinct dates render differently. */
  lemma IsoOrder(a: Date, b: Date)
    requires IsValid(a) && IsValid(b)
    ensures LexLe(Iso(a), Iso(b)) <==> DateLe(a, b)
    ensures Iso(a) == Iso(b) <==> a == b
  {
    IsoOrderOneWay(a, b);
    IsoOrderOneWay(b, a);
    if Iso(a) == Iso(b) {
      LexTotal(Iso(a), Iso(b));
    }
  }

  lemma IsoOrderOneWay(a: Date, b: Date)
    requires IsValid(a) && IsValid(b)
    ensures LexLe(Iso(a), Iso(b)) <==> DateLe(a, b)
  {
    var ra := "-" + PaddedDigits(a.day, 2);
    var rb := "-" + PaddedDigits(b.day, 2);
    FieldThenRest(a.day, b.day, 2, [], []);
    assert PaddedDigits(a.day, 2) + [] == PaddedDigits(a.day, 2);
    assert PaddedDigits(b.day, 2) + [] == PaddedDigits(b.day, 2);
    HyphenThenRest(PaddedDigits(a.day, 2), PaddedDigits(b.day, 2));
    FieldThenRest(a.month, b.month, 2, ra, rb);
    var ma, mb := PaddedDigits(a.month, 2) + ra, PaddedDigits(b.month, 2) + rb;
    HyphenThenRest(ma, mb);
    FieldThenRest(a.year, b.year, 4, "-" + ma, "-" + mb);
  }

  // ---------------------------------------------------------------------
  // properties of the resolver

  /** `str(m) + "/" + str(d) + "/" + str(y)`. */
  function SlashDate(m: int, d: int, y: int): string
  {
    JoinWith([IntToString(m), IntToString(d), IntToString(y)], '/')
  }

  lemma IntToStringChars(n: int)
    ensures '/' !in IntToString(n)
    ensures !IsSpace(IntToString(n)[0])
  {
    var m: nat := if n < 0 then -n else n;
    DigitsExclude(NatToDigits(m), '/');
  }

  /** A date written with slashes splits into its three numbers again. */
  lemma SlashDateParts(m: int, d: int, y: int)
    ensures var s := SlashDate(m, d, y);
      && Strip(s) != []
      && Split(s, '/') == [IntToString(m), IntToString(d), IntToString(y)]
  {
    var s := SlashDate(m, d, y);
    IntToStringChars(m);
    IntToStringChars(d);
    IntToStringChars(y);
    SplitJoin([IntToString(m), IntToString(d), IntToString(y)], '/');
    assert s[0] == IntToString(m)[0];
    StripKeeps(s, 0);
  }

  lemma SlashDateRead(m: int, d: int, y: int, s: string)
    requires s == SlashDate(m, d, y)
    ensures FixAmbiguousDate(Some(s)) == ResolveParts(m, d, y)
  {
    var parts := [IntToString(m), IntToString(d), IntToString(y)];
    SlashDateParts(m, d, y);
    ParsePyIntShow(m);
    ParsePyIntShow(d);
    ParsePyIntShow(y);
    ReadPartsOf(parts, m, d, y);
    FixReadsParts(s, parts);
  }

  /** Three integer parts resolve as their values. */
  lemma ReadPartsOf(parts: seq<string>, m: int, d: int, y: int)
    requires |parts| == 3
    requires ParsePyInt(parts[0]) == Some(m) && ParsePyInt(parts[1]) == Some(d) && ParsePyInt(parts[2]) == Some(y)
    ensures ReadParts(parts) == ResolveParts(m, d, y)
  {
  }

  /** A non-blank cell of three `/`-parts resolves as its parts. */
  lemma FixReadsParts(s: string, parts: seq<string>)
    requires Strip(s) != [] && parts == Split(s, '/') && |parts| == 3
    ensures FixAmbiguousDate(Some(s)) == ReadParts(parts)
  {
  }

  /** A valid date written month first with its full year reads back as
      itself. */
  lemma FixMonthFirst(date: Date, s: string)
    requires IsValid(date) && s == SlashDate(date.month, date.day, date.year)
    ensures FixAmbiguousDate(Some(s)) == Some(date)
  {
    SlashDateRead(date.month, date.day, date.year, s);
  }

  /** A valid date written day first reads back as itself when the day
      cannot be a month. */
  lemma FixDayFirst(date: Date, s: string)
    requires IsValid(date) && date.day > 12 && s == SlashDate(date.day, date.month, date.year)
    ensures FixAmbiguousDate(Some(s)) == Some(date)
  {
    SlashDateRead(date.day, date.month, date.year, s);
  }

  /** A date of the window written with a two-digit year reads back as
      itself exactly when its year is the one the rule picks: 1900-1915
      come back as 2000-2015. */
  lemma FixTwoDigitYear(date: Date, s: string)
    requires IsValid(date) && MinYear <= date.year <= MaxYear
    requires s == SlashDate(date.month, date.day, date.year % 100)
    ensures FixAmbiguousDate(Some(s)) == Some(date) <==> date.year > 1915
  {
    SlashDateRead(date.month, date.day, date.year % 100, s);
    TwoDigitYearParts(date);
  }

  lemma TwoDigitYearParts(date: Date)
    requires IsValid(date) && MinYear <= date.year <= MaxYear
    ensures ResolveParts(date.month, date.day, date.year % 100) == Some(date) <==> date.year > 1915
  {
    var y := date.year % 100;
    if date.year <= 1915 {
      assert ResolveYear(y) == Some(2000 + y);
    }
  }

  /** A month/day pair that is not a day of the year, in either order,
      resolves to nothing. */
  lemma FixRejectsInvalid(m: int, d: int, y: int, s: string)
    requires 1 <= m <= 12 && y >= 100 && s == SlashDate(m, d, y)
    requires !IsValid(Date(y, m, d))
    ensures FixAmbiguousDate(Some(s)) == None
  {
    SlashDateRead(m, d, y, s);
  }

  lemma SlashDateLiteral(ms: string, ds: string, ys: string, m: int, d: int, y: int)
    requires IntToString(m) == ms && IntToString(d) == ds && IntToString(y) == ys
    ensures SlashDate(m, d, y) == ms + "/" + ds + "/" + ys
  {
    var p := [ms, ds, ys];
    assert p[1..] == [ds, ys] && [ds, ys][1..] == [ys];
    assert JoinWith([ds, ys], '/') == ds + "/" + ys;
  }

  /** `"1/5/15"` is 5 January 2015. */
  lemma ExampleTwoDigitYear()
    ensures FixAmbiguousDate(Some("1/5/15")) == Some(Date(2015, 1, 5))
  {
    SlashDateLiteral("1", "5", "15", 1, 5, 15);
    assert "1" + "/" + "5" + "/" + "15" == "1/5/15";
    SlashDateRead(1, 5, 15, "1/5/15");
  }

  /** `"13/5/99"` is day first: 13 May 1999. */
  lemma ExampleSwap()
    ensures FixAmbiguousDate(Some("13/5/99")) == Some(Date(1999, 5, 13))
  {
    SlashDateLiteral("13", "5", "99", 13, 5, 99);
    assert "13" + "/" + "5" + "/" + "99" == "13/5/99";
    SlashDateRead(13, 5, 99, "13/5/99");
  }

  /** `"5/13/16"` is 13 May 1916, since 2016 is past the window. */
  lemma ExampleLastCentury()
    ensures FixAmbiguousDate(Some("5/13/16")) == Some(Date(1916, 5, 13))
  {
    SlashDateLiteral("5", "13", "16", 5, 13, 16);
    assert "5" + "/" + "13" + "/" + "16" == "5/13/16";
    SlashDateRead(5, 13, 16, "5/13/16");
  }

  /** `"4/31/10"` is not a day. */
  lemma ExampleNoSuchDay()
    ensures FixAmbiguousDate(Some("4/31/10")) == None
  {
    SlashDateLiteral("4", "31", "10", 4, 31, 10);
    assert "4" + "/" + "31" + "/" + "10" == "4/31/10";
    SlashDateRead(4, 31, 10, "4/31/10");
  }
}
