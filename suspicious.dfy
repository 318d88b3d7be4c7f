/** The suspicious-title check: titles that are very short, only digits, or
    start like a `YYYY-MM-DD` date are copied to a side table. */
module Suspicious {
  import opened Strings
  import opened Seqs
  import Dates

  /** The side table's `suspicious_aspect` value. */
  const Label := "short/numeric/date-like"

  /** `re.match(r'\d{4}-\d{2}-\d{2}', t)`: anchored at the start only. */
  predicate DateLikePrefix(t: string)
  {
    && |t| >= 10
    && AllDigits(t[..4]) && t[4] == '-' && AllDigits(t[5..7]) && t[7] == '-' && AllDigits(t[8..10])
  }

  /** `is_suspicious_title`: the stripped title has at most two characters,
      or is non-empty and all digits (`isdigit`), or starts like a date. */
  predicate IsSuspiciousTitle(title: string)
  {
    var t := Strip(title);
    |t| <= 2 || (|t| > 0 && AllDigits(t)) || DateLikePrefix(t)
  }

  /** The match is not anchored at the end: anything may follow the
      date. */
  lemma DateLikeAnyTail(t: string, tail: string)
    requires DateLikePrefix(t)
    ensures DateLikePrefix(t + tail)
  {
    var u := t + tail;
    assert u[..4] == t[..4] && u[5..7] == t[5..7] && u[8..10] == t[8..10];
  }

  /** A stripped title of three or more characters that starts with a
      letter is not flagged. */
  lemma LetterTitleNotSuspicious(t: string)
    requires |t| >= 3 && IsLetter(t[0]) && !IsSpace(t[|t| - 1])
    ensures !IsSuspiciousTitle(t)
  {
    StripNoEdgeSpace(t);
    assert !IsDigit(t[0]);
    if |t| >= 10 {
      assert t[..4][0] == t[0];
    }
  }

  /** A title that is a release date as the cleaning writes it is flagged. */
  lemma IsoDateSuspicious(d: Dates.Date)
    requires Dates.IsValid(d)
    ensures IsSuspiciousTitle(Dates.Iso(d))
  {
    var r := Dates.Iso(d);
    Dates.IsoFields(d);
    assert r[..10][..4] == r[..4] && r[..10][5..7] == r[5..7] && r[..10][8..10] == r[8..];
    StripNoEdgeSpace(r);
  }

  /** An empty title is flagged. */
  lemma ExampleEmpty()
    ensures IsSuspiciousTitle("")
  {
    StripNoEdgeSpace("");
  }

  /** `" Up "` strips to two characters. */
  lemma ExampleShort()
    ensures IsSuspiciousTitle(" Up ")
  {
    StripSlice(" Up ");
  }

  /** A non-empty title of digits only is flagged. */
  lemma DigitTitleSuspicious(t: string)
    requires |t| > 0 && AllDigits(t)
    ensures IsSuspiciousTitle(t)
  {
    assert IsDigit(t[0]) && IsDigit(t[|t| - 1]);
    StripNoEdgeSpace(t);
  }

  lemma ExampleDigits()
    ensures IsSuspiciousTitle("1917")
  {
    assert AllDigits("1917");
    DigitTitleSuspicious("1917");
  }

  lemma ExampleWord()
    ensures !IsSuspiciousTitle("Avatar")
  {
    LetterTitleNotSuspicious("Avatar");
  }

  /** The side table: the flagged rows, in their order, each with the
      constant label; the main table keeps every row. */
  function SuspiciousRecords<T>(rows: seq<T>, title: T -> string): (r: seq<(T, string)>)
    ensures forall i :: 0 <= i < |r| ==> r[i].1 == Label && IsSuspiciousTitle(title(r[i].0))
    ensures |r| == |Filter(rows, x => IsSuspiciousTitle(title(x)))|
    ensures forall i :: 0 <= i < |r| ==> r[i].0 == Filter(rows, x => IsSuspiciousTitle(title(x)))[i]
  {
    var flagged := Filter(rows, x => IsSuspiciousTitle(title(x)));
    seq(|flagged|, i requires 0 <= i < |flagged| => (flagged[i], Label))
  }

  /** Every flagged row reaches the side table, as often as it occurs and
      in the table's order; no other row does. */
  lemma SuspiciousRecordsRows<T>(rows: seq<T>, title: T -> string, x: T)
    ensures var r := SuspiciousRecords(rows, title);
      var flagged := seq(|r|, i requires 0 <= i < |r| => r[i].0);
      && IsSubsequence(flagged, rows)
      && Count(flagged, x) == if IsSuspiciousTitle(title(x)) then Count(rows, x) else 0
  {
    var r := SuspiciousRecords(rows, title);
    var flagged := seq(|r|, i requires 0 <= i < |r| => r[i].0);
    assert flagged == Filter(rows, x => IsSuspiciousTitle(title(x)));
    FilterIsSubsequence(rows, x => IsSuspiciousTitle(title(x)));
    FilterCount(rows, x => IsSuspiciousTitle(title(x)), x);
  }
}
