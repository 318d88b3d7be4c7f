/** The unusual-character diagnostics: for every text column, each
    character outside the base whitelist, with its number of occurrences
    in the column's space-joined text. */
module IndexCheck {
  import opened Wrappers
  import opened Seqs
  import opened Strings
  import opened Whitelist

  /** A loaded column: its name, whether pandas gave it the object dtype,
      and its cells (`None` for a missing value). */
  datatype Column = Column(name: string, isObject: bool, values: seq<Option<string>>)

  /** One line of the report. */
  datatype ReportRow = ReportRow(column: string, character: char, occurrences: nat)

  function Names(columns: seq<Column>): (r: seq<string>)
    ensures |r| == |columns| && forall k :: 0 <= k < |columns| ==> r[k] == columns[k].name
  {
    seq(|columns|, k requires 0 <= k < |columns| => columns[k].name)
  }

  /** `dropna()`: the present values, in order. */
  function Present(values: seq<Option<string>>): (r: seq<string>)
    ensures |r| <= |values|
  {
    if values == [] then []
    else (if values[0].Some? then [values[0].value] else []) + Present(values[1..])
  }

  /** `" ".join(...)` of the present values of a column. */
  function Joined(values: seq<Option<string>>): string
  {
    JoinWith(Present(values), ' ')
  }

  /** A character the base whitelist does not match. */
  predicate Unusual(c: char)
  {
    !Allows(BaseChars, c)
  }

  /** The occurrences of `c` summed over the pieces. */
  function SumCounts(pieces: seq<string>, c: char): nat
  {
    if pieces == [] then 0 else Count(pieces[0], c) + SumCounts(pieces[1..], c)
  }

  /** Joining adds only separators: every other character occurs in the
      joined text as often as in the pieces together. */
  lemma {:induction false} JoinCount(pieces: seq<string>, sep: char, c: char)
    requires c != sep
    ensures Count(JoinWith(pieces, sep), c) == SumCounts(pieces, c)
  {
    if |pieces| == 1 {
      assert SumCounts(pieces[1..], c) == 0;
    } else if |pieces| > 1 {
      JoinCount(pieces[1..], sep, c);
      CountAppend(pieces[0] + [sep], JoinWith(pieces[1..], sep), c);
      CountAppend(pieces[0], [sep], c);
    }
  }

  /** A reported character is never the join's space, so its count in the
      joined text is its count over the column's present values. */
  lemma ReportedCountIsColumnCount(values: seq<Option<string>>, c: char)
    requires Unusual(c)
    ensures c != ' '
    ensures Count(Joined(values), c) == SumCounts(Present(values), c)
  {
    JoinCount(Present(values), ' ', c);
  }

  /** Line `r` names column `name` and counts an unusual character of
      its joined text, which occurs there. */
  predicate IsCountLine(r: ReportRow, name: string, joined: string)
  {
    && r.column == name
    && Unusual(r.character)
    && r.occurrences == Count(joined, r.character)
    && r.occurrences >= 1
  }

  /** Some line of `rows` is about character `c`. */
  ghost predicate Listed(rows: seq<ReportRow>, c: char)
  {
    exists i :: 0 <= i < |rows| && rows[i].character == c
  }

  lemma ListedAppend(rows: seq<ReportRow>, r: ReportRow, c: char)
    requires Listed(rows, c) || r.character == c
    ensures Listed(rows + [r], c)
  {
    if r.character == c {
      assert (rows + [r])[|rows|] == r;
    } else {
      var i :| 0 <= i < |rows| && rows[i].character == c;
      assert (rows + [r])[i] == rows[i];
    }
  }

  /** The report lines of one column: one per unusual character of its
      joined text, in the order the set of characters is visited. */
  method ColumnReport(col: Column) returns (rows: seq<ReportRow>)
    ensures !col.isObject ==> rows == []
    ensures forall i :: 0 <= i < |rows| ==>
      && rows[i].column == col.name
      && Unusual(rows[i].character)
      && rows[i].occurrences == Count(Joined(col.values), rows[i].character)
      && rows[i].occurrences >= 1
    ensures forall i, j :: 0 <= i < j < |rows| ==> rows[i].character != rows[j].character
    ensures col.isObject ==> forall c :: c in Joined(col.values) && Unusual(c) ==>
      exists i :: 0 <= i < |rows| && rows[i].character == c
  {
    rows := [];
    if col.isObject {
      var joined := Joined(col.values);
      var unusual := set c | c in joined && Unusual(c);
      ghost var all := unusual;
      while unusual != {}
        invariant unusual <= all
        invariant forall i :: 0 <= i < |rows| ==>
          IsCountLine(rows[i], col.name, joined) && rows[i].character in all && rows[i].character !in unusual
        invariant forall i, j :: 0 <= i < j < |rows| ==> rows[i].character != rows[j].character
        invariant forall c :: c in all && c !in unusual ==> Listed(rows, c)
        decreases |unusual|
      {
        var ch :| ch in unusual;
        CountPositive(joined, ch);
        ghost var prev := rows;
        var line := ReportRow(col.name, ch, Count(joined, ch));
        rows := rows + [line];
        unusual := unusual - {ch};
        forall c | c in all && c !in unusual
          ensures Listed(rows, c)
        {
          ListedAppend(prev, line, c);
        }
      }
      forall c | c in joined && Unusual(c)
        ensures exists i :: 0 <= i < |rows| && rows[i].character == c
      {
        assert c in all && Listed(rows, c);
      }
    }
  }

  /** Line `r` was drawn from object column `k` and counts an unusual
      character of its joined text. */
  ghost predicate LineOf(columns: seq<Column>, r: ReportRow, k: nat)
  {
    && k < |columns|
    && columns[k].isObject
    && r.column == columns[k].name
    && Unusual(r.character)
    && r.occurrences == Count(Joined(columns[k].values), r.character)
    && r.occurrences >= 1
  }

  /** Every line was drawn, from a column before `k`, as `origin` says. */
  ghost predicate Sound(columns: seq<Column>, report: seq<ReportRow>, origin: seq<nat>, k: nat)
  {
    && |origin| == |report|
    && forall i :: 0 <= i < |report| ==> origin[i] < k && LineOf(columns, report[i], origin[i])
  }

  /** No character is reported twice for one column. */
  ghost predicate Once(report: seq<ReportRow>, origin: seq<nat>)
    requires |origin| == |report|
  {
    forall i, j :: 0 <= i < j < |report| && origin[i] == origin[j] ==> report[i].character != report[j].character
  }

  /** Some report line drawn from column `k` names `c`. */
  ghost predicate Covers(report: seq<ReportRow>, origin: seq<nat>, k: nat, c: char)
    requires |origin| == |report|
  {
    exists i :: 0 <= i < |report| && origin[i] == k && report[i].character == c
  }

  /** Every unusual character of every object column before `k` is covered. */
  ghost predicate Complete(columns: seq<Column>, report: seq<ReportRow>, origin: seq<nat>, k: nat)
    requires |origin| == |report|
  {
    forall k', c :: 0 <= k' < k && k' < |columns| && columns[k'].isObject && c in Joined(columns[k'].values) && Unusual(c) ==>
      Covers(report, origin, k', c)
  }

  /** What `ColumnReport` promises about the lines of column `k`. */
  ghost predicate ColumnLines(columns: seq<Column>, k: nat, rows: seq<ReportRow>)
    requires k < |columns|
  {
    && (forall i :: 0 <= i < |rows| ==> (columns[k].isObject && LineOf(columns, rows[i], k)))
    && (forall i, j :: 0 <= i < j < |rows| ==> rows[i].character != rows[j].character)
    && (columns[k].isObject ==> forall c :: c in Joined(columns[k].values) && Unusual(c) ==>
         exists i :: 0 <= i < |rows| && rows[i].character == c)
  }

  lemma SoundStep(columns: seq<Column>, report: seq<ReportRow>, origin: seq<nat>, k: nat, rows: seq<ReportRow>)
    requires k < |columns| && Sound(columns, report, origin, k) && ColumnLines(columns, k, rows)
    ensures Sound(columns, report + rows, origin + seq(|rows|, _ => k), k + 1)
  {
    var r, o := report + rows, origin + seq(|rows|, _ => k);
    forall i | 0 <= i < |r|
      ensures o[i] < k + 1 && LineOf(columns, r[i], o[i])
    {
      if i < |report| {
        assert r[i] == report[i] && o[i] == origin[i];
      } else {
        assert r[i] == rows[i - |report|] && o[i] == k;
      }
    }
  }

  lemma OnceStep(columns: seq<Column>, report: seq<ReportRow>, origin: seq<nat>, k: nat, rows: seq<ReportRow>)
    requires k < |columns| && Sound(columns, report, origin, k) && Once(report, origin) && ColumnLines(columns, k, rows)
    ensures Once(report + rows, origin + seq(|rows|, _ => k))
  {
    var r, o := report + rows, origin + seq(|rows|, _ => k);
    forall i, j | 0 <= i < j < |r|
      ensures o[i] == o[j] ==> r[i].character != r[j].character
    {
      if j < |report| {
        assert r[i] == report[i] && o[i] == origin[i];
        assert r[j] == report[j] && o[j] == origin[j];
      } else if i < |report| {
        assert o[i] == origin[i] < k && o[j] == k;
      } else {
        assert r[i] == rows[i - |report|] && r[j] == rows[j - |report|];
      }
    }
  }

  lemma CompleteStep(columns: seq<Column>, report: seq<ReportRow>, origin: seq<nat>, k: nat, rows: seq<ReportRow>)
    requires k < |columns| && |origin| == |report| && Complete(columns, report, origin, k) && ColumnLines(columns, k, rows)
    ensures Complete(columns, report + rows, origin + seq(|rows|, _ => k), k + 1)
  {
    var r, o := report + rows, origin + seq(|rows|, _ => k);
    forall k', c | 0 <= k' < k + 1 && k' < |columns| && columns[k'].isObject && c in Joined(columns[k'].values) && Unusual(c)
      ensures Covers(r, o, k', c)
    {
      if k' == k {
        var j :| 0 <= j < |rows| && rows[j].character == c;
        assert r[|report| + j] == rows[j] && o[|report| + j] == k;
      } else {
        var i :| 0 <= i < |report| && origin[i] == k' && report[i].character == c;
        assert r[i] == report[i] && o[i] == origin[i];
      }
    }
  }

  /** The loop over the columns; pandas gives every column a distinct
      name. Each line belongs to an object column, names an unusual
      character with its count in that column's joined text, every unusual
      character of every object column is reported, and no (column,
      character) pair is reported twice. */
  method UnusualCharacterReport(columns: seq<Column>) returns (report: seq<ReportRow>)
    requires NoDup(Names(columns))
    ensures forall i :: 0 <= i < |report| ==> exists k :: (
      && 0 <= k < |columns|
      && columns[k].isObject
      && report[i].column == columns[k].name
      && Unusual(report[i].character)
      && report[i].occurrences == Count(Joined(columns[k].values), report[i].character)
      && report[i].occurrences >= 1)
    ensures forall k, c :: 0 <= k < |columns| && columns[k].isObject && c in Joined(columns[k].values) && Unusual(c) ==>
      exists i :: 0 <= i < |report| && report[i].column == columns[k].name && report[i].character == c
    ensures forall i, j :: 0 <= i < j < |report| ==>
      report[i].column != report[j].column || report[i].character != report[j].character
  {
    report := [];
    ghost var origin: seq<nat> := [];
    for k := 0 to |columns|
      invariant Sound(columns, report, origin, k)
      invariant Once(report, origin)
      invariant Complete(columns, report, origin, k)
    {
      var rows := ColumnReport(columns[k]);
      assert ColumnLines(columns, k, rows);
      SoundStep(columns, report, origin, k, rows);
      OnceStep(columns, report, origin, k, rows);
      CompleteStep(columns, report, origin, k, rows);
      report, origin := report + rows, origin + seq(|rows|, _ => k);
    }
    forall i | 0 <= i < |report|
      ensures exists k :: (
        && 0 <= k < |columns|
        && columns[k].isObject
        && report[i].column == columns[k].name
        && Unusual(report[i].character)
        && report[i].occurrences == Count(Joined(columns[k].values), report[i].character)
        && report[i].occurrences >= 1)
    {
      var k := origin[i];
      assert LineOf(columns, report[i], k);
      assert columns[k].isObject && report[i].column == columns[k].name;
    }
    assert forall i :: 0 <= i < |report| ==> exists k :: (
      && 0 <= k < |columns|
      && columns[k].isObject
      && report[i].column == columns[k].name
      && Unusual(report[i].character)
      && report[i].occurrences == Count(Joined(columns[k].values), report[i].character)
      && report[i].occurrences >= 1);
    forall k, c | 0 <= k < |columns| && columns[k].isObject && c in Joined(columns[k].values) && Unusual(c)
      ensures exists i :: 0 <= i < |report| && report[i].column == columns[k].name && report[i].character == c
    {
      assert Covers(report, origin, k, c);
      var i :| 0 <= i < |report| && origin[i] == k && report[i].character == c;
      assert LineOf(columns, report[i], origin[i]);
    }
    forall i, j | 0 <= i < j < |report| && report[i].column == report[j].column
      ensures report[i].character != report[j].character
    {
      assert LineOf(columns, report[i], origin[i]) && LineOf(columns, report[j], origin[j]);
      assert Names(columns)[origin[i]] == Names(columns)[origin[j]];
    }
  }
}
