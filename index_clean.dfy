/** `index_clean`: the raw CSV rows are repaired to the modal width, put in
    a table whose text columns are filtered by their whitelists, whose
    titles are normalised and whose release dates are resolved, and then
    coerced to typed movies; suspicious titles are copied to a side
    table. */
module IndexClean {
  import opened Wrappers
  import opened Seqs
  import opened Strings
  import opened Dates
  import opened Whitelist
  import opened Title
  import opened Width
  import opened Repair
  import opened Movies
  import opened Numbers
  import Suspicious

  /** The class of the first entry of `table` naming the column, if any. */
  function Lookup(table: seq<(string, CharClass)>, name: string): Option<CharClass>
  {
    if table == [] then None
    else
      match Lookup(table[..|table| - 1], name)
      case Some(w) => Some(w)
      case None =>
        var (col, w) := table[|table| - 1];
        if col == name then Some(w) else None
  }

  lemma {:induction false} LookupAbsent(table: seq<(string, CharClass)>, name: string)
    requires forall t :: 0 <= t < |table| ==> table[t].0 != name
    ensures Lookup(table, name) == None
  {
    if table != [] {
      LookupAbsent(table[..|table| - 1], name);
    }
  }

  lemma WhitelistNamesDistinct()
    ensures forall a, b :: 0 <= a < b < |ColumnWhitelists| ==> ColumnWhitelists[a].0 != ColumnWhitelists[b].0
  {
  }

  /** The first entry naming a column decides its class. */
  lemma {:induction false} LookupFirst(table: seq<(string, CharClass)>, t: nat)
    requires t < |table|
    requires forall u :: 0 <= u < t ==> table[u].0 != table[t].0
    ensures Lookup(table, table[t].0) == Some(table[t].1)
  {
    var prefix := table[..|table| - 1];
    if t == |table| - 1 {
      LookupAbsent(prefix, table[t].0);
    } else {
      assert prefix[t] == table[t];
      LookupFirst(prefix, t);
    }
  }

  /** The entries before position `t` do not name the column of entry `t`. */
  lemma LookupBefore(t: nat)
    requires t < |ColumnWhitelists|
    ensures Lookup(ColumnWhitelists[..t], ColumnWhitelists[t].0) == None
  {
    WhitelistNamesDistinct();
    LookupAbsent(ColumnWhitelists[..t], ColumnWhitelists[t].0);
  }

  /** Entry `t`, when no earlier entry names its column, decides that
      column and no other. */
  lemma LookupStep(table: seq<(string, CharClass)>, t: nat, name: string)
    requires t < |table| && Lookup(table[..t], table[t].0) == None
    ensures name == table[t].0 ==> Lookup(table[..t + 1], name) == Some(table[t].1)
    ensures name != table[t].0 ==> Lookup(table[..t + 1], name) == Lookup(table[..t], name)
  {
    assert table[..t + 1][..t] == table[..t];
  }

  /** One pass of the whitelist loop: after entry `t`, every cell is as
      the first `t + 1` entries leave it. */
  lemma WhitelistStepRows(table: seq<(string, CharClass)>, columns: seq<string>, start: seq<seq<Cell>>,
                          before: seq<seq<Cell>>, after: seq<seq<Cell>>, t: nat)
    requires t < |table| && Lookup(table[..t], table[t].0) == None && NoDup(columns)
    requires |before| == |start| && |after| == |start|
    requires forall i :: 0 <= i < |start| ==> |start[i]| == |columns| && |before[i]| == |columns|
    requires forall i, j :: 0 <= i < |before| && 0 <= j < |columns| ==>
      before[i][j] == CleanedBy(Lookup(table[..t], columns[j]), start[i][j])
    requires table[t].0 !in columns ==> after == before
    requires table[t].0 in columns ==>
      var k := IndexOf(columns, table[t].0);
      forall i :: 0 <= i < |after| ==>
        after[i] == before[i][k := Some(CleanCell(before[i][k], table[t].1))]
    ensures forall i, j :: 0 <= i < |after| && 0 <= j < |columns| ==>
      after[i][j] == CleanedBy(Lookup(table[..t + 1], columns[j]), start[i][j])
  {
    forall i, j | 0 <= i < |after| && 0 <= j < |columns|
      ensures after[i][j] == CleanedBy(Lookup(table[..t + 1], columns[j]), start[i][j])
    {
      var (name, w) := table[t];
      LookupStep(table, t, columns[j]);
      if name in columns {
        var k := IndexOf(columns, name);
        if j == k {
          assert after[i][j] == Some(CleanCell(before[i][j], w));
        } else {
          assert columns[j] != name by {
            assert columns[j] != columns[k];
          }
          assert after[i][j] == before[i][j];
        }
      }
    }
  }

  /** A cell after `clean_column` with the class, if the column has one. */
  function CleanedBy(w: Option<CharClass>, cell: Cell): (r: Cell)
    ensures w.Some? ==> r.Some? && AllAllowed(r.value, w.value)
    ensures w.None? ==> r == cell
  {
    match w
    case None => cell
    case Some(c) => Some(CleanCell(cell, c))
  }

  /** The title step on one cell. */
  function NormalizeCell(cell: Cell): (r: Cell)
    ensures r.Some? <==> cell.Some?
  {
    match cell
    case None => None
    case Some(s) => Some(NormalizeTitle(s))
  }

  /** A repaired row after the whitelist step and the given title and
      date steps. */
  function CleanRowWith(columns: seq<string>, row: seq<Cell>, table: seq<(string, CharClass)>,
                        title: Cell -> Cell, date: Cell -> Cell): (r: seq<Cell>)
    requires |row| == |columns|
    ensures |r| == |row|
  {
    seq(|row|, j requires 0 <= j < |row| =>
      var c := CleanedBy(Lookup(table, columns[j]), row[j]);
      if columns[j] == "original_title" then title(c)
      else if columns[j] == "release_date" then date(c)
      else c)
  }

  /** A repaired row after the whitelist, title and date steps. */
  function CleanRow(columns: seq<string>, row: seq<Cell>): (r: seq<Cell>)
    requires |row| == |columns|
    ensures |r| == |row|
  {
    CleanRowWith(columns, row, ColumnWhitelists, NormalizeCell, ReleaseDate)
  }

  /** The table being cleaned: column names and rows of cells, updated a
      column at a time. */
  class Frame {
    var columns: seq<string>
    var rows: seq<seq<Cell>>

    ghost predicate Valid()
      reads this
    {
      forall i :: 0 <= i < |rows| ==> |rows[i]| == |columns|
    }

    /** `pd.DataFrame(fixed_rows[1:], columns=fixed_rows[0])`. */
    constructor (columns: seq<string>, rows: seq<seq<Cell>>)
      requires forall i :: 0 <= i < |rows| ==> |rows[i]| == |columns|
      ensures Valid() && this.columns == columns && this.rows == rows
    {
      this.columns := columns;
      this.rows := rows;
    }

    /** `df[col] = f(df[col])` for the column at position `k`. */
    method SetColumn(k: nat, f: Cell -> Cell)
      requires Valid() && k < |columns|
      modifies this
      ensures Valid() && columns == old(columns) && |rows| == |old(rows)|
      ensures forall i :: 0 <= i < |rows| ==> rows[i] == old(rows)[i][k := f(old(rows)[i][k])]
    {
      var before := rows;
      rows := seq(|before|, i requires 0 <= i < |before| => before[i][k := f(before[i][k])]);
    }

    /** The loop over the whitelist table: each listed column present in
        the table is replaced by its `clean_column`. */
    method ApplyWhitelists()
      requires Valid() && NoDup(columns)
      modifies this
      ensures Valid() && columns == old(columns) && |rows| == |old(rows)|
      ensures forall i, j :: 0 <= i < |rows| && 0 <= j < |columns| ==>
        rows[i][j] == CleanedBy(Lookup(ColumnWhitelists, columns[j]), old(rows)[i][j])
    {
      ghost var start := rows;
      for t := 0 to |ColumnWhitelists|
        invariant Valid() && columns == old(columns) && |rows| == |start|
        invariant forall i, j :: 0 <= i < |rows| && 0 <= j < |columns| ==>
          rows[i][j] == CleanedBy(Lookup(ColumnWhitelists[..t], columns[j]), start[i][j])
      {
        var (name, w) := ColumnWhitelists[t];
        ghost var before := rows;
        if name in columns {
          var k := IndexOf(columns, name);
          SetColumn(k, cell => Some(CleanCell(cell, w)));
          forall i | 0 <= i < |rows|
            ensures rows[i] == before[i][k := Some(CleanCell(before[i][k], w))]
          {
          }
        }
        LookupBefore(t);
        WhitelistStepRows(ColumnWhitelists, columns, start, before, rows, t);
      }
      assert ColumnWhitelists[..|ColumnWhitelists|] == ColumnWhitelists;
    }

    /** `df['original_title'] = df['original_title'].str.replace(r'\s+',
        ' ', regex=True).str.strip()`. */
    method NormalizeTitles()
      requires Valid() && "original_title" in columns
      modifies this
      ensures Valid() && columns == old(columns) && |rows| == |old(rows)|
      ensures var k := IndexOf(columns, "original_title");
        forall i :: 0 <= i < |rows| ==> rows[i] == old(rows)[i][k := NormalizeCell(old(rows)[i][k])]
    {
      SetColumn(IndexOf(columns, "original_title"), NormalizeCell);
    }

    /** `df["release_date"]` through `fix_ambiguous_date` and
        `strftime("%Y-%m-%d")`. */
    method FixReleaseDates()
      requires Valid() && "release_date" in columns
      modifies this
      ensures Valid() && columns == old(columns) && |rows| == |old(rows)|
      ensures var k := IndexOf(columns, "release_date");
        forall i :: 0 <= i < |rows| ==> rows[i] == old(rows)[i][k := ReleaseDate(old(rows)[i][k])]
    {
      SetColumn(IndexOf(columns, "release_date"), ReleaseDate);
    }
  }

  /** The three column steps on one row give `CleanRowWith`. */
  lemma StepsGiveCleanRow(header: seq<string>, row: seq<Cell>, table: seq<(string, CharClass)>,
                          title: Cell -> Cell, date: Cell -> Cell,
                          cleaned: seq<Cell>, titled: seq<Cell>, dated: seq<Cell>)
    requires NoDup(header) && "original_title" in header && "release_date" in header
    requires |row| == |header| && |cleaned| == |header|
    requires forall j :: 0 <= j < |header| ==>
      cleaned[j] == CleanedBy(Lookup(table, header[j]), row[j])
    requires var k := IndexOf(header, "original_title"); titled == cleaned[k := title(cleaned[k])]
    requires var k := IndexOf(header, "release_date"); dated == titled[k := date(titled[k])]
    ensures dated == CleanRowWith(header, row, table, title, date)
  {
    var kt, kd := IndexOf(header, "original_title"), IndexOf(header, "release_date");
    forall j | 0 <= j < |header|
      ensures dated[j] == CleanRowWith(header, row, table, title, date)[j]
    {
      if j != kt && j != kd {
        assert header[j] != "original_title" && header[j] != "release_date" by {
          assert header[kt] == "original_title" && header[kd] == "release_date";
        }
      }
    }
  }

  /** The cell of a cleaned row under a column, in terms of the repaired
      row's cell. */
  lemma CleanField(header: seq<string>, row: seq<Cell>, name: string)
    requires |row| == |header| && name in header
    ensures var c := CleanedBy(Lookup(ColumnWhitelists, name), Field(header, row, name));
      Field(header, CleanRow(header, row), name) ==
        if name == "original_title" then NormalizeCell(c)
        else if name == "release_date" then ReleaseDate(c)
        else c
  {
  }

  lemma WhitelistTable()
    ensures Lookup(ColumnWhitelists, "cast") == Some(ListChars)
    ensures Lookup(ColumnWhitelists, "homepage") == Some(UrlChars)
    ensures Lookup(ColumnWhitelists, "director") == Some(ListChars)
    ensures Lookup(ColumnWhitelists, "tagline") == Some(TaglineChars)
    ensures Lookup(ColumnWhitelists, "keywords") == Some(ListChars)
    ensures Lookup(ColumnWhitelists, "overview") == Some(OverviewChars)
    ensures Lookup(ColumnWhitelists, "genres") == Some(ListChars)
    ensures Lookup(ColumnWhitelists, "production_companies") == Some(CompanyChars)
    ensures Lookup(ColumnWhitelists, "original_title") == Some(TitleChars)
  {
    WhitelistNamesDistinct();
    LookupFirst(ColumnWhitelists, 0);
    LookupFirst(ColumnWhitelists, 1);
    LookupFirst(ColumnWhitelists, 2);
    LookupFirst(ColumnWhitelists, 3);
    LookupFirst(ColumnWhitelists, 4);
    LookupFirst(ColumnWhitelists, 5);
    LookupFirst(ColumnWhitelists, 6);
    LookupFirst(ColumnWhitelists, 7);
    LookupFirst(ColumnWhitelists, 8);
  }

  lemma NotWhitelisted(name: string)
    requires name in ["id", "imdb_id", "popularity", "release_date", "budget", "revenue", "runtime",
                      "vote_count", "vote_average", "release_year", "budget_adj", "revenue_adj"]
    ensures Lookup(ColumnWhitelists, name) == None
  {
    LookupAbsent(ColumnWhitelists, name);
  }

  /** The text columns of a cleaned movie hold only their whitelisted
      characters. */
  lemma CleanMovieText(header: seq<string>, row: seq<Cell>)
    requires HasSchema(header) && |row| == |header|
    ensures var m := ToMovie(header, CleanRow(header, row));
      && AllAllowed(m.cast, ListChars)
      && AllAllowed(m.homepage, UrlChars)
      && AllAllowed(m.director, ListChars)
      && AllAllowed(m.tagline, TaglineChars)
      && AllAllowed(m.keywords, ListChars)
      && AllAllowed(m.overview, OverviewChars)
      && AllAllowed(m.genres, ListChars)
      && AllAllowed(m.productionCompanies, CompanyChars)
  {
    WhitelistTable();
    CleanField(header, row, "cast");
    CleanField(header, row, "homepage");
    CleanField(header, row, "director");
    CleanField(header, row, "tagline");
    CleanField(header, row, "keywords");
    CleanField(header, row, "overview");
    CleanField(header, row, "genres");
    CleanField(header, row, "production_companies");
  }

  /** The title of a cleaned movie holds only title characters, has no
      whitespace at either end and no run of whitespace, and is its own
      normal form. */
  lemma CleanMovieTitle(header: seq<string>, row: seq<Cell>)
    requires HasSchema(header) && |row| == |header|
    ensures var t := ToMovie(header, CleanRow(header, row)).originalTitle;
      && AllAllowed(t, TitleChars)
      && (t == [] || (!IsSpace(t[0]) && !IsSpace(t[|t| - 1])))
      && SingleSpaced(t)
      && NormalizeTitle(t) == t
  {
    WhitelistTable();
    CleanField(header, row, "original_title");
    var c := CleanedBy(Some(TitleChars), Field(header, row, "original_title"));
    var t := NormalizeTitle(c.value);
    assert ToMovie(header, CleanRow(header, row)).originalTitle == t;
    NormalizeTitleShape(c.value);
    NormalizeTitleIdempotent(c.value);
    NormalizeKeepsTitleChars(c.value);
  }

  /** Normalising a title made of title characters keeps it so: the only
      character it can add is a space. */
  lemma NormalizeKeepsTitleChars(s: string)
    requires AllAllowed(s, TitleChars)
    ensures AllAllowed(NormalizeTitle(s), TitleChars)
  {
    var t := NormalizeTitle(s);
    forall i | 0 <= i < |t|
      ensures Allows(TitleChars, t[i])
    {
      NormalizeTitleChars(s, i);
      if t[i] != ' ' {
        var j :| 0 <= j < |s| && s[j] == t[i];
      }
    }
  }

  /** The whitelists do not touch the release date: a cleaned movie's date
      is the resolved date of the repaired cell, a valid calendar date
      written as `YYYY-MM-DD`. */
  lemma CleanMovieDate(header: seq<string>, row: seq<Cell>)
    requires HasSchema(header) && |row| == |header|
    ensures var r := ToMovie(header, CleanRow(header, row)).releaseDate;
      && r == ReleaseDate(Field(header, row, "release_date"))
      && (r.Some? ==> exists d :: IsValid(d) && r.value == Iso(d))
  {
    NotWhitelisted("release_date");
    CleanField(header, row, "release_date");
    var r := ToMovie(header, CleanRow(header, row)).releaseDate;
    if r.Some? {
      var d := FixAmbiguousDate(Field(header, row, "release_date")).value;
      assert IsValid(d) && r.value == Iso(d);
    }
  }

  /** The key columns keep their text, and the numeric columns are the
      coercions of the repaired cells. */
  lemma CleanMovieUntouched(header: seq<string>, row: seq<Cell>)
    requires HasSchema(header) && |row| == |header|
    ensures var m := ToMovie(header, CleanRow(header, row));
      && m.id == AsText(Field(header, row, "id"))
      && m.imdbId == AsText(Field(header, row, "imdb_id"))
      && m.popularity == AsText(Field(header, row, "popularity"))
      && m.budget == ToIntColumn(Field(header, row, "budget"))
      && m.revenue == ToIntColumn(Field(header, row, "revenue"))
      && m.runtime == ToIntColumn(Field(header, row, "runtime"))
      && m.voteCount == ToIntColumn(Field(header, row, "vote_count"))
      && m.voteAverage == ToTenthsColumn(Field(header, row, "vote_average"))
      && m.releaseYear == ToIntColumn(Field(header, row, "release_year"))
      && m.budgetAdj == ToIntColumn(Field(header, row, "budget_adj"))
      && m.revenueAdj == ToIntColumn(Field(header, row, "revenue_adj"))
  {
    NotWhitelisted("id");
    NotWhitelisted("imdb_id");
    NotWhitelisted("popularity");
    NotWhitelisted("budget");
    NotWhitelisted("revenue");
    NotWhitelisted("runtime");
    NotWhitelisted("vote_count");
    NotWhitelisted("vote_average");
    NotWhitelisted("release_year");
    NotWhitelisted("budget_adj");
    NotWhitelisted("revenue_adj");
    CleanField(header, row, "id");
    CleanField(header, row, "imdb_id");
    CleanField(header, row, "popularity");
    CleanField(header, row, "budget");
    CleanField(header, row, "revenue");
    CleanField(header, row, "runtime");
    CleanField(header, row, "vote_count");
    CleanField(header, row, "vote_average");
    CleanField(header, row, "release_year");
    CleanField(header, row, "budget_adj");
    CleanField(header, row, "revenue_adj");
  }

  /** The column steps of the cleaning, on a table of repaired rows. */
  method CleanColumns(header: seq<string>, fixed: seq<seq<Cell>>) returns (rows: seq<seq<Cell>>)
    requires NoDup(header) && "original_title" in header && "release_date" in header
    requires forall i :: 0 <= i < |fixed| ==> |fixed[i]| == |header|
    ensures |rows| == |fixed|
    ensures forall i :: 0 <= i < |fixed| ==> |rows[i]| == |header| && rows[i] == CleanRow(header, fixed[i])
  {
    var df := new Frame(header, fixed);
    df.ApplyWhitelists();
    ghost var cleaned := df.rows;
    df.NormalizeTitles();
    ghost var titled := df.rows;
    df.FixReleaseDates();
    rows := df.rows;
    forall i | 0 <= i < |rows|
      ensures rows[i] == CleanRow(header, fixed[i])
    {
      StepsGiveCleanRow(header, fixed[i], ColumnWhitelists, NormalizeCell, ReleaseDate, cleaned[i], titled[i], rows[i]);
    }
  }

  /** The whole step: the header row gives the columns, every other row is
      repaired to the modal width and cleaned; the suspicious rows are the
      flagged ones with their label. The source fails on an empty file, on
      a file with no data row (the empty date column is not datetime-like,
      so `.dt.strftime` raises), on a header whose width is not the modal
      one and on a missing schema column; duplicated column names are not
      modelled. */
  method IndexCleanTable(lines: seq<seq<string>>, reparse: Reparse)
    returns (movies: seq<Movie>, suspicious: seq<(Movie, string)>)
    requires |lines| > 1
    requires |lines[0]| == ModalWidth(Lengths(lines))
    requires NoDup(lines[0]) && HasSchema(lines[0])
    ensures |movies| == |lines| - 1
    ensures forall i :: 0 <= i < |movies| ==>
      movies[i] == ToMovie(lines[0], CleanRow(lines[0], RepairRow(lines[i + 1], |lines[0]|, reparse)))
    ensures suspicious == Suspicious.SuspiciousRecords(movies, (m: Movie) => m.originalTitle)
  {
    var n := ModalWidth(Lengths(lines));
    var header := lines[0];
    var fixed := RepairRows(lines[1..], n, reparse);
    var rows := CleanColumns(header, fixed);
    movies := ToMovies(header, rows);
    forall i | 0 <= i < |movies|
      ensures movies[i] == ToMovie(header, CleanRow(header, RepairRow(lines[i + 1], n, reparse)))
    {
      assert lines[1..][i] == lines[i + 1];
    }
    suspicious := Suspicious.SuspiciousRecords(movies, (m: Movie) => m.originalTitle);
  }
}
