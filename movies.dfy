/** The movie table's schema and the type coercion of the cleaning step:
    text columns through `astype(str)`, numeric columns through
    `pd.to_numeric(errors="coerce").fillna(0).astype(int)`. */
module Movies {
  import opened Wrappers
  import opened Numbers
  import opened Repair

  /** One cleaned movie. `voteAverage` is kept in tenths (see
      `Numbers.Tenths`); `releaseDate` is `None` for `NaT`. */
  datatype Movie = Movie(
    id: string,
    imdbId: string,
    popularity: string,
    budget: int,
    revenue: int,
    originalTitle: string,
    cast: string,
    homepage: string,
    director: string,
    tagline: string,
    keywords: string,
    overview: string,
    runtime: int,
    genres: string,
    productionCompanies: string,
    releaseDate: Option<string>,
    voteCount: int,
    voteAverage: int,
    releaseYear: int,
    budgetAdj: int,
    revenueAdj: int)

  /** The columns the cleaning step reads by name; it fails when one is
      missing. */
  predicate HasSchema(columns: seq<string>)
  {
    && "id" in columns && "imdb_id" in columns && "popularity" in columns
    && "budget" in columns && "revenue" in columns && "original_title" in columns
    && "cast" in columns && "homepage" in columns && "director" in columns
    && "tagline" in columns && "keywords" in columns && "overview" in columns
    && "runtime" in columns && "genres" in columns && "production_companies" in columns
    && "release_date" in columns && "vote_count" in columns && "vote_average" in columns
    && "release_year" in columns && "budget_adj" in columns && "revenue_adj" in columns
  }

  /** The position of a column, the first if it occurs more than once. */
  function IndexOf(columns: seq<string>, name: string): (k: nat)
    requires name in columns
    ensures k < |columns| && columns[k] == name
    ensures forall j :: 0 <= j < k ==> columns[j] != name
  {
    if columns[0] == name then 0 else 1 + IndexOf(columns[1..], name)
  }

  /** The cell of `row` under column `name`. */
  function Field(columns: seq<string>, row: seq<Cell>, name: string): Cell
    requires name in columns && |row| == |columns|
  {
    row[IndexOf(columns, name)]
  }

  /** `astype(str)` of a text cell: a missing value becomes `"nan"`. */
  function AsText(cell: Cell): (r: string)
    ensures cell.Some? ==> r == cell.value
    ensures cell.None? ==> r == "nan"
  {
    cell.GetOr("nan")
  }

  /** One row through the coercions of the cleaning step. */
  function ToMovie(columns: seq<string>, row: seq<Cell>): Movie
    requires HasSchema(columns) && |row| == |columns|
  {
    Movie(
      id := AsText(Field(columns, row, "id")),
      imdbId := AsText(Field(columns, row, "imdb_id")),
      popularity := AsText(Field(columns, row, "popularity")),
      budget := ToIntColumn(Field(columns, row, "budget")),
      revenue := ToIntColumn(Field(columns, row, "revenue")),
      originalTitle := AsText(Field(columns, row, "original_title")),
      cast := AsText(Field(columns, row, "cast")),
      homepage := AsText(Field(columns, row, "homepage")),
      director := AsText(Field(columns, row, "director")),
      tagline := AsText(Field(columns, row, "tagline")),
      keywords := AsText(Field(columns, row, "keywords")),
      overview := AsText(Field(columns, row, "overview")),
      runtime := ToIntColumn(Field(columns, row, "runtime")),
      genres := AsText(Field(columns, row, "genres")),
      productionCompanies := AsText(Field(columns, row, "production_companies")),
      releaseDate := Field(columns, row, "release_date"),
      voteCount := ToIntColumn(Field(columns, row, "vote_count")),
      voteAverage := ToTenthsColumn(Field(columns, row, "vote_average")),
      releaseYear := ToIntColumn(Field(columns, row, "release_year")),
      budgetAdj := ToIntColumn(Field(columns, row, "budget_adj")),
      revenueAdj := ToIntColumn(Field(columns, row, "revenue_adj")))
  }

  /** The coercions applied to every row of a table. */
  function ToMovies(columns: seq<string>, rows: seq<seq<Cell>>): (r: seq<Movie>)
    requires HasSchema(columns) && forall i :: 0 <= i < |rows| ==> |rows[i]| == |columns|
    ensures |r| == |rows| && forall i :: 0 <= i < |rows| ==> r[i] == ToMovie(columns, rows[i])
  {
    seq(|rows|, i requires 0 <= i < |rows| => ToMovie(columns, rows[i]))
  }
}
