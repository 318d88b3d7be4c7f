# Movie CSV cleaning and reports, modelled in Dafny

The repository is a set of pandas scripts over the TMDB movie CSV. This
project models their sequential core on sequences of strings and integers:

- the cleaning pipeline `index_clean` (and its standalone copy
  `2.Index-Clean.py`): the modal row width, the repair of rows of another
  width, the per-column character whitelists, the title whitespace
  normalisation, the release-date resolver with its month/day swap and
  two-digit-year window, the numeric coercion, and the suspicious-title
  side table;
- the deduplication by `id` (`remove_duplicates`, `3.Duplicate.py`);
- the unusual-character report of `1.Index-Check.py` (and `index_check`);
- the reports: pipe-split name counts, company counts and per-company
  profit sums, the top ten by profit, the profit-and-loss extremes, the
  lowest and highest revenue rows, the top-rated filter, and the listing
  by release date, newest first.

One module per concern: `Seqs`, `Strings`, `Wrappers` and `Sorting` hold the
sequence, text and ordering vocabulary; `Width`, `Repair`, `Whitelist`,
`Title`, `Dates`, `Numbers`, `Movies`, `Suspicious` and `IndexClean` model
the cleaning; `IndexCheck` the diagnostics; `Dedup` the deduplication;
`Counts` and `Reports` the reports. The loaded table is `IndexClean.Frame`
(its columns are reassigned one at a time), the deduplicated table is
`Dedup.Table` (changed in place), and a report's table with its added
profit column is `Reports.ProfitFrame`. Reports read their columns through
accessor functions, with `None` for a missing value (NaN).

## Model

| member | source | states |
|---|---|---|
| Width.ModalWidth | main.py:80-83 | the expected width occurs among the row widths (header included) and no width occurs more often |
| Width.BadRows | 1.Index-Check.py:14 | exactly the indices of rows whose width differs from the expected one, ascending |
| Width.NoBadRows | 1.Index-Check.py:13-14 | no bad row exactly when all rows share one width |
| Repair.PadOrTruncate | main.py:100 | exactly `n` fields: the row's fields up to `n`, then empty strings |
| Repair.RepairRow | main.py:91-104 | a repaired row has exactly `n` fields; a row of width `n` is kept as it is; otherwise it is the re-parse's row or the padded/truncated row |
| Repair.PadKeepsPrefix | main.py:100 | padding or truncating keeps the common prefix of row and width and adds only empty fields |
| Repair.RepairRows | main.py:85-104 | one repaired row per data row, in order, each `RepairRow` of its input, each of width `n` |
| Whitelist.HomepageIsUriCharacters | main.py:115 | the homepage class is exactly the unreserved and reserved URI characters of RFC 3986 sections 2.2 and 2.3; `%` is not in it |
| Whitelist.Clean | main.py:109-111 | the result is no longer than the input and holds only allowed characters |
| Whitelist.CleanCell | main.py:111 | a cleaned cell holds only allowed characters; a missing cell becomes the empty string |
| Whitelist.CleanIsSubsequence | main.py:110-111 | cleaning only deletes characters |
| Whitelist.CleanCounts | main.py:110-111 | every allowed character keeps all its occurrences, every other character loses all |
| Whitelist.CleanAppend | main.py:110-111 | cleaning a concatenation is the concatenation of the cleanings |
| Whitelist.CleanIdentity | main.py:110-111 | a string is unchanged by cleaning exactly when all its characters are allowed |
| Whitelist.CleanIdempotent | 2.Index-Clean.py:44-62 | a second cleaning changes nothing |
| IndexClean.LookupFirst | main.py:113-127 | the first table entry naming a column decides its class |
| IndexClean.WhitelistTable | main.py:113-123 | the class of each whitelisted column, as the table lists it |
| IndexClean.NotWhitelisted | main.py:125-127 | key, date and numeric columns have no whitelist and are not touched |
| IndexClean.Frame.SetColumn | main.py:127 | the one column is replaced by its image under the step, everything else stays |
| IndexClean.Frame.ApplyWhitelists | main.py:125-127 | every cell of a whitelisted column is its cleaning, every other cell is unchanged |
| IndexClean.Frame.NormalizeTitles | main.py:129 | the title column is normalised, every other column unchanged |
| IndexClean.Frame.FixReleaseDates | main.py:160-161 | the date column is resolved and rendered, every other column unchanged |
| IndexClean.StepsGiveCleanRow | main.py:125-161 | the three column steps on one row give the cleaned row |
| IndexClean.CleanField | main.py:125-161 | a cleaned row's cell is the whitelist cleaning of the repaired cell, then the title or date step for those two columns |
| IndexClean.CleanColumns | main.py:106-161 | every cleaned row is the cleaning of its repaired row, width kept |
| IndexClean.CleanMovieText | main.py:113-127 | every text column of a cleaned movie holds only its whitelisted characters |
| IndexClean.CleanMovieTitle | main.py:122-129 | a cleaned title holds only title characters, is stripped, single-spaced and its own normal form |
| IndexClean.NormalizeKeepsTitleChars | main.py:122-129 | normalising a whitelisted title keeps it whitelisted |
| IndexClean.CleanMovieDate | main.py:160-161 | a cleaned release date is the resolution of the repaired cell and, when present, a valid date in `YYYY-MM-DD` form |
| IndexClean.CleanMovieUntouched | 2.Index-Clean.py:114-133 | `id`, `imdb_id` and `popularity` keep their text; the numeric columns are the coercions of the repaired cells |
| IndexClean.IndexCleanTable | main.py:74-185 | one movie per data row, in order: the coerced cleaning of the repaired row; the side table is the flagged movies with their label |
| Title.CollapseSpaces | main.py:129 | collapsing empties only the empty string and keeps whether the text starts with whitespace |
| Title.CollapseKeepsText | main.py:129 | collapsing keeps the non-whitespace characters, in order |
| Title.CollapseSingleSpaced | main.py:129 | after collapsing, whitespace occurs only as single plain spaces |
| Title.CollapseIdentity | main.py:129 | a single-spaced string is its own collapse |
| Title.StripKeepsText | main.py:129 | stripping removes only whitespace |
| Title.StripSingleSpaced | main.py:129 | stripping keeps a string single-spaced |
| Title.NormalizeTitleShape | main.py:129 | a normalised title has no whitespace at either end, only single spaces inside, and the input's non-whitespace characters in order |
| Title.NormalizeTitleIdempotent | main.py:129 | normalising twice is normalising once |
| Title.NormalizeTitleChars | main.py:129 | every character of a normalised title is a space or a character of the input |
| Numbers.ParsePyIntRejects | main.py:141-144 | a string with a character that cannot be in an integer literal is not an integer |
| Numbers.ParsePyIntShow | main.py:142-144 | `int` reads an integer written out in decimal back as itself |
| Numbers.ToIntColumnShow | 2.Index-Clean.py:117-133 | an integer written out is read back as itself, by `int` and by the numeric coercion |
| Numbers.ParseDecimalShown | 2.Index-Clean.py:117-133 | a written integer followed by a point and digits parses into its sign, magnitude and fraction |
| Numbers.ParseUnsignedChars | 2.Index-Clean.py:117-133 | only digits and the decimal point get through the number parser |
| Numbers.ToIntColumnTruncates | 2.Index-Clean.py:117-133 | fractional values are truncated toward zero; the rating key keeps the first fraction digit |
| Numbers.ToIntColumnRejects | 2.Index-Clean.py:117-133 | text that is not a number coerces to 0, and the rating to 0.0 |
| Numbers.CoercionRejectsText | 2.Index-Clean.py:117 | `"abc"` coerces to 0 |
| Numbers.CoercionTenths | 2.Index-Clean.py:130 | `"8.1"` is kept as 81 tenths |
| Numbers.CoercionTruncatesNegative | 2.Index-Clean.py:117 | `"-3.9"` coerces to -3 |
| Dates.ResolveParts | main.py:141-156 | a resolved date is a valid calendar date within the `Timestamp` range |
| Dates.FixAmbiguousDate | main.py:134-158 | a resolved date is valid; a missing or blank cell, or one without exactly three `/`-parts, resolves to nothing |
| Dates.FixRejectsNonInteger | main.py:141-144 | a part that is not an integer makes the date missing |
| Dates.ReadParts | main.py:141-158 | reading the three parts: a part that is not an integer gives no date |
| Dates.ResolveYearWindow | main.py:147-155 | years of 100 and above are kept; two-digit years land on the latest year of [1900, 2015] with the same last two digits; years below -100 do not resolve |
| Dates.Iso | main.py:161 | the rendering has ten characters |
| Dates.ReleaseDate | main.py:160-161 | a date is rendered exactly when it resolves |
| Dates.IsoFields | main.py:161 | the rendering is a `full-date` of section 5.6 of RFC 3339 whose fields read back as the date |
| Dates.IsoOrder | 5.Release_DESC.py:5 | text order of renderings is calendar order, and distinct dates render differently |
| Dates.SlashDateParts | main.py:137-140 | a date written with slashes is not blank and splits into its three numbers |
| Dates.SlashDateRead | main.py:137-156 | a date written with slashes resolves as its three numbers do |
| Dates.FixMonthFirst | main.py:141-156 | a valid date written month first with its full year reads back as itself |
| Dates.FixDayFirst | main.py:145-146 | a valid date written day first reads back as itself when the day is above 12 |
| Dates.FixTwoDigitYear | main.py:147-155 | a date of the window with a two-digit year reads back as itself exactly when its year is after 1915 |
| Dates.FixRejectsInvalid | main.py:156-158 | a month/day pair that is no day of the year resolves to nothing |
| Dates.ExampleTwoDigitYear | 2.Index-Clean.py:95-106 | `"1/5/15"` is 5 January 2015 |
| Dates.ExampleSwap | 2.Index-Clean.py:91-92 | `"13/5/99"` is 13 May 1999 |
| Dates.ExampleLastCentury | 2.Index-Clean.py:99-102 | `"5/13/16"` is 13 May 1916 |
| Dates.ExampleNoSuchDay | 2.Index-Clean.py:106-108 | `"4/31/10"` is missing |
| Movies.AsText | 2.Index-Clean.py:114-128 | `astype(str)` keeps present text and writes a missing value as `"nan"` |
| Movies.ToMovies | 2.Index-Clean.py:114-133 | one typed movie per row, in order |
| Suspicious.DateLikeAnyTail | main.py:177 | the date match is anchored at the start only |
| Suspicious.LetterTitleNotSuspicious | main.py:175-179 | a stripped title of three or more characters starting with a letter is not flagged |
| Suspicious.IsoDateSuspicious | main.py:177 | a title that is a rendered release date is flagged |
| Suspicious.ExampleEmpty | 2.Index-Clean.py:136-140 | an empty title is flagged |
| Suspicious.ExampleShort | 2.Index-Clean.py:137-138 | a title stripping to two characters is flagged |
| Suspicious.ExampleDigits | 2.Index-Clean.py:138 | an all-digit title is flagged |
| Suspicious.DigitTitleSuspicious | main.py:175-177 | every non-empty title made of digits only is flagged |
| Suspicious.ExampleWord | 2.Index-Clean.py:136-140 | an ordinary word is not flagged |
| Suspicious.SuspiciousRecords | main.py:181-184 | every side-table row is flagged and carries the label, in the order of the flagged rows |
| Suspicious.SuspiciousRecordsRows | 2.Index-Clean.py:142-145 | every flagged row reaches the side table as often as it occurs, in order, and no other row does |
| IndexCheck.JoinCount | 1.Index-Check.py:34 | joining adds only separators: other characters occur as often as in the pieces together |
| IndexCheck.ReportedCountIsColumnCount | 1.Index-Check.py:34-42 | a reported character is never the join's space, so its count is its count over the column's present values |
| IndexCheck.ColumnReport | 1.Index-Check.py:33-43 | only object columns report; each line names an unusual character of the joined text with its count (at least one); each character once; every unusual character is reported |
| IndexCheck.UnusualCharacterReport | 1.Index-Check.py:32-43 | every line comes from an object column and counts an unusual character of it; every unusual character of every object column is reported; no (column, character) pair twice |
| Dedup.DuplicatedRows | 3.Duplicate.py:5 | the selection is exactly the rows whose id occurs twice or more, first occurrences included, in order |
| Dedup.DedupIdsDistinct | 3.Duplicate.py:8 | after deduplication no two rows share an id |
| Dedup.DedupSubsequence | 3.Duplicate.py:8 | deduplication keeps whole rows, in order |
| Dedup.DedupSameIds | 3.Duplicate.py:8 | the set of ids is unchanged |
| Dedup.DedupIdempotent | 3.Duplicate.py:8 | a second pass removes nothing |
| Dedup.DedupKeepsFirst | 3.Duplicate.py:8 | `keep="first"`: a row is kept exactly when no earlier row has its id, and the kept rows stay in order |
| Dedup.Table.DropDuplicates | main.py:198 | the table becomes the first row of each id, in order |
| Counts.SplitStrip | 10.Director-Actor.py:7 | one stripped piece per `|`-separated part |
| Counts.Pieces | 10.Director-Actor.py:7 | every counted piece is stripped |
| Counts.PiecesStripped | 11.Genres.py:7 | stripping a counted piece again changes nothing |
| Counts.PiecesLength | 10.Director-Actor.py:7 | the number of pieces is one more than the number of `|` in each present cell |
| Counts.DistinctHas | 10.Director-Actor.py:10 | the distinct values, listed once each, are exactly the values of the column |
| Counts.Ranked | 10.Director-Actor.py:10 | a ranking is the keys with their values, reordered, largest value first |
| Counts.ValueCountsRows | 10.Director-Actor.py:10 | every distinct piece once, with its number of occurrences, most frequent first |
| Counts.ValueCountsTotal | 11.Genres.py:10 | the counts add up to the number of pieces |
| Counts.TopIsMostFrequent | 10.Director-Actor.py:10-14 | the top entry of a non-empty column is one of its pieces with its own number of occurrences, and occurs at least as often as every piece |
| Counts.TopCounts | 13.Pro_Comp.py:20-24 | the first `n` entries of the counts (all of them when there are fewer distinct pieces), with their counts, most frequent first, none less frequent than a piece left out |
| Counts.GroupSumsRows | 13.Pro_Comp.py:30-33 | each listed key with the sum of its entries, once, largest sum first |
| Counts.GroupSumsComplete | 13.Pro_Comp.py:30-32 | every key of the entries is listed |
| Counts.TopSums | 13.Pro_Comp.py:30-34 | the first `n` keys of the sums (all of them when there are fewer keys), with their sums, largest first, none smaller than a key left out |
| Counts.TotalPermutation | 11.Genres.py:10 | reordering a listing does not change its total |
| Reports.Profit | 9.Top10.py:5 | the profit is present exactly when both operands are, and added to the budget gives the revenue |
| Reports.ProfitFrame.AddProfit | 9.Top10.py:5 | the rows stay as they are, each with its profit |
| Reports.NonNullProfitRows | 9.Top10.py:7 | exactly the rows with a profit, in order |
| Reports.ByProfitDesc | 9.Top10.py:9 | the rows rearranged, largest profit first |
| Reports.ByProfitAsc | main.py:314 | the rows rearranged, smallest profit first |
| Reports.TopProfitRows | 9.Top10.py:9-11 | the sorted rows are the rows with a profit rearranged, largest first; the shown rows are the first ten of them (all when fewer), none below a row not shown |
| Reports.WinnersRows | main.py:310-313 | the first ten eligible rows by profit, largest first (all when fewer), all with positive budget and revenue, none with a smaller profit than an eligible row left out |
| Reports.LosersRows | main.py:310-314 | the first ten eligible rows by profit, smallest first (all when fewer), all with positive budget and revenue, none with a larger profit than an eligible row left out |
| Reports.MinOf | 7.Min_Max.py:6 | missing exactly when every value is; otherwise attained and at most every present value |
| Reports.MaxOf | 7.Min_Max.py:7 | missing exactly when every value is; otherwise attained and at least every present value |
| Reports.MinRows | 7.Min_Max.py:9 | the rows shown are exactly those attaining the minimum, in order; there is one when a value is present |
| Reports.MaxRows | 7.Min_Max.py:10 | the rows shown are exactly those attaining the maximum, in order; there is one when a value is present |
| Reports.RatedRows | 6.Avg_rating.py:5-7 | the filter keeps exactly the rows rated 7.5 or more, in order; the listing is those rows rearranged, highest first |
| Reports.ReleaseOrderTotal | 5.Release_DESC.py:5 | descending text order with missing dates last is a total preorder |
| Reports.ReleaseDescRows | 5.Release_DESC.py:5 | the listing is the table rearranged, dated rows first, newest first |
| Reports.ReleaseDescChronological | 5.Release_DESC.py:5 | for rendered dates the listing is newest first by calendar |
| Reports.TopNameIsMostFrequent | 10.Director-Actor.py:7-14 | the top name is a piece of the column with its own number of occurrences, occurs at least as often as every other piece, and exists when there is a piece |
| Reports.ExplodedCompanies | 13.Pro_Comp.py:10-17 | one exploded entry per company piece, in order, stripped |
| Reports.TopCompaniesByCountRows | 13.Pro_Comp.py:20-24 | the first ten companies of the film counts (all when fewer), with their counts, most first, none with fewer than a company left out |
| Reports.TopCompaniesByProfitRows | 13.Pro_Comp.py:30-35 | the first ten companies of the profit sums (all when fewer), with their total profit, largest first, none with less than a company left out |
| Sorting.Sort | 9.Top10.py:9 | the rows rearranged, each may be listed before every later one |
| Sorting.HeadDominates | 9.Top10.py:11 | the head is the first `k` sorted rows (all when fewer), and none of them ranks below a row left out |
| Strings.LexTotal | 5.Release_DESC.py:5 | text order is total |
| Strings.LexTransitive | 5.Release_DESC.py:5 | text order is transitive |

## Left out

- Input and output: downloading (`0.Getfile.py`, `get_file` at main.py:31-41), every `to_csv`, `print` and logging call, and `clean_headers` (main.py:206-209). Three reports change the table they export: `top_profit`, `top_pnl` and `top_company` add a `profit` column in place (main.py:265, 310, 328; 9.Top10.py:5; 13.Pro_Comp.py:7). That addition is `Reports.ProfitFrame.AddProfit`, which keeps the rows and sets the new column. Every other report returns its table unchanged.
- `total_revenue` (main.py:253-257) is outside the modelled core.
- The plots and the regression (main.py:348-404) are floating-point numerics and drawing.
- CSV tokenising: rows enter as given sequences of fields. The re-parse of a repaired row with `pd.read_csv` is a parameter, `Repair.Reparse`, that returns the first row read or nothing.
- `Repair.Reparse`: gives every re-parsed cell as text (its `str()`), whereas `temp_df.iloc[0].tolist()` at main.py:96-98 holds Python `int` and `float` values. A re-parsed row with a number in the `release_date` position makes `date_str.strip()` at main.py:135 raise `AttributeError` outside the `try` and stop the script; the model reads that cell as text and goes on.
- Regular expressions are written as character predicates. `\s` is taken as ASCII whitespace and `\d` and `isdigit` as ASCII digits, whereas Python's are Unicode-aware.
- `Numbers.ParseDecimal`: does not accept exponents, `inf` or `nan`, which `pd.to_numeric` reads as floats; such cells coerce to 0 in the model. In the source `nan` does become 0, but `1e3` becomes 1000, and `inf` stays infinite after `fillna(0)`, so `.astype(int)` raises (2.Index-Clean.py:117-133). The model gives 0 for both and does not model the crash.
- `Numbers.ToIntColumn`: uses unbounded integers and exact decimals. The source goes through float64 and int64 (`pd.to_numeric(...).fillna(0).astype(int)`), so it loses precision above 2^53 and wraps or fails above 2^63; neither limit is modelled. The float64 path is taken whenever any cell of the column is a fraction, empty or not a number, since the NaN that coercion produces makes the whole column float64; only a column of plain integers stays int64.
- `vote_average` is kept as an integer number of tenths, truncated toward zero, where the source keeps a float64 (2.Index-Clean.py:130).
- `Reports.RatedRows`: orders the ratings only by their first decimal: "7.55" and "7.51" both become 75 tenths and may come in either order, where the source puts 7.55 first. The `>= 7.5` threshold is applied to the truncated tenths, so a text such as "7.49999999999999999", which float64 rounds to 7.5 and the source keeps, is dropped by the model.
- main.py:164-167 coerces the numeric columns with `fillna(0)` but without `astype(int)`. The model follows 2.Index-Clean.py:117-133, which truncates to int and keeps `vote_average` fractional.
- Ties are not ordered: among rows with equal keys, the model fixes no order for `max(set(...), key=...)`, `value_counts`, `sort_values`, `nlargest` or `nsmallest`. The contracts state "some maximal element" and "a sorted rearrangement".
- `Width.ModalWidth`: picks one modal width among ties deterministically; Python's choice depends on set iteration order.
- `IndexCheck.ColumnReport`: does not fix the order in which characters are visited, because Python's set iteration order is not specified.
- `IndexClean.IndexCleanTable`: requires what the source needs to avoid crashing: at least one data row after the header (with none, the date column stays of object dtype and `.dt.strftime` at main.py:161 and 2.Index-Clean.py:110 raises), a header of the modal width and all schema columns. It also requires distinct column names, which pandas does not enforce.
- `IndexCheck.UnusualCharacterReport`: requires distinct column names, as a loaded table has.
- `Dates.IsValid`: takes the `Timestamp` range as whole days from 1677-09-22 to 2262-04-11, not to the nanosecond.
- The unused import at 11.Genres.py:2 has no behaviour.
