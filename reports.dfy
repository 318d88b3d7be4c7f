/** The reports over the cleaned table: the profit column, the ten most
    profitable films, the profit-and-loss extremes, the lowest and highest
    revenue, the top-rated films, release dates newest first, and the
    production companies by number of films and by total profit. Rows are
    of any type; each report reads its columns through accessors, `None`
    standing for a missing value (NaN). */
module Reports {
  import opened Wrappers
  import opened Seqs
  import opened Strings
  import opened Sorting
  import opened Counts
  import Dates

  // ---------------------------------------------------------------------
  // profit

  /** `revenue_adj - budget_adj`: missing when either operand is. */
  function Profit(revenue: Option<int>, budget: Option<int>): (r: Option<int>)
    ensures r.Some? <==> revenue.Some? && budget.Some?
    ensures r.Some? ==> r.value + budget.value == revenue.value
  {
    if revenue.Some? && budget.Some? then Some(revenue.value - budget.value) else None
  }

  /** A loaded table and the `profit` column a report adds to it. */
  class ProfitFrame<T> {
    var rows: seq<T>
    var profit: seq<Option<int>>

    constructor (rows: seq<T>)
      ensures this.rows == rows && profit == []
    {
      this.rows := rows;
      profit := [];
    }

    /** `df["profit"] = df["revenue_adj"] - df["budget_adj"]`: the rows
        stay as they are, in their order. */
    method AddProfit(revenueAdj: T -> Option<int>, budgetAdj: T -> Option<int>)
      modifies this
      ensures rows == old(rows)
      ensures |profit| == |rows|
      ensures forall i :: 0 <= i < |rows| ==> profit[i] == Profit(revenueAdj(rows[i]), budgetAdj(rows[i]))
    {
      var r := rows;
      profit := seq(|r|, i requires 0 <= i < |r| => Profit(revenueAdj(r[i]), budgetAdj(r[i])));
    }

    /** Each row with its profit. */
    function Table(): (r: seq<(T, Option<int>)>)
      requires |profit| == |rows|
      reads this
      ensures |r| == |rows| && forall i :: 0 <= i < |rows| ==> r[i] == (rows[i], profit[i])
    {
      var r, p := rows, profit;
      seq(|r|, i requires 0 <= i < |r| && i < |p| => (r[i], p[i]))
    }
  }

  /** Largest profit first. */
  function ProfitDesc<T>(): ((T, Option<int>), (T, Option<int>)) -> bool
  {
    ByKeyDesc((p: (T, Option<int>)) => p.1.GetOr(0))
  }

  /** Smallest profit first. */
  function ProfitAsc<T>(): ((T, Option<int>), (T, Option<int>)) -> bool
  {
    ByKeyAsc((p: (T, Option<int>)) => p.1.GetOr(0))
  }

  /** `dropna(subset=["profit"])`. */
  function NonNullProfit<T>(table: seq<(T, Option<int>)>): seq<(T, Option<int>)>
  {
    Filter(table, (p: (T, Option<int>)) => p.1.Some?)
  }

  /** The rows with a profit, in their order, each as often as in the
      table; the others are dropped. */
  lemma NonNullProfitRows<T>(table: seq<(T, Option<int>)>, x: (T, Option<int>))
    ensures IsSubsequence(NonNullProfit(table), table)
    ensures Count(NonNullProfit(table), x) == if x.1.Some? then Count(table, x) else 0
  {
    FilterIsSubsequence(table, (p: (T, Option<int>)) => p.1.Some?);
    FilterCount(table, (p: (T, Option<int>)) => p.1.Some?, x);
  }

  /** The rows sorted by profit, largest first (a missing profit counts
      as 0; no such row is sorted here). */
  function ByProfitDesc<T(!new)>(rows: seq<(T, Option<int>)>): (r: seq<(T, Option<int>)>)
    ensures |r| == |rows| && multiset(r) == multiset(rows)
    ensures forall i, j :: 0 <= i < j < |r| ==> r[i].1.GetOr(0) >= r[j].1.GetOr(0)
  {
    KeyOrders((p: (T, Option<int>)) => p.1.GetOr(0));
    SortLength(rows, ProfitDesc());
    var r := Sort(rows, ProfitDesc());
    assert forall i, j :: 0 <= i < j < |r| ==> ProfitDesc()(r[i], r[j]);
    r
  }

  /** The rows sorted by profit, smallest first. */
  function ByProfitAsc<T(!new)>(rows: seq<(T, Option<int>)>): (r: seq<(T, Option<int>)>)
    ensures |r| == |rows| && multiset(r) == multiset(rows)
    ensures forall i, j :: 0 <= i < j < |r| ==> r[i].1.GetOr(0) <= r[j].1.GetOr(0)
  {
    KeyOrders((p: (T, Option<int>)) => p.1.GetOr(0));
    SortLength(rows, ProfitAsc());
    var r := Sort(rows, ProfitAsc());
    assert forall i, j :: 0 <= i < j < |r| ==> ProfitAsc()(r[i], r[j]);
    r
  }

  /** `sort_values(by="profit", ascending=False).head(10)` of the rows with
      a profit. */
  function TopProfit<T(!new)>(table: seq<(T, Option<int>)>): seq<(T, Option<int>)>
  {
    Take(ByProfitDesc(NonNullProfit(table)), 10)
  }

  /** The sorted rows are the rows with a profit, rearranged, largest
      profit first; the shown rows are the first ten of them (all of them
      when there are fewer), each with a profit, and none has a smaller
      profit than a row not shown. */
  lemma TopProfitRows<T(!new)>(table: seq<(T, Option<int>)>)
    ensures var clean := NonNullProfit(table);
      var sorted := ByProfitDesc(clean);
      var top := TopProfit(table);
      && multiset(sorted) == multiset(clean)
      && (forall i, j :: 0 <= i < j < |sorted| ==> sorted[i].1.GetOr(0) >= sorted[j].1.GetOr(0))
      && |top| == (if |clean| < 10 then |clean| else 10)
      && top == sorted[..|top|]
      && (forall i :: 0 <= i < |top| ==> top[i].1.Some? && top[i] in table)
      && (forall i, j :: 0 <= i < |top| <= j < |sorted| ==> top[i].1.GetOr(0) >= sorted[j].1.GetOr(0))
  {
    var clean := NonNullProfit(table);
    var sorted := ByProfitDesc(clean);
    var top := TopProfit(table);
    forall i | 0 <= i < |top|
      ensures top[i].1.Some? && top[i] in table
    {
      assert top[i] == sorted[i] && sorted[i] in multiset(clean);
    }
  }

  // ---------------------------------------------------------------------
  // profit and loss

  /** Rows kept for the profit-and-loss report: a profit, and a positive
      adjusted budget and revenue (a missing value compares false). */
  predicate PnlEligible<T>(p: (T, Option<int>), budgetAdj: T -> Option<int>, revenueAdj: T -> Option<int>)
  {
    && p.1.Some?
    && budgetAdj(p.0).Some? && budgetAdj(p.0).value > 0
    && revenueAdj(p.0).Some? && revenueAdj(p.0).value > 0
  }

  function PnlRows<T>(table: seq<(T, Option<int>)>, budgetAdj: T -> Option<int>, revenueAdj: T -> Option<int>): seq<(T, Option<int>)>
  {
    Filter(table, p => PnlEligible(p, budgetAdj, revenueAdj))
  }

  /** `nlargest(10, "profit")` of the eligible rows. */
  function TopWinners<T(!new)>(table: seq<(T, Option<int>)>, budgetAdj: T -> Option<int>, revenueAdj: T -> Option<int>): seq<(T, Option<int>)>
  {
    Take(ByProfitDesc(PnlRows(table, budgetAdj, revenueAdj)), 10)
  }

  /** `nsmallest(10, "profit")` of the eligible rows. */
  function TopLosers<T(!new)>(table: seq<(T, Option<int>)>, budgetAdj: T -> Option<int>, revenueAdj: T -> Option<int>): seq<(T, Option<int>)>
  {
    Take(ByProfitAsc(PnlRows(table, budgetAdj, revenueAdj)), 10)
  }

  /** The winners are the first ten eligible rows by profit, largest
      first (all of them when there are fewer), each an eligible row of
      the table, none with a smaller profit than an eligible row left out. */
  lemma WinnersRows<T(!new)>(table: seq<(T, Option<int>)>, budgetAdj: T -> Option<int>, revenueAdj: T -> Option<int>)
    ensures var clean := PnlRows(table, budgetAdj, revenueAdj);
      var sorted := ByProfitDesc(clean);
      var top := TopWinners(table, budgetAdj, revenueAdj);
      && multiset(sorted) == multiset(clean)
      && |top| == (if |clean| < 10 then |clean| else 10)
      && top == sorted[..|top|]
      && (forall i :: 0 <= i < |top| ==> PnlEligible(top[i], budgetAdj, revenueAdj) && top[i] in table)
      && (forall i, j :: 0 <= i < |top| <= j < |sorted| ==> top[i].1.GetOr(0) >= sorted[j].1.GetOr(0))
  {
    var clean := PnlRows(table, budgetAdj, revenueAdj);
    var sorted := ByProfitDesc(clean);
    var top := TopWinners(table, budgetAdj, revenueAdj);
    forall i | 0 <= i < |top|
      ensures PnlEligible(top[i], budgetAdj, revenueAdj) && top[i] in table
    {
      assert top[i] == sorted[i] && sorted[i] in multiset(clean);
    }
  }

  /** The losers are the first ten eligible rows by profit, smallest
      first (all of them when there are fewer), each an eligible row of
      the table, none with a larger profit than an eligible row left out. */
  lemma LosersRows<T(!new)>(table: seq<(T, Option<int>)>, budgetAdj: T -> Option<int>, revenueAdj: T -> Option<int>)
    ensures var clean := PnlRows(table, budgetAdj, revenueAdj);
      var sorted := ByProfitAsc(clean);
      var top := TopLosers(table, budgetAdj, revenueAdj);
      && multiset(sorted) == multiset(clean)
      && |top| == (if |clean| < 10 then |clean| else 10)
      && top == sorted[..|top|]
      && (forall i :: 0 <= i < |top| ==> PnlEligible(top[i], budgetAdj, revenueAdj) && top[i] in table)
      && (forall i, j :: 0 <= i < |top| <= j < |sorted| ==> top[i].1.GetOr(0) <= sorted[j].1.GetOr(0))
  {
    var clean := PnlRows(table, budgetAdj, revenueAdj);
    var sorted := ByProfitAsc(clean);
    var top := TopLosers(table, budgetAdj, revenueAdj);
    forall i | 0 <= i < |top|
      ensures PnlEligible(top[i], budgetAdj, revenueAdj) && top[i] in table
    {
      assert top[i] == sorted[i] && sorted[i] in multiset(clean);
    }
  }

  // ---------------------------------------------------------------------
  // lowest and highest revenue

  /** `min()` of a column, skipping missing values; missing when every
      value is. */
  function MinOf(values: seq<Option<int>>): (r: Option<int>)
    ensures r.None? <==> forall i :: 0 <= i < |values| ==> values[i].None?
    ensures r.Some? ==> exists i :: 0 <= i < |values| && values[i] == r
    ensures r.Some? ==> forall i :: 0 <= i < |values| && values[i].Some? ==> r.value <= values[i].value
  {
    if values == [] then None
    else
      var rest := MinOf(values[1..]);
      assert forall i :: 1 <= i < |values| ==> values[i] == values[1..][i - 1];
      if values[0].None? then rest
      else if rest.None? || values[0].value <= rest.value then values[0]
      else rest
  }

  /** `max()` of a column, skipping missing values; missing when every
      value is. */
  function MaxOf(values: seq<Option<int>>): (r: Option<int>)
    ensures r.None? <==> forall i :: 0 <= i < |values| ==> values[i].None?
    ensures r.Some? ==> exists i :: 0 <= i < |values| && values[i] == r
    ensures r.Some? ==> forall i :: 0 <= i < |values| && values[i].Some? ==> values[i].value <= r.value
  {
    if values == [] then None
    else
      var rest := MaxOf(values[1..]);
      assert forall i :: 1 <= i < |values| ==> values[i] == values[1..][i - 1];
      if values[0].None? then rest
      else if rest.None? || values[0].value >= rest.value then values[0]
      else rest
  }

  function Column<T>(rows: seq<T>, key: T -> Option<int>): (r: seq<Option<int>>)
    ensures |r| == |rows| && forall i :: 0 <= i < |rows| ==> r[i] == key(rows[i])
  {
    seq(|rows|, i requires 0 <= i < |rows| => key(rows[i]))
  }

  /** `df[df[col] == m]`: no row matches a missing `m`. */
  function RowsAt<T>(rows: seq<T>, key: T -> Option<int>, m: Option<int>): seq<T>
  {
    Filter(rows, x => m.Some? && key(x) == m)
  }

  /** The rows shown for the lowest revenue are exactly the rows that
      attain it, in order; there is one when some revenue is present. */
  lemma MinRows<T>(rows: seq<T>, key: T -> Option<int>, x: T)
    ensures var m := MinOf(Column(rows, key));
      && IsSubsequence(RowsAt(rows, key, m), rows)
      && Count(RowsAt(rows, key, m), x) == (if m.Some? && key(x) == m then Count(rows, x) else 0)
      && (m.Some? ==> |RowsAt(rows, key, m)| > 0)
  {
    var m := MinOf(Column(rows, key));
    FilterIsSubsequence(rows, x => m.Some? && key(x) == m);
    FilterCount(rows, x => m.Some? && key(x) == m, x);
    if m.Some? {
      var i :| 0 <= i < |rows| && Column(rows, key)[i] == m;
      assert rows[i] in RowsAt(rows, key, m);
    }
  }

  /** The rows shown for the highest revenue are exactly the rows that
      attain it, in order; there is one when some revenue is present. */
  lemma MaxRows<T>(rows: seq<T>, key: T -> Option<int>, x: T)
    ensures var m := MaxOf(Column(rows, key));
      && IsSubsequence(RowsAt(rows, key, m), rows)
      && Count(RowsAt(rows, key, m), x) == (if m.Some? && key(x) == m then Count(rows, x) else 0)
      && (m.Some? ==> |RowsAt(rows, key, m)| > 0)
  {
    var m := MaxOf(Column(rows, key));
    FilterIsSubsequence(rows, x => m.Some? && key(x) == m);
    FilterCount(rows, x => m.Some? && key(x) == m, x);
    if m.Some? {
      var i :| 0 <= i < |rows| && Column(rows, key)[i] == m;
      assert rows[i] in RowsAt(rows, key, m);
    }
  }

  // ---------------------------------------------------------------------
  // top-rated films

  /** `vote_average >= 7.5`, in tenths; a missing rating compares
      false. */
  predicate Rated<T>(x: T, vote: T -> Option<int>)
  {
    vote(x).Some? && vote(x).value >= 75
  }

  function TopRated<T>(rows: seq<T>, vote: T -> Option<int>): seq<T>
  {
    Filter(rows, x => Rated(x, vote))
  }

  /** `sort_values(by="vote_average", ascending=False)` of the top-rated
      rows. */
  function RatedDesc<T(!new)>(rows: seq<T>, vote: T -> Option<int>): seq<T>
  {
    KeyOrders((x: T) => vote(x).GetOr(0));
    Sort(TopRated(rows, vote), ByKeyDesc((x: T) => vote(x).GetOr(0)))
  }

  /** The filter keeps exactly the rows rated 7.5 or more, in order, and
      the listing is those rows, rearranged, highest rating first. */
  lemma RatedRows<T(!new)>(rows: seq<T>, vote: T -> Option<int>, x: T)
    ensures var filtered := TopRated(rows, vote);
      var sorted := RatedDesc(rows, vote);
      && IsSubsequence(filtered, rows)
      && Count(filtered, x) == (if Rated(x, vote) then Count(rows, x) else 0)
      && multiset(sorted) == multiset(filtered)
      && (forall i :: 0 <= i < |sorted| ==> Rated(sorted[i], vote))
      && (forall i, j :: 0 <= i < j < |sorted| ==> vote(sorted[i]).value >= vote(sorted[j]).value)
  {
    var filtered := TopRated(rows, vote);
    KeyOrders((x: T) => vote(x).GetOr(0));
    var sorted := RatedDesc(rows, vote);
    FilterIsSubsequence(rows, x => Rated(x, vote));
    FilterCount(rows, x => Rated(x, vote), x);
    forall i | 0 <= i < |sorted|
      ensures Rated(sorted[i], vote)
    {
      assert sorted[i] in multiset(filtered);
    }
    forall i, j | 0 <= i < j < |sorted|
      ensures vote(sorted[i]).value >= vote(sorted[j]).value
    {
      assert ByKeyDesc((x: T) => vote(x).GetOr(0))(sorted[i], sorted[j]);
    }
  }

  // ---------------------------------------------------------------------
  // release dates, newest first

  /** `ascending=False` on a text column with `na_position="last"`: `a`
      may be listed before `b`. */
  predicate ReleaseOrder(a: Option<string>, b: Option<string>)
  {
    b.None? || (a.Some? && LexLe(b.value, a.value))
  }

  lemma ReleaseOrderTotal()
    ensures forall a, b :: ReleaseOrder(a, b) || ReleaseOrder(b, a)
    ensures forall a, b, c :: ReleaseOrder(a, b) && ReleaseOrder(b, c) ==> ReleaseOrder(a, c)
  {
    forall a, b
      ensures ReleaseOrder(a, b) || ReleaseOrder(b, a)
    {
      if a.Some? && b.Some? {
        LexTotal(a.value, b.value);
      }
    }
    forall a, b, c | ReleaseOrder(a, b) && ReleaseOrder(b, c)
      ensures ReleaseOrder(a, c)
    {
      if c.Some? {
        LexTransitive(c.value, b.value, a.value);
      }
    }
  }

  function ByRelease<T>(date: T -> Option<string>): (T, T) -> bool
  {
    (x: T, y: T) => ReleaseOrder(date(x), date(y))
  }

  lemma ByReleaseOrder<T(!new)>(date: T -> Option<string>)
    ensures TotalPreorder(ByRelease(date))
  {
    ReleaseOrderTotal();
  }

  /** `sort_values(by=["release_date"], ascending=False)`. */
  function ReleaseDesc<T(!new)>(rows: seq<T>, date: T -> Option<string>): seq<T>
  {
    ByReleaseOrder(date);
    Sort(rows, ByRelease(date))
  }

  /** The listing is the table rearranged: dated rows first, newest date
      (in text order) first, undated rows last. */
  lemma ReleaseDescRows<T(!new)>(rows: seq<T>, date: T -> Option<string>)
    ensures var r := ReleaseDesc(rows, date);
      && multiset(r) == multiset(rows)
      && (forall i, j :: 0 <= i < j < |r| && date(r[j]).Some? ==> date(r[i]).Some?)
      && (forall i, j :: 0 <= i < j < |r| && date(r[j]).Some? ==> LexLe(date(r[j]).value, date(r[i]).value))
  {
    var r := ReleaseDesc(rows, date);
    ByReleaseOrder(date);
    forall i, j | 0 <= i < j < |r|
      ensures ReleaseOrder(date(r[i]), date(r[j]))
    {
      assert ByRelease(date)(r[i], r[j]);
    }
  }

  /** For dates written by the cleaning step, text order is calendar order:
      the listing is newest first. */
  lemma ReleaseDescChronological<T(!new)>(rows: seq<T>, date: T -> Option<string>, i: nat, j: nat, a: Dates.Date, b: Dates.Date)
    requires i < j < |ReleaseDesc(rows, date)|
    requires Dates.IsValid(a) && Dates.IsValid(b)
    requires date(ReleaseDesc(rows, date)[i]) == Some(Dates.Iso(a))
    requires date(ReleaseDesc(rows, date)[j]) == Some(Dates.Iso(b))
    ensures Dates.DateLe(b, a)
  {
    ReleaseDescRows(rows, date);
    Dates.IsoOrder(b, a);
  }

  // ---------------------------------------------------------------------
  // directors, actors, genres and companies

  /** `str.split('|').explode().str.strip().value_counts().head(1)` of a
      column: the most frequent name. */
  function TopName(cells: seq<Option<string>>): seq<(string, int)>
  {
    Take(ValueCounts(Pieces(cells)), 1)
  }

  /** The top name is a piece of the column with its own number of
      occurrences, it occurs at least as often as every other piece, and
      there is one when the column has a piece. */
  lemma TopNameIsMostFrequent(cells: seq<Option<string>>)
    ensures var top := TopName(cells); var pieces := Pieces(cells);
      && (|pieces| > 0 ==> |top| == 1)
      && (forall i :: 0 <= i < |top| ==> top[i].0 in pieces && top[i].1 == Count(pieces, top[i].0))
      && forall i, t :: 0 <= i < |top| && 0 <= t < |pieces| ==> top[i].1 >= Count(pieces, pieces[t])
  {
    TopIsMostFrequent(Pieces(cells));
  }

  /** `explode("production_companies")` and `dropna`, then `str.strip`:
      one entry per company piece of every row with a company cell, with
      the row's profit. */
  function Exploded<T>(rows: seq<T>, companies: T -> Option<string>, profit: T -> Option<int>): seq<(string, Option<int>)>
  {
    if rows == [] then []
    else
      var pieces := CellPieces(companies(rows[0]));
      seq(|pieces|, i requires 0 <= i < |pieces| => (pieces[i], profit(rows[0])))
        + Exploded(rows[1..], companies, profit)
  }

  function CompanyNames(entries: seq<(string, Option<int>)>): (r: seq<string>)
    ensures |r| == |entries| && forall i :: 0 <= i < |entries| ==> r[i] == entries[i].0
  {
    seq(|entries|, i requires 0 <= i < |entries| => entries[i].0)
  }

  function TextColumn<T>(rows: seq<T>, cell: T -> Option<string>): (r: seq<Option<string>>)
    ensures |r| == |rows| && forall i :: 0 <= i < |rows| ==> r[i] == cell(rows[i])
  {
    seq(|rows|, i requires 0 <= i < |rows| => cell(rows[i]))
  }

  /** The exploded table has one entry per piece of the company column,
      in order. */
  lemma {:induction false} ExplodedCompanies<T>(rows: seq<T>, companies: T -> Option<string>, profit: T -> Option<int>)
    ensures CompanyNames(Exploded(rows, companies, profit)) == Pieces(TextColumn(rows, companies))
  {
    if rows != [] {
      ExplodedCompanies(rows[1..], companies, profit);
      assert TextColumn(rows, companies)[1..] == TextColumn(rows[1..], companies);
      assert TextColumn(rows, companies)[0] == companies(rows[0]);
    }
  }

  /** `value_counts().head(10)` of the company names. */
  function TopCompaniesByCount<T>(rows: seq<T>, companies: T -> Option<string>, profit: T -> Option<int>): seq<(string, int)>
  {
    Take(ValueCounts(CompanyNames(Exploded(rows, companies, profit))), 10)
  }

  /** The exploded entries as (company, profit) with a missing profit
      adding nothing, as `sum()` skips it. */
  function ProfitEntries(entries: seq<(string, Option<int>)>): (r: seq<(string, int)>)
    ensures |r| == |entries| && forall i :: 0 <= i < |entries| ==> r[i] == (entries[i].0, entries[i].1.GetOr(0))
  {
    seq(|entries|, i requires 0 <= i < |entries| => (entries[i].0, entries[i].1.GetOr(0)))
  }

  /** `groupby("production_companies")["profit"].sum()
      .sort_values(ascending=False).head(10)`. */
  function TopCompaniesByProfit<T>(rows: seq<T>, companies: T -> Option<string>, profit: T -> Option<int>): seq<(string, int)>
  {
    Take(GroupSums(ProfitEntries(Exploded(rows, companies, profit))), 10)
  }

  /** At most ten companies by number of films, none with fewer films
      than a company left out. */
  lemma TopCompaniesByCountRows<T>(rows: seq<T>, companies: T -> Option<string>, profit: T -> Option<int>)
    ensures var names := CompanyNames(Exploded(rows, companies, profit));
      var top := TopCompaniesByCount(rows, companies, profit);
      && |top| == (if |Distinct(names)| < 10 then |Distinct(names)| else 10)
      && top == ValueCounts(names)[..|top|]
      && (forall i :: 0 <= i < |top| ==> top[i].1 == Count(names, top[i].0))
      && (forall i, j :: 0 <= i < j < |top| ==> top[i].1 >= top[j].1)
      && forall i, t :: 0 <= i < |top| && 0 <= t < |names| && (forall j :: 0 <= j < |top| ==> top[j].0 != names[t]) ==>
           top[i].1 >= Count(names, names[t])
  {
    TopCounts(CompanyNames(Exploded(rows, companies, profit)), 10);
  }

  /** At most ten companies, each with the total profit of its exploded
      entries, largest first, none with a smaller total than a company
      left out. */
  lemma TopCompaniesByProfitRows<T>(rows: seq<T>, companies: T -> Option<string>, profit: T -> Option<int>)
    ensures var entries := ProfitEntries(Exploded(rows, companies, profit));
      var top := TopCompaniesByProfit(rows, companies, profit);
      && |top| == (if |Distinct(Keys(entries))| < 10 then |Distinct(Keys(entries))| else 10)
      && top == GroupSums(entries)[..|top|]
      && (forall i :: 0 <= i < |top| ==> top[i].1 == SumWhere(entries, top[i].0))
      && (forall i, j :: 0 <= i < j < |top| ==> top[i].1 >= top[j].1)
      && forall i, t :: 0 <= i < |top| && 0 <= t < |entries| && (forall j :: 0 <= j < |top| ==> top[j].0 != entries[t].0) ==>
           top[i].1 >= SumWhere(entries, entries[t].0)
  {
    TopSums(ProfitEntries(Exploded(rows, companies, profit)), 10);
  }
}
