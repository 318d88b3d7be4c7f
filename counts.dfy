/** Counting and summing by key: `str.split('|').explode().str.strip()`
    over a text column, `value_counts()` of the pieces and
    `groupby(key).sum()` of a value, both ranked largest first. */
module Counts {
  import opened Wrappers
  import opened Seqs
  import opened Strings
  import opened Sorting

  /** No whitespace at either end. */
  predicate Stripped(s: string)
  {
    s == [] || (!IsSpace(s[0]) && !IsSpace(s[|s| - 1]))
  }

  /** `v.split('|')` with every piece stripped. */
  function SplitStrip(v: string): (r: seq<string>)
    ensures |r| == |Split(v, '|')|
    ensures forall i :: 0 <= i < |r| ==> r[i] == Strip(Split(v, '|')[i]) && Stripped(r[i])
  {
    var parts := Split(v, '|');
    seq(|parts|, i requires 0 <= i < |parts| => Strip(parts[i]))
  }

  /** The pieces of one cell; a missing cell explodes to a missing value,
      which is not counted. */
  function CellPieces(cell: Option<string>): (r: seq<string>)
    ensures forall i :: 0 <= i < |r| ==> Stripped(r[i])
  {
    match cell
    case None => []
    case Some(v) => SplitStrip(v)
  }

  /** The pieces of a column after split, explode and strip, in order;
      every one is stripped. */
  function Pieces(cells: seq<Option<string>>): (r: seq<string>)
    ensures forall i :: 0 <= i < |r| ==> Stripped(r[i])
  {
    if cells == [] then []
    else CellPieces(cells[0]) + Pieces(cells[1..])
  }

  /** Stripping a counted piece again changes nothing. */
  lemma PiecesStripped(cells: seq<Option<string>>, i: nat)
    requires i < |Pieces(cells)|
    ensures Strip(Pieces(cells)[i]) == Pieces(cells)[i]
  {
    StripNoEdgeSpace(Pieces(cells)[i]);
  }

  /** The number of pieces: one more than the number of `|` in each
      present cell. */
  function PieceTotal(cells: seq<Option<string>>): nat
  {
    if cells == [] then 0
    else (match cells[0] case None => 0 case Some(v) => Count(v, '|') + 1) + PieceTotal(cells[1..])
  }

  lemma {:induction false} SplitLength(s: string, sep: char)
    ensures |Split(s, sep)| == Count(s, sep) + 1
  {
    if s != [] {
      SplitLength(s[1..], sep);
      SplitStep(s, sep);
    }
  }

  /** One step of `Split` at the front. */
  lemma SplitStep(s: string, sep: char)
    requires s != []
    ensures |Split(s, sep)| == |Split(s[1..], sep)| + (if s[0] == sep then 1 else 0)
  {
  }

  lemma {:induction false} PiecesLength(cells: seq<Option<string>>)
    ensures |Pieces(cells)| == PieceTotal(cells)
  {
    if cells != [] {
      PiecesLength(cells[1..]);
      if cells[0].Some? {
        SplitLength(cells[0].value, '|');
      }
    }
  }

  /** The distinct values of `s`, each once, in order of first
      occurrence. */
  function Distinct<T(==)>(s: seq<T>): (r: seq<T>)
    ensures NoDup(r)
  {
    if s == [] then []
    else
      var d := Distinct(s[..|s| - 1]);
      if s[|s| - 1] in d then d else d + [s[|s| - 1]]
  }

  /** The distinct values are exactly the values of `s`. */
  lemma {:induction false} DistinctHas<T>(s: seq<T>, x: T)
    ensures x in Distinct(s) <==> x in s
  {
    if s != [] {
      var init := s[..|s| - 1];
      DistinctHas(init, x);
      assert s == init + [s[|s| - 1]];
    }
  }

  /** Each key with its value. */
  function Tally(keys: seq<string>, value: string -> int): (r: seq<(string, int)>)
    ensures |r| == |keys| && forall i :: 0 <= i < |keys| ==> r[i] == (keys[i], value(keys[i]))
  {
    seq(|keys|, i requires 0 <= i < |keys| => (keys[i], value(keys[i])))
  }

  /** Largest value first. */
  function ByValueDesc(): ((string, int), (string, int)) -> bool
  {
    ByKeyDesc((p: (string, int)) => p.1)
  }

  /** The keys with their values, largest value first (the order among
      equal values is not fixed). */
  function Ranked(keys: seq<string>, value: string -> int): (r: seq<(string, int)>)
    ensures |r| == |keys| && multiset(r) == multiset(Tally(keys, value))
    ensures forall i, j :: 0 <= i < j < |r| ==> r[i].1 >= r[j].1
  {
    KeyOrders((p: (string, int)) => p.1);
    SortLength(Tally(keys, value), ByValueDesc());
    var r := Sort(Tally(keys, value), ByValueDesc());
    assert forall i, j :: 0 <= i < j < |r| ==> ByValueDesc()(r[i], r[j]);
    r
  }

  /** The sum of the values of a ranking. */
  function Total(r: seq<(string, int)>): int
  {
    if r == [] then 0 else r[0].1 + Total(r[1..])
  }

  lemma {:induction false} TotalAppend(a: seq<(string, int)>, b: seq<(string, int)>)
    ensures Total(a + b) == Total(a) + Total(b)
  {
    if a == [] {
      assert a + b == b;
    } else {
      assert (a + b)[0] == a[0] && (a + b)[1..] == a[1..] + b;
      TotalAppend(a[1..], b);
    }
  }

  /** Reordering does not change a total. */
  lemma {:induction false} TotalPermutation(a: seq<(string, int)>, b: seq<(string, int)>)
    requires multiset(a) == multiset(b)
    ensures Total(a) == Total(b)
    decreases |a|
  {
    if a != [] {
      var x := a[0];
      assert x in multiset(b) by {
        assert x in multiset(a);
      }
      var i :| 0 <= i < |b| && b[i] == x;
      var rest := b[..i] + b[i + 1..];
      RemoveOne(a, b, i);
      TotalPermutation(a[1..], rest);
      assert Total(b) == Total(b[..i]) + x.1 + Total(b[i + 1..]) by {
        assert b == b[..i] + [x] + b[i + 1..];
        TotalAppend(b[..i] + [x], b[i + 1..]);
        TotalAppend(b[..i], [x]);
      }
      TotalAppend(b[..i], b[i + 1..]);
    }
  }

  /** Every row of the ranking is a key with its value. */
  lemma RankedEntries(keys: seq<string>, value: string -> int)
    ensures var r := Ranked(keys, value);
      forall i :: 0 <= i < |r| ==> r[i].0 in keys && r[i].1 == value(r[i].0)
  {
    var table := Tally(keys, value);
    var r := Ranked(keys, value);
    forall i | 0 <= i < |r|
      ensures r[i].0 in keys && r[i].1 == value(r[i].0)
    {
      assert r[i] in multiset(table);
      var t :| 0 <= t < |table| && table[t] == r[i];
    }
  }

  /** Every key has a row in the ranking. */
  lemma RankedCovers(keys: seq<string>, value: string -> int, t: nat)
    requires t < |keys|
    ensures exists j :: 0 <= j < |Ranked(keys, value)| && Ranked(keys, value)[j].0 == keys[t]
  {
    var table := Tally(keys, value);
    var r := Ranked(keys, value);
    assert table[t] in multiset(r);
    var j :| 0 <= j < |r| && r[j] == table[t];
  }

  /** Distinct keys give a ranking with no key twice. */
  lemma RankedDistinct(keys: seq<string>, value: string -> int)
    requires NoDup(keys)
    ensures var r := Ranked(keys, value);
      forall i, j :: 0 <= i < j < |r| ==> r[i].0 != r[j].0
  {
    var table := Tally(keys, value);
    var r := Ranked(keys, value);
    RankedEntries(keys, value);
    assert NoDup(table) by {
      forall i, j | 0 <= i < j < |table|
        ensures table[i] != table[j]
      {
        assert table[i].0 == keys[i] && table[j].0 == keys[j];
      }
    }
    NoDupPermutation(table, r);
    forall i, j | 0 <= i < j < |r|
      ensures r[i].0 != r[j].0
    {
      assert r[i] != r[j];
    }
  }

  /** `head(n)` of a ranking: at most `n` keys, each with its value,
      largest first, and no listed key has a smaller value than a key
      left out. */
  lemma RankedHead(keys: seq<string>, value: string -> int, n: nat)
    ensures var head := Take(Ranked(keys, value), n);
      && |head| == (if |keys| < n then |keys| else n)
      && head == Ranked(keys, value)[..|head|]
      && (forall i :: 0 <= i < |head| ==> head[i].1 == value(head[i].0))
      && (forall i, j :: 0 <= i < j < |head| ==> head[i].1 >= head[j].1)
  {
    RankedEntries(keys, value);
  }

  /** No key left out of the head has a larger value than a key in it. */
  lemma RankedHeadLeftOut(keys: seq<string>, value: string -> int, n: nat, i: nat, t: nat)
    requires i < |Take(Ranked(keys, value), n)| && t < |keys|
    requires forall j :: 0 <= j < |Take(Ranked(keys, value), n)| ==> Take(Ranked(keys, value), n)[j].0 != keys[t]
    ensures Take(Ranked(keys, value), n)[i].1 >= value(keys[t])
  {
    var r := Ranked(keys, value);
    RankedEntries(keys, value);
    RankedCovers(keys, value, t);
    var j :| 0 <= j < |r| && r[j].0 == keys[t];
    TakeIndex(r, n, j);
    assert r[i].1 >= r[j].1;
  }

  /** A key's number of occurrences in `s`. */
  function CountIn(s: seq<string>): (f: string -> int)
    ensures forall k :: f(k) == Count(s, k)
  {
    k => Count(s, k)
  }

  /** `value_counts()`: each distinct piece with its number of
      occurrences, most frequent first. */
  function ValueCounts(s: seq<string>): seq<(string, int)>
  {
    Ranked(Distinct(s), CountIn(s))
  }

  /** The occurrences over the keys, summed. */
  function CountsOver(keys: seq<string>, s: seq<string>): nat
  {
    if keys == [] then 0 else Count(s, keys[0]) + CountsOver(keys[1..], s)
  }

  lemma {:induction false} TallyTotal(keys: seq<string>, s: seq<string>)
    ensures Total(Tally(keys, CountIn(s))) == CountsOver(keys, s)
  {
    if keys != [] {
      assert Tally(keys, CountIn(s))[1..] == Tally(keys[1..], CountIn(s));
      TallyTotal(keys[1..], s);
    }
  }

  lemma {:induction false} CountsOverStep(keys: seq<string>, s: seq<string>)
    requires s != []
    ensures CountsOver(keys, s) == Count(keys, s[0]) + CountsOver(keys, s[1..])
  {
    if keys != [] {
      CountsOverStep(keys[1..], s);
    }
  }

  lemma {:induction false} CountsOverEmpty(keys: seq<string>)
    ensures CountsOver(keys, []) == 0
  {
    if keys != [] {
      CountsOverEmpty(keys[1..]);
    }
  }

  /** Over distinct keys that include every element, the occurrences add
      up to the length. */
  lemma {:induction false} CountsOverAll(keys: seq<string>, s: seq<string>)
    requires NoDup(keys) && forall i :: 0 <= i < |s| ==> s[i] in keys
    ensures CountsOver(keys, s) == |s|
  {
    if s != [] {
      CountsOverStep(keys, s);
      assert s[0] in keys;
      NoDupCount(keys, s[0]);
      assert forall i :: 0 <= i < |s[1..]| ==> s[1..][i] == s[i + 1];
      CountsOverAll(keys, s[1..]);
    } else {
      CountsOverEmpty(keys);
    }
  }

  /** The counts: every distinct piece once, with its number of
      occurrences (at least one), most frequent first. */
  lemma ValueCountsRows(s: seq<string>)
    ensures var r := ValueCounts(s);
      && (forall i :: 0 <= i < |r| ==> r[i].0 in s && r[i].1 == Count(s, r[i].0) && r[i].1 >= 1)
      && (forall t :: 0 <= t < |s| ==> exists j :: 0 <= j < |r| && r[j].0 == s[t])
      && (forall i, j :: 0 <= i < j < |r| ==> r[i].0 != r[j].0)
      && (forall i, j :: 0 <= i < j < |r| ==> r[i].1 >= r[j].1)
  {
    ValueCountsEntries(s);
    RankedDistinct(Distinct(s), CountIn(s));
    forall t | 0 <= t < |s|
      ensures exists j :: 0 <= j < |ValueCounts(s)| && ValueCounts(s)[j].0 == s[t]
    {
      ValueCountsCovers(s, t);
    }
  }

  /** Every row of the counts is a piece with its number of occurrences. */
  lemma ValueCountsEntries(s: seq<string>)
    ensures var r := ValueCounts(s);
      forall i :: 0 <= i < |r| ==> r[i].0 in s && r[i].1 == Count(s, r[i].0) && r[i].1 >= 1
  {
    var r := ValueCounts(s);
    RankedEntries(Distinct(s), CountIn(s));
    forall i | 0 <= i < |r|
      ensures r[i].0 in s && r[i].1 == Count(s, r[i].0) && r[i].1 >= 1
    {
      DistinctHas(s, r[i].0);
      CountPositive(s, r[i].0);
    }
  }

  /** Every piece has a row in the counts. */
  lemma ValueCountsCovers(s: seq<string>, t: nat)
    requires t < |s|
    ensures exists j :: 0 <= j < |ValueCounts(s)| && ValueCounts(s)[j].0 == s[t]
  {
    var keys := Distinct(s);
    DistinctHas(s, s[t]);
    var u :| 0 <= u < |keys| && keys[u] == s[t];
    RankedCovers(keys, CountIn(s), u);
    assert ValueCounts(s) == Ranked(keys, CountIn(s));
  }

  /** The counts add up to the number of pieces. */
  lemma ValueCountsTotal(s: seq<string>)
    ensures Total(ValueCounts(s)) == |s|
  {
    var keys := Distinct(s);
    TotalPermutation(ValueCounts(s), Tally(keys, CountIn(s)));
    TallyTotal(keys, s);
    forall i | 0 <= i < |s|
      ensures s[i] in keys
    {
      DistinctHas(s, s[i]);
    }
    CountsOverAll(keys, s);
  }

  /** `value_counts().head(1)`: for a non-empty column, a piece that
      occurs at least as often as every other. */
  lemma TopIsMostFrequent(s: seq<string>)
    ensures var top := Take(ValueCounts(s), 1);
      && (|s| > 0 ==> |top| == 1)
      && (forall i :: 0 <= i < |top| ==> top[i].0 in s && top[i].1 == Count(s, top[i].0))
      && forall i, t :: 0 <= i < |top| && 0 <= t < |s| ==> top[i].1 >= Count(s, s[t])
  {
    var r := ValueCounts(s);
    ValueCountsRows(s);
    if |r| > 0 {
      assert Take(r, 1) == [r[0]];
      assert r[0].0 in s && r[0].1 == Count(s, r[0].0);
      forall t | 0 <= t < |s|
        ensures r[0].1 >= Count(s, s[t])
      {
        var j :| 0 <= j < |r| && r[j].0 == s[t];
        if j > 0 {
          assert r[0].1 >= r[j].1;
        }
      }
    }
  }

  /** `value_counts().head(n)`: the first `n` pieces of the counts (all
      of them when there are fewer), each with its number of occurrences,
      most frequent first, none occurring less often than
      a piece left out. */
  lemma TopCounts(s: seq<string>, n: nat)
    ensures var top := Take(ValueCounts(s), n);
      && |top| == (if |Distinct(s)| < n then |Distinct(s)| else n)
      && top == ValueCounts(s)[..|top|]
      && (forall i :: 0 <= i < |top| ==> top[i].1 == Count(s, top[i].0))
      && (forall i, j :: 0 <= i < j < |top| ==> top[i].1 >= top[j].1)
      && forall i, t :: 0 <= i < |top| && 0 <= t < |s| && (forall j :: 0 <= j < |top| ==> top[j].0 != s[t]) ==>
           top[i].1 >= Count(s, s[t])
  {
    var keys := Distinct(s);
    var top := Take(ValueCounts(s), n);
    assert ValueCounts(s) == Ranked(keys, CountIn(s));
    RankedHead(keys, CountIn(s), n);
    forall i, t | 0 <= i < |top| && 0 <= t < |s| && (forall j :: 0 <= j < |top| ==> top[j].0 != s[t])
      ensures top[i].1 >= Count(s, s[t])
    {
      TopCountsLeftOut(s, n, i, t);
    }
  }

  lemma TopCountsLeftOut(s: seq<string>, n: nat, i: nat, t: nat)
    requires i < |Take(ValueCounts(s), n)| && t < |s|
    requires forall j :: 0 <= j < |Take(ValueCounts(s), n)| ==> Take(ValueCounts(s), n)[j].0 != s[t]
    ensures Take(ValueCounts(s), n)[i].1 >= Count(s, s[t])
  {
    var keys := Distinct(s);
    assert ValueCounts(s) == Ranked(keys, CountIn(s));
    DistinctHas(s, s[t]);
    var u :| 0 <= u < |keys| && keys[u] == s[t];
    RankedHeadLeftOut(keys, CountIn(s), n, i, u);
  }

  /** The sum of the values of the entries with key `k`. */
  function SumWhere(entries: seq<(string, int)>, k: string): int
  {
    if entries == [] then 0
    else (if entries[0].0 == k then entries[0].1 else 0) + SumWhere(entries[1..], k)
  }

  function Keys(entries: seq<(string, int)>): (r: seq<string>)
    ensures |r| == |entries| && forall i :: 0 <= i < |entries| ==> r[i] == entries[i].0
  {
    seq(|entries|, i requires 0 <= i < |entries| => entries[i].0)
  }

  /** A key's sum over the entries. */
  function SumIn(entries: seq<(string, int)>): (f: string -> int)
    ensures forall k :: f(k) == SumWhere(entries, k)
  {
    k => SumWhere(entries, k)
  }

  /** `groupby(key)[value].sum().sort_values(ascending=False)`. */
  function GroupSums(entries: seq<(string, int)>): seq<(string, int)>
  {
    Ranked(Distinct(Keys(entries)), SumIn(entries))
  }

  /** Every listed key is a key of the entries, with the sum of its
      entries; no key is listed twice; largest sum first. */
  lemma GroupSumsRows(entries: seq<(string, int)>)
    ensures var r := GroupSums(entries);
      && (forall i :: 0 <= i < |r| ==> r[i].0 in Keys(entries) && r[i].1 == SumWhere(entries, r[i].0))
      && (forall i, j :: 0 <= i < j < |r| ==> r[i].0 != r[j].0)
      && (forall i, j :: 0 <= i < j < |r| ==> r[i].1 >= r[j].1)
  {
    var r := GroupSums(entries);
    RankedEntries(Distinct(Keys(entries)), SumIn(entries));
    RankedDistinct(Distinct(Keys(entries)), SumIn(entries));
    forall i | 0 <= i < |r|
      ensures r[i].0 in Keys(entries)
    {
      DistinctHas(Keys(entries), r[i].0);
    }
  }

  /** Every key of the entries is listed. */
  lemma GroupSumsComplete(entries: seq<(string, int)>, t: nat)
    requires t < |entries|
    ensures exists j :: 0 <= j < |GroupSums(entries)| && GroupSums(entries)[j].0 == entries[t].0
  {
    var keys := Distinct(Keys(entries));
    assert Keys(entries)[t] == entries[t].0;
    DistinctHas(Keys(entries), entries[t].0);
    var u :| 0 <= u < |keys| && keys[u] == entries[t].0;
    RankedCovers(keys, SumIn(entries), u);
    assert GroupSums(entries) == Ranked(keys, SumIn(entries));
  }

  /** `head(n)` of the sums: at most `n` keys, each with the sum of its
      entries, largest first, none with a smaller sum than a key left
      out. */
  lemma TopSums(entries: seq<(string, int)>, n: nat)
    ensures var top := Take(GroupSums(entries), n);
      && |top| == (if |Distinct(Keys(entries))| < n then |Distinct(Keys(entries))| else n)
      && top == GroupSums(entries)[..|top|]
      && (forall i :: 0 <= i < |top| ==> top[i].1 == SumWhere(entries, top[i].0))
      && (forall i, j :: 0 <= i < j < |top| ==> top[i].1 >= top[j].1)
      && forall i, t :: 0 <= i < |top| && 0 <= t < |entries| && (forall j :: 0 <= j < |top| ==> top[j].0 != entries[t].0) ==>
           top[i].1 >= SumWhere(entries, entries[t].0)
  {
    var keys := Distinct(Keys(entries));
    var top := Take(GroupSums(entries), n);
    assert GroupSums(entries) == Ranked(keys, SumIn(entries));
    RankedHead(keys, SumIn(entries), n);
    forall i, t | 0 <= i < |top| && 0 <= t < |entries| && (forall j :: 0 <= j < |top| ==> top[j].0 != entries[t].0)
      ensures top[i].1 >= SumWhere(entries, entries[t].0)
    {
      TopSumsLeftOut(entries, n, i, t);
    }
  }

  lemma TopSumsLeftOut(entries: seq<(string, int)>, n: nat, i: nat, t: nat)
    requires i < |Take(GroupSums(entries), n)| && t < |entries|
    requires forall j :: 0 <= j < |Take(GroupSums(entries), n)| ==> Take(GroupSums(entries), n)[j].0 != entries[t].0
    ensures Take(GroupSums(entries), n)[i].1 >= SumWhere(entries, entries[t].0)
  {
    var keys := Distinct(Keys(entries));
    assert GroupSums(entries) == Ranked(keys, SumIn(entries));
    assert Keys(entries)[t] == entries[t].0;
    DistinctHas(Keys(entries), entries[t].0);
    var u :| 0 <= u < |keys| && keys[u] == entries[t].0;
    RankedHeadLeftOut(keys, SumIn(entries), n, i, u);
  }
}
