/** `sort_values`, `nlargest`, `nsmallest` and `head(k)` over rows: an
    ordering by a total preorder (`le(a, b)`: `a` may be listed before
    `b`). The order pandas gives to ties is not specified, so neither is
    it here: results are stated as "a sorted permutation". */
module Sorting {
  import opened Seqs
  import opened Strings

  ghost predicate TotalPreorder<T(!new)>(le: (T, T) -> bool)
  {
    && (forall a, b :: le(a, b) || le(b, a))
    && (forall a, b, c :: le(a, b) && le(b, c) ==> le(a, c))
  }

  /** Every element may be listed before every later one. */
  predicate SortedBy<T>(s: seq<T>, le: (T, T) -> bool)
  {
    forall i, j :: 0 <= i < j < |s| ==> le(s[i], s[j])
  }

  function Insert<T(!new)>(x: T, s: seq<T>, le: (T, T) -> bool): (r: seq<T>)
    requires TotalPreorder(le) && SortedBy(s, le)
    ensures multiset(r) == multiset(s) + multiset{x}
    ensures SortedBy(r, le)
  {
    if s == [] then [x]
    else if le(x, s[0]) then [x] + s
    else
      var rest := Insert(x, s[1..], le);
      assert s == [s[0]] + s[1..];
      assert forall k :: 0 <= k < |rest| ==> le(s[0], rest[k]) by {
        forall k | 0 <= k < |rest|
          ensures le(s[0], rest[k])
        {
          assert rest[k] in multiset(rest);
          if rest[k] != x {
            assert rest[k] in multiset(s[1..]);
            var j :| 0 <= j < |s[1..]| && s[1..][j] == rest[k];
            assert s[j + 1] == rest[k];
          }
        }
      }
      [s[0]] + rest
  }

  /** The rows listed so that each may come before every later one; the
      same rows, as often as before. */
  function Sort<T(!new)>(s: seq<T>, le: (T, T) -> bool): (r: seq<T>)
    requires TotalPreorder(le)
    ensures multiset(r) == multiset(s)
    ensures SortedBy(r, le)
  {
    if s == [] then []
    else
      assert s == [s[0]] + s[1..];
      Insert(s[0], Sort(s[1..], le), le)
  }

  lemma SortLength<T(!new)>(s: seq<T>, le: (T, T) -> bool)
    requires TotalPreorder(le)
    ensures |Sort(s, le)| == |s|
  {
    assert |multiset(Sort(s, le))| == |multiset(s)|;
  }

  /** `sort_values(...).head(k)`: the first `k` sorted rows, or all of
      them when there are fewer; no row of the head ranks below a row
      left out. */
  lemma HeadDominates<T(!new)>(s: seq<T>, le: (T, T) -> bool, k: nat)
    requires TotalPreorder(le)
    ensures var sorted := Sort(s, le); var head := Take(sorted, k);
      && |head| == (if |s| < k then |s| else k)
      && head == sorted[..|head|]
      && forall i, j :: 0 <= i < |head| <= j < |sorted| ==> le(head[i], sorted[j])
  {
    SortLength(s, le);
  }

  /** Descending by an integer key. */
  function ByKeyDesc<T>(key: T -> int): (T, T) -> bool
  {
    (a: T, b: T) => key(a) >= key(b)
  }

  /** Ascending by an integer key. */
  function ByKeyAsc<T>(key: T -> int): (T, T) -> bool
  {
    (a: T, b: T) => key(a) <= key(b)
  }

  lemma KeyOrders<T(!new)>(key: T -> int)
    ensures TotalPreorder(ByKeyDesc(key)) && TotalPreorder(ByKeyAsc(key))
  {
  }
}
