/** Duplicate ids: the `duplicated("id", keep=False)` selection and the
    in-place `drop_duplicates("id", keep="first")`, over rows of any type
    with an id of any type. */
module Dedup {
  import opened Seqs

  /** The id column. */
  function Ids<T, K>(rows: seq<T>, id: T -> K): (r: seq<K>)
    ensures |r| == |rows| && forall i :: 0 <= i < |rows| ==> r[i] == id(rows[i])
  {
    seq(|rows|, i requires 0 <= i < |rows| => id(rows[i]))
  }

  /** `df[df.duplicated("id", keep=False)]`. */
  function Duplicated<T, K(==)>(rows: seq<T>, id: T -> K): seq<T>
  {
    Filter(rows, x => Count(Ids(rows, id), id(x)) >= 2)
  }

  /** The selection holds, in the table's order, exactly the rows whose id
      occurs at least twice, first occurrences included, each as often as
      in the table. */
  lemma DuplicatedRows<T, K>(rows: seq<T>, id: T -> K, x: T)
    ensures IsSubsequence(Duplicated(rows, id), rows)
    ensures Count(Duplicated(rows, id), x) ==
      if Count(Ids(rows, id), id(x)) >= 2 then Count(rows, x) else 0
  {
    FilterIsSubsequence(rows, x => Count(Ids(rows, id), id(x)) >= 2);
    FilterCount(rows, x => Count(Ids(rows, id), id(x)) >= 2, x);
  }

  /** The rows kept by a scan that has already met the ids in `seen`: a row
      is kept when its id is new, and its id is then met. */
  function FirstFrom<T, K(==)>(rows: seq<T>, id: T -> K, seen: set<K>): seq<T>
  {
    if rows == [] then []
    else if id(rows[0]) in seen then FirstFrom(rows[1..], id, seen)
    else [rows[0]] + FirstFrom(rows[1..], id, seen + {id(rows[0])})
  }

  /** `keep="first"`: the first row of each id, in the table's order. */
  function FirstOccurrences<T, K(==)>(rows: seq<T>, id: T -> K): seq<T>
  {
    FirstFrom(rows, id, {})
  }

  lemma {:induction false} FirstFromIds<T, K>(rows: seq<T>, id: T -> K, seen: set<K>)
    ensures var r := FirstFrom(rows, id, seen);
      && NoDup(Ids(r, id))
      && (forall i :: 0 <= i < |r| ==> id(r[i]) !in seen && id(r[i]) in Ids(rows, id))
  {
    if rows != [] {
      var rest := rows[1..];
      if id(rows[0]) in seen {
        FirstFromIds(rest, id, seen);
        var r := FirstFrom(rest, id, seen);
        forall i | 0 <= i < |r|
          ensures id(r[i]) in Ids(rows, id)
        {
          var j :| 0 <= j < |rest| && Ids(rest, id)[j] == id(r[i]);
          assert Ids(rows, id)[j + 1] == id(r[i]);
        }
      } else {
        var x := rows[0];
        FirstFromIds(rest, id, seen + {id(x)});
        var tail := FirstFrom(rest, id, seen + {id(x)});
        var r := [x] + tail;
        assert Ids(rows, id)[0] == id(x);
        forall i | 1 <= i < |r|
          ensures id(r[i]) in Ids(rows, id)
        {
          var j :| 0 <= j < |rest| && Ids(rest, id)[j] == id(tail[i - 1]);
          assert Ids(rows, id)[j + 1] == id(r[i]);
        }
        forall i, j | 0 <= i < j < |r|
          ensures Ids(r, id)[i] != Ids(r, id)[j]
        {
          if i > 0 {
            assert Ids(tail, id)[i - 1] != Ids(tail, id)[j - 1];
          }
        }
      }
    }
  }

  lemma {:induction false} FirstFromComplete<T, K>(rows: seq<T>, id: T -> K, seen: set<K>)
    ensures forall i :: 0 <= i < |rows| ==>
      id(rows[i]) in seen || id(rows[i]) in Ids(FirstFrom(rows, id, seen), id)
  {
    if rows != [] {
      var rest := rows[1..];
      var x := rows[0];
      var seen' := if id(x) in seen then seen else seen + {id(x)};
      FirstFromComplete(rest, id, seen');
      var r := FirstFrom(rows, id, seen);
      var tail := FirstFrom(rest, id, seen');
      assert r == if id(x) in seen then tail else [x] + tail;
      forall i | 0 <= i < |rows| && id(rows[i]) !in seen
        ensures id(rows[i]) in Ids(r, id)
      {
        if id(rows[i]) == id(x) {
          assert Ids(r, id)[0] == id(x);
        } else {
          assert rows[i] == rest[i - 1];
          var j :| 0 <= j < |tail| && Ids(tail, id)[j] == id(rows[i]);
          if id(x) in seen {
            assert Ids(r, id)[j] == id(rows[i]);
          } else {
            assert Ids(r, id)[j + 1] == id(rows[i]);
          }
        }
      }
    }
  }

  lemma {:induction false} FirstFromSubsequence<T, K>(rows: seq<T>, id: T -> K, seen: set<K>)
    ensures IsSubsequence(FirstFrom(rows, id, seen), rows)
  {
    if rows != [] {
      var x := rows[0];
      if id(x) in seen {
        FirstFromSubsequence(rows[1..], id, seen);
        SubsequenceCons(FirstFrom(rows[1..], id, seen), x, rows[1..]);
        assert [x] + rows[1..] == rows;
      } else {
        FirstFromSubsequence(rows[1..], id, seen + {id(x)});
        assert ([x] + FirstFrom(rows[1..], id, seen + {id(x)}))[1..] == FirstFrom(rows[1..], id, seen + {id(x)});
      }
    }
  }

  lemma {:induction false} FirstFromIdentity<T, K>(rows: seq<T>, id: T -> K, seen: set<K>)
    requires NoDup(Ids(rows, id))
    requires forall i :: 0 <= i < |rows| ==> id(rows[i]) !in seen
    ensures FirstFrom(rows, id, seen) == rows
  {
    if rows != [] {
      var x := rows[0];
      var rest := rows[1..];
      forall i, j | 0 <= i < j < |rest|
        ensures Ids(rest, id)[i] != Ids(rest, id)[j]
      {
        assert Ids(rows, id)[i + 1] != Ids(rows, id)[j + 1];
      }
      forall i | 0 <= i < |rest|
        ensures id(rest[i]) !in seen + {id(x)}
      {
        assert Ids(rows, id)[0] != Ids(rows, id)[i + 1];
      }
      FirstFromIdentity(rest, id, seen + {id(x)});
    }
  }

  /** After deduplication no two rows share an id. */
  lemma DedupIdsDistinct<T, K>(rows: seq<T>, id: T -> K)
    ensures NoDup(Ids(FirstOccurrences(rows, id), id))
  {
    FirstFromIds(rows, id, {});
  }

  /** Deduplication keeps rows, whole and in order, and drops the others. */
  lemma DedupSubsequence<T, K>(rows: seq<T>, id: T -> K)
    ensures IsSubsequence(FirstOccurrences(rows, id), rows)
  {
    FirstFromSubsequence(rows, id, {});
  }

  /** Deduplication loses no id and makes up none. */
  lemma DedupSameIds<T, K>(rows: seq<T>, id: T -> K)
    ensures forall k :: k in Ids(rows, id) <==> k in Ids(FirstOccurrences(rows, id), id)
  {
    FirstFromIds(rows, id, {});
    FirstFromComplete(rows, id, {});
  }

  /** A second pass removes nothing. */
  lemma DedupIdempotent<T, K>(rows: seq<T>, id: T -> K)
    ensures FirstOccurrences(FirstOccurrences(rows, id), id) == FirstOccurrences(rows, id)
  {
    FirstFromIds(rows, id, {});
    FirstFromIdentity(FirstOccurrences(rows, id), id, {});
  }

  /** Row `i` is the earliest row with its id. */
  predicate IsFirstOfId<T, K(==)>(rows: seq<T>, id: T -> K, i: nat)
    requires i < |rows|
  {
    forall j :: 0 <= j < i ==> id(rows[j]) != id(rows[i])
  }

  /** The rows from position `i` on that are the earliest with their id,
      in the table's order. */
  function EarliestFrom<T, K(==)>(rows: seq<T>, id: T -> K, i: nat): seq<T>
    requires i <= |rows|
    decreases |rows| - i
  {
    if i == |rows| then []
    else (if IsFirstOfId(rows, id, i) then [rows[i]] else []) + EarliestFrom(rows, id, i + 1)
  }

  /** The ids of the rows before position `i`. */
  ghost function IdsBefore<T, K>(rows: seq<T>, id: T -> K, i: nat): set<K>
    requires i <= |rows|
  {
    set j | 0 <= j < i :: id(rows[j])
  }

  lemma {:induction false} FirstFromEarliest<T, K>(rows: seq<T>, id: T -> K, i: nat)
    requires i <= |rows|
    ensures FirstFrom(rows[i..], id, IdsBefore(rows, id, i)) == EarliestFrom(rows, id, i)
    decreases |rows| - i
  {
    if i < |rows| {
      var seen := IdsBefore(rows, id, i);
      var x := rows[i];
      assert rows[i..][0] == x && rows[i..][1..] == rows[i + 1..];
      assert IdsBefore(rows, id, i + 1) == seen + {id(x)};
      FirstFromEarliest(rows, id, i + 1);
      if id(x) in seen {
        var j :| 0 <= j < i && id(rows[j]) == id(x);
        assert !IsFirstOfId(rows, id, i);
        assert seen + {id(x)} == seen;
      } else {
        assert IsFirstOfId(rows, id, i) by {
          forall j | 0 <= j < i
            ensures id(rows[j]) != id(x)
          {
            assert id(rows[j]) in seen;
          }
        }
      }
    }
  }

  /** `keep="first"`: a row is kept exactly when no earlier row has its
      id, and the kept rows keep their order. */
  lemma DedupKeepsFirst<T, K>(rows: seq<T>, id: T -> K)
    ensures FirstOccurrences(rows, id) == EarliestFrom(rows, id, 0)
  {
    FirstFromEarliest(rows, id, 0);
    assert rows[0..] == rows;
    assert IdsBefore(rows, id, 0) == {};
  }

  /** A loaded table, changed in place. */
  class Table<T> {
    var rows: seq<T>

    constructor (rows: seq<T>)
      ensures this.rows == rows
    {
      this.rows := rows;
    }

    /** `df.drop_duplicates("id", keep="first", inplace=True)`. */
    method DropDuplicates<K(==)>(id: T -> K)
      modifies this
      ensures rows == FirstOccurrences(old(rows), id)
    {
      var all := rows;
      var kept := [];
      var seen: set<K> := {};
      for i := 0 to |all|
        invariant kept + FirstFrom(all[i..], id, seen) == FirstOccurrences(all, id)
      {
        assert all[i..][1..] == all[i + 1..];
        if id(all[i]) !in seen {
          kept := kept + [all[i]];
          seen := seen + {id(all[i])};
        }
      }
      rows := kept;
    }
  }
}
