/** Row widths of the raw CSV: the modal width `max(set(lengths),
    key=lengths.count)` and the indices of rows of another width. */
module Width {
  import opened Seqs

  /** `[len(row) for row in reader]`, header included. */
  function Lengths<T>(rows: seq<seq<T>>): (r: seq<nat>)
    ensures |r| == |rows| && forall i :: 0 <= i < |rows| ==> r[i] == |rows[i]|
  {
    seq(|rows|, i requires 0 <= i < |rows| => |rows[i]|)
  }

  /** A candidate with the largest count in `s`; the first such in
      `candidates` (Python leaves the choice among ties unspecified). */
  function BestAmong(s: seq<nat>, candidates: seq<nat>): (w: nat)
    requires |candidates| > 0
    ensures w in candidates
    ensures forall j :: 0 <= j < |candidates| ==> Count(s, candidates[j]) <= Count(s, w)
  {
    if |candidates| == 1 then candidates[0]
    else
      var best := BestAmong(s, candidates[1..]);
      if Count(s, candidates[0]) >= Count(s, best) then candidates[0] else best
  }

  /** The expected width: a width occurring in `lengths` whose frequency is
      at least that of every other width. Python raises on an empty
      file. */
  function ModalWidth(lengths: seq<nat>): (w: nat)
    requires |lengths| > 0
    ensures w in lengths
    ensures forall j :: 0 <= j < |lengths| ==> Count(lengths, lengths[j]) <= Count(lengths, w)
  {
    BestAmong(lengths, lengths)
  }

  /** Indices from `k` on whose length differs from `expected`. */
  function BadRowsFrom(lengths: seq<nat>, expected: nat, k: nat): (r: seq<nat>)
    requires k <= |lengths|
    ensures forall j :: 0 <= j < |r| ==> k <= r[j] < |lengths| && lengths[r[j]] != expected
    ensures forall i :: k <= i < |lengths| && lengths[i] != expected ==> i in r
    ensures forall j1, j2 :: 0 <= j1 < j2 < |r| ==> r[j1] < r[j2]
    decreases |lengths| - k
  {
    if k == |lengths| then []
    else (if lengths[k] != expected then [k] else []) + BadRowsFrom(lengths, expected, k + 1)
  }

  /** `[i for i, l in enumerate(lengths) if l != expected]`: exactly the
      indices of rows of another width, ascending. */
  function BadRows(lengths: seq<nat>, expected: nat): (r: seq<nat>)
    ensures forall j :: 0 <= j < |r| ==> r[j] < |lengths| && lengths[r[j]] != expected
    ensures forall i :: 0 <= i < |lengths| ==> (lengths[i] != expected <==> i in r)
    ensures forall j1, j2 :: 0 <= j1 < j2 < |r| ==> r[j1] < r[j2]
  {
    BadRowsFrom(lengths, expected, 0)
  }

  /** No row is bad exactly when every row has the modal width. */
  lemma NoBadRows(lengths: seq<nat>)
    requires |lengths| > 0
    ensures BadRows(lengths, ModalWidth(lengths)) == [] <==>
            forall i :: 0 <= i < |lengths| ==> lengths[i] == lengths[0]
  {
    var w := ModalWidth(lengths);
    var r := BadRows(lengths, w);
    if r == [] {
      assert forall i :: 0 <= i < |lengths| ==> lengths[i] == w;
    } else {
      var i := r[0];
      var k :| 0 <= k < |lengths| && lengths[k] == w;
      assert lengths[i] != lengths[k];
    }
  }
}
