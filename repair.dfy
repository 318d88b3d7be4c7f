/** Row repair: every data row of the raw CSV is brought to the expected
    width, either as it is, or as the foreign re-parse of its
    comma-joined text, or padded/truncated. */
module Repair {
  import opened Wrappers
  import opened Strings

  /** A table cell: text, or `None` for a missing value (NaN). */
  type Cell = Option<string>

  /** `pd.read_csv(StringIO(joined), header=None).iloc[0].tolist()`, a
      parser outside the model: the first row it reads, or `None` when it
      raises or reads no row. */
  type Reparse = string -> Option<seq<Cell>>

  function Lift(row: seq<string>): (r: seq<Cell>)
    ensures |r| == |row| && forall i :: 0 <= i < |row| ==> r[i] == Some(row[i])
  {
    seq(|row|, i requires 0 <= i < |row| => Some(row[i]))
  }

  /** `row[:n] + [''] * (n - len(row))`. */
  function PadOrTruncate(row: seq<string>, n: nat): (r: seq<Cell>)
    ensures |r| == n
    ensures forall i :: 0 <= i < n ==> r[i] == Some(if i < |row| then row[i] else "")
  {
    if n <= |row| then Lift(row[..n])
    else Lift(row) + seq(n - |row|, _ => Some(""))
  }

  /** What the loop appends for one data row. */
  function RepairRow(row: seq<string>, n: nat, reparse: Reparse): (r: seq<Cell>)
    ensures |r| == n
    ensures |row| == n ==> r == Lift(row)
    ensures r == Lift(row) || r == PadOrTruncate(row, n) || reparse(JoinWith(row, ',')) == Some(r)
  {
    if |row| == n then Lift(row)
    else
      match reparse(JoinWith(row, ','))
      case Some(cells) => if |cells| == n then cells else PadOrTruncate(row, n)
      case None => PadOrTruncate(row, n)
  }

  /** Padding and truncating keep the longest common prefix of the row and
      the target width, and add only empty fields. */
  lemma PadKeepsPrefix(row: seq<string>, n: nat)
    ensures var k := if n <= |row| then n else |row|;
      && PadOrTruncate(row, n)[..k] == Lift(row[..k])
      && forall i :: k <= i < n ==> PadOrTruncate(row, n)[i] == Some("")
  {
  }

  /** The repair loop over the data rows (everything after the header). */
  method RepairRows(rows: seq<seq<string>>, n: nat, reparse: Reparse) returns (fixed: seq<seq<Cell>>)
    ensures |fixed| == |rows|
    ensures forall i :: 0 <= i < |rows| ==> fixed[i] == RepairRow(rows[i], n, reparse)
    ensures forall i :: 0 <= i < |rows| ==> |fixed[i]| == n
    ensures forall i :: 0 <= i < |rows| && |rows[i]| == n ==> fixed[i] == Lift(rows[i])
  {
    fixed := [];
    for i := 0 to |rows|
      invariant |fixed| == i
      invariant forall j :: 0 <= j < i ==> fixed[j] == RepairRow(rows[j], n, reparse)
    {
      var row := rows[i];
      if |row| == n {
        fixed := fixed + [Lift(row)];
      } else {
        var joined := JoinWith(row, ',');
        match reparse(joined)
        case Some(cells) =>
          if |cells| == n {
            fixed := fixed + [cells];
          } else {
            fixed := fixed + [PadOrTruncate(row, n)];
          }
        case None =>
          fixed := fixed + [PadOrTruncate(row, n)];
      }
    }
  }
}
