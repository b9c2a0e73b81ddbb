/** What the core asks of pandas when it turns rows of cell texts into a
    table with fixed column names: the table is as wide as its widest row,
    shorter rows are filled with a missing value, and naming the columns fails
    unless the width is exactly the number of names. */
module Frames {
  import opened Wrappers

  /** The texts of one table row, in DOM order. */
  type Row = seq<string>

  /** A cell that pandas fills in (NaN) is modelled as the empty text. */
  const Missing: string := ""

  /** The error pandas raises when the number of column names differs from
      the number of columns in the data. */
  datatype FrameError = ColumnCountMismatch(expected: nat, found: nat)

  /** The width of the widest row; 0 for no rows. */
  function MaxWidth(rows: seq<Row>): (w: nat)
    ensures forall k :: 0 <= k < |rows| ==> |rows[k]| <= w
    ensures |rows| == 0 ==> w == 0
    ensures |rows| > 0 ==> exists k :: 0 <= k < |rows| && |rows[k]| == w
  {
    if |rows| == 0 then 0
    else
      var rest := MaxWidth(rows[1..]);
      assert forall k :: 1 <= k < |rows| ==> rows[k] == rows[1..][k - 1];
      if |rows[0]| >= rest then |rows[0]| else rest
  }

  /** row extended to width n with missing cells. */
  function Pad(row: Row, n: nat): (r: Row)
    requires |row| <= n
    ensures |r| == n && r[..|row|] == row
    ensures forall j :: |row| <= j < n ==> r[j] == Missing
  {
    row + seq(n - |row|, _ => Missing)
  }

  /** out is row, padded to width n. */
  predicate PaddedFrom(out: Row, row: Row, n: nat) {
    |row| <= n && |out| == n && out[..|row|] == row
    && forall j :: |row| <= j < n ==> out[j] == Missing
  }

  /** Building a table of the given number of named columns from rows of texts. */
  function ToFrame(rows: seq<Row>, columns: nat): (r: Result<seq<Row>, FrameError>)
    ensures r.Success? <==> (|rows| == 0 || MaxWidth(rows) == columns)
    ensures r.Failure? ==> r.error == ColumnCountMismatch(columns, MaxWidth(rows))
    ensures r.Success? ==> |r.value| == |rows|
    ensures r.Success? ==> forall k :: 0 <= k < |rows| ==> PaddedFrom(r.value[k], rows[k], columns)
  {
    if |rows| > 0 && MaxWidth(rows) != columns then
      Failure(ColumnCountMismatch(columns, MaxWidth(rows)))
    else
      Success(seq(|rows|, k requires 0 <= k < |rows| => Pad(rows[k], columns)))
  }

  /** A table whose rows all have the expected width is taken as it is. */
  lemma ToFrameExact(rows: seq<Row>, columns: nat)
    requires forall k :: 0 <= k < |rows| ==> |rows[k]| == columns
    ensures ToFrame(rows, columns) == Success(rows)
  {
    if |rows| > 0 {
      var k :| 0 <= k < |rows| && |rows[k]| == MaxWidth(rows);
    }
    var r := ToFrame(rows, columns);
    forall k | 0 <= k < |rows|
      ensures r.value[k] == rows[k]
    {
      assert r.value[k] == r.value[k][..|rows[k]|];
    }
    assert r.value == rows;
  }
}
