/** The rate table the option menu reads, as an immutable sequence of
    rows, and the two column operations the menu applies to it: projecting a
    column and selecting the rows whose source currency equals a value. */
module RateTable {

  /** An optional value; `None` stands for Python's `None`. */
  datatype Option<+T> = None | Some(value: T)

  /** One row of the rate table, reduced to the two columns the menu reads:
      the source currency `CodeNameA` and the target currency `CodeNameB`.
      Other columns play no part in the menu and are not modelled. */
  datatype RateRow = RateRow(codeNameA: string, codeNameB: string)

  type Table = seq<RateRow>

  /** The `CodeNameA` column, row by row. */
  function ColumnA(rows: Table): (col: seq<string>)
    ensures |col| == |rows|
  {
    seq(|rows|, i requires 0 <= i < |rows| => rows[i].codeNameA)
  }

  /** The `CodeNameB` column, row by row. */
  function ColumnB(rows: Table): (col: seq<string>)
    ensures |col| == |rows|
  {
    seq(|rows|, i requires 0 <= i < |rows| => rows[i].codeNameB)
  }

  /** The element-wise test `rows['CodeNameA'] == filterValue`. A comparison
      against `None` is false for every string, so `None` matches no row. */
  predicate Matches(row: RateRow, filterValue: Option<string>) {
    filterValue.Some? && row.codeNameA == filterValue.value
  }

  /** Boolean-mask selection: the rows whose source currency equals
      `filterValue`, kept in table order. */
  function SelectA(rows: Table, filterValue: Option<string>): (selected: Table)
    ensures forall row :: row in selected <==> row in rows && Matches(row, filterValue)
    ensures |selected| <= |rows|
    ensures selected == [] <==> forall row :: row in rows ==> !Matches(row, filterValue)
  {
    if |rows| == 0 then []
    else if Matches(rows[0], filterValue) then [rows[0]] + SelectA(rows[1..], filterValue)
    else SelectA(rows[1..], filterValue)
  }

  /** Number of rows whose source currency equals `filterValue`. */
  function CountMatching(rows: Table, filterValue: Option<string>): nat {
    if |rows| == 0 then 0
    else (if Matches(rows[0], filterValue) then 1 else 0) + CountMatching(rows[1..], filterValue)
  }

  /** The selection keeps one row per matching row. */
  lemma {:induction false} SelectACount(rows: Table, filterValue: Option<string>)
    ensures |SelectA(rows, filterValue)| == CountMatching(rows, filterValue)
  {
    if |rows| > 0 {
      SelectACount(rows[1..], filterValue);
    }
  }

  /** The selection keeps table order: selecting from two consecutive parts
      of a table and concatenating gives the selection from the whole. */
  lemma {:induction false} SelectAConcat(a: Table, b: Table, filterValue: Option<string>)
    ensures SelectA(a + b, filterValue) == SelectA(a, filterValue) + SelectA(b, filterValue)
  {
    if |a| == 0 {
      assert a + b == b;
    } else {
      assert (a + b)[0] == a[0];
      assert (a + b)[1..] == a[1..] + b;
      SelectAConcat(a[1..], b, filterValue);
    }
  }
}
