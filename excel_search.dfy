/**
 * The spreadsheet side of the search engine: cells, rows and tables as the
 * search sees them, the per-cell match, the columns a row matches in, and
 * the record list over the whole table, with the properties the search
 * promises about them.
 */
module ExcelSearch {
  import opened Wrappers
  import opened TextOps

  /**
   * A cell as pandas hands it over: missing (NaN or None), a number (its
   * value, and the text str() gives for it), or anything else as its text.
   */
  datatype Cell = Null | Num(value: real, shown: string) | Str(text: string)

  /** One row of the sheet: column name to cell. */
  type Row = map<string, Cell>

  /** The sheet read_excel gives: its column names in order, and its rows in file order. */
  datatype Table = Table(columns: seq<string>, rows: seq<Row>)

  /** A table as read_excel builds it: every row has exactly the table's columns. */
  predicate WellFormed(t: Table)
  {
    forall i :: 0 <= i < |t.rows| ==> HasColumns(t.rows[i], t.columns) && forall c :: c in t.rows[i] ==> c in t.columns
  }

  /** The sheets read_excel can give. */
  type Sheet = t: Table | WellFormed(t) witness Table([], [])

  /** One result of a spreadsheet search: {row_index, matched_columns, data}. */
  datatype ExcelMatch = ExcelMatch(rowIndex: int, matchedColumns: seq<string>, data: Row)

  /** Why a spreadsheet search raises: a selected column the row lacks (KeyError), or no sheet at all. */
  datatype ExcelError = MissingColumn(column: string) | NoSheet

  // ---------------------------------------------------------------------------
  // One cell
  // ---------------------------------------------------------------------------

  /** The tolerance of the numeric comparison, 1e-10. */
  const Tolerance: real := 0.0000000001

  function Abs(x: real): real
  {
    if x < 0.0 then -x else x
  }

  /** abs(cell_value - numeric_query) < 1e-10, when the query parses as a number. */
  predicate NumericMatch(value: real, numericQuery: Option<real>)
  {
    numericQuery.Some? && Abs(value - numericQuery.value) < Tolerance
  }

  /**
   * Whether a cell matches: a missing cell never does; a number matches by
   * its printed text or by value; any other cell by its text.
   */
  predicate CellMatches(cell: Cell, query: string, numericQuery: Option<real>, caseSensitive: bool)
  {
    match cell
    case Null => false
    case Num(value, shown) => Matches(query, shown, caseSensitive) || NumericMatch(value, numericQuery)
    case Str(text) => Matches(query, text, caseSensitive)
  }

  /** A number matches a query that parses to the same value, whatever its printed text. */
  lemma SameNumberMatches(value: real, shown: string, query: string, caseSensitive: bool)
    ensures CellMatches(Num(value, shown), query, Some(value), caseSensitive)
  {
    assert Abs(value - value) == 0.0;
  }

  // ---------------------------------------------------------------------------
  // One row
  // ---------------------------------------------------------------------------

  /**
   * The matched_columns the column loop has built after selected[..n], or
   * the first of those columns the row lacks.
   */
  function MatchedColumns(row: Row, selected: seq<string>, query: string, numericQuery: Option<real>,
                          caseSensitive: bool, n: nat): Result<seq<string>, ExcelError>
    requires n <= |selected|
  {
    if n == 0 then Ok([])
    else
      var prev := MatchedColumns(row, selected, query, numericQuery, caseSensitive, n - 1);
      var column := selected[n - 1];
      if prev.Err? then prev
      else if column !in row then Err(MissingColumn(column))
      else if CellMatches(row[column], query, numericQuery, caseSensitive) then Ok(prev.value + [column])
      else prev
  }

  /** Every selected column is a column of the row. */
  predicate HasColumns(row: Row, selected: seq<string>)
  {
    forall c :: c in selected ==> c in row
  }

  /** The selected columns whose cells match, in selection order: the reference filter. */
  function Matching(row: Row, selected: seq<string>, query: string, numericQuery: Option<real>,
                    caseSensitive: bool): seq<string>
    requires HasColumns(row, selected)
  {
    if selected == [] then []
    else
      var rest := Matching(row, selected[1..], query, numericQuery, caseSensitive);
      if CellMatches(row[selected[0]], query, numericQuery, caseSensitive) then [selected[0]] + rest else rest
  }

  /** A column is in the filter exactly when it is selected and its cell matches. */
  lemma {:induction false} MatchingMembers(row: Row, selected: seq<string>, query: string, numericQuery: Option<real>,
                                           caseSensitive: bool, c: string)
    requires HasColumns(row, selected)
    ensures c in Matching(row, selected, query, numericQuery, caseSensitive)
        <==> c in selected && CellMatches(row[c], query, numericQuery, caseSensitive)
  {
    if selected != [] {
      MatchingMembers(row, selected[1..], query, numericQuery, caseSensitive, c);
      assert selected == [selected[0]] + selected[1..];
    }
  }

  /** Filtering one more column adds it at the end when its cell matches. */
  lemma {:induction false} MatchingAppend(row: Row, s: seq<string>, c: string, query: string,
                                          numericQuery: Option<real>, caseSensitive: bool)
    requires HasColumns(row, s + [c])
    ensures Matching(row, s + [c], query, numericQuery, caseSensitive)
         == Matching(row, s, query, numericQuery, caseSensitive)
            + (if CellMatches(row[c], query, numericQuery, caseSensitive) then [c] else [])
  {
    if s == [] {
      assert [c][1..] == [];
    } else {
      assert (s + [c])[1..] == s[1..] + [c];
      MatchingAppend(row, s[1..], c, query, numericQuery, caseSensitive);
    }
  }

  /**
   * The column loop fails exactly when the row lacks a selected column, and
   * then names one; otherwise it gives the reference filter.
   */
  lemma {:induction false} MatchedColumnsSpec(row: Row, selected: seq<string>, query: string, numericQuery: Option<real>,
                                              caseSensitive: bool, n: nat)
    requires n <= |selected|
    ensures var r := MatchedColumns(row, selected, query, numericQuery, caseSensitive, n);
      && (r.Ok? <==> HasColumns(row, selected[..n]))
      && (r.Err? ==> r.error.MissingColumn? && r.error.column in selected[..n] && r.error.column !in row)
      && (r.Ok? ==> r.value == Matching(row, selected[..n], query, numericQuery, caseSensitive))
  {
    if n > 0 {
      MatchedColumnsSpec(row, selected, query, numericQuery, caseSensitive, n - 1);
      assert selected[..n] == selected[..n - 1] + [selected[n - 1]];
      if HasColumns(row, selected[..n]) {
        MatchingAppend(row, selected[..n - 1], selected[n - 1], query, numericQuery, caseSensitive);
      }
    }
  }

  // ---------------------------------------------------------------------------
  // The whole sheet
  // ---------------------------------------------------------------------------

  /**
   * The results the row loop has built after rows[..n]: one record per row
   * that matches in at least one selected column, with its index shifted by
   * two (1-based, after the header line); or the error of the first row
   * that lacks a selected column.
   */
  function SheetResults(rows: seq<Row>, selected: seq<string>, query: string, numericQuery: Option<real>,
                        caseSensitive: bool, n: nat): Result<seq<ExcelMatch>, ExcelError>
    requires n <= |rows|
  {
    if n == 0 then Ok([])
    else
      var prev := SheetResults(rows, selected, query, numericQuery, caseSensitive, n - 1);
      var columns := MatchedColumns(rows[n - 1], selected, query, numericQuery, caseSensitive, |selected|);
      if prev.Err? then prev
      else if columns.Err? then Err(columns.error)
      else if columns.value != [] then Ok(prev.value + [ExcelMatch(n - 1 + 2, columns.value, rows[n - 1])])
      else prev
  }

  /** What search_excel gives: nothing for an empty selection, otherwise the row loop over the whole sheet. */
  function ExcelOutcome(sheet: Option<Table>, selected: seq<string>, query: string, numericQuery: Option<real>,
                        caseSensitive: bool): Result<seq<ExcelMatch>, ExcelError>
  {
    if selected == [] then Ok([])
    else if sheet.None? then Err(NoSheet)
    else SheetResults(sheet.value.rows, selected, query, numericQuery, caseSensitive, |sheet.value.rows|)
  }

  /** Every row has every selected column. */
  predicate AllHaveColumns(rows: seq<Row>, selected: seq<string>)
  {
    forall i :: 0 <= i < |rows| ==> HasColumns(rows[i], selected)
  }

  /** A record that reports row i of rows (index i + 2) with its data and the columns it matches in. */
  predicate RecordOf(rows: seq<Row>, selected: seq<string>, query: string, numericQuery: Option<real>,
                     caseSensitive: bool, r: ExcelMatch)
  {
    && 2 <= r.rowIndex < |rows| + 2
    && r.data == rows[r.rowIndex - 2]
    && HasColumns(r.data, selected)
    && r.matchedColumns == Matching(r.data, selected, query, numericQuery, caseSensitive)
    && r.matchedColumns != []
  }

  /** The row loop succeeds exactly when every row it reads has every selected column. */
  lemma {:induction false} SheetResultsOk(rows: seq<Row>, selected: seq<string>, query: string, numericQuery: Option<real>,
                                          caseSensitive: bool, n: nat)
    requires n <= |rows|
    ensures SheetResults(rows, selected, query, numericQuery, caseSensitive, n).Ok? <==> AllHaveColumns(rows[..n], selected)
  {
    if n > 0 {
      SheetResultsOk(rows, selected, query, numericQuery, caseSensitive, n - 1);
      MatchedColumnsSpec(rows[n - 1], selected, query, numericQuery, caseSensitive, |selected|);
      assert selected[..|selected|] == selected;
      assert rows[..n][n - 1] == rows[n - 1];
      if AllHaveColumns(rows[..n], selected) {
        assert forall i :: 0 <= i < n - 1 ==> rows[..n - 1][i] == rows[..n][i];
      } else {
        var i :| 0 <= i < n && !HasColumns(rows[..n][i], selected);
        if i < n - 1 {
          assert rows[..n - 1][i] == rows[..n][i];
        }
      }
    }
  }

  /**
   * The records of a successful row loop report rows in strictly increasing
   * order, each with its data and exactly the selected columns it matches in.
   */
  lemma {:induction false} SheetResultsSound(rows: seq<Row>, selected: seq<string>, query: string, numericQuery: Option<real>,
                                             caseSensitive: bool, n: nat)
    requires n <= |rows|
    ensures var r := SheetResults(rows, selected, query, numericQuery, caseSensitive, n);
      r.Ok? ==>
        && (forall m :: m in r.value ==> m.rowIndex < n + 2 && RecordOf(rows, selected, query, numericQuery, caseSensitive, m))
        && (forall j, k :: 0 <= j < k < |r.value| ==> r.value[j].rowIndex < r.value[k].rowIndex)
  {
    if n > 0 {
      SheetResultsSound(rows, selected, query, numericQuery, caseSensitive, n - 1);
      var prev := SheetResults(rows, selected, query, numericQuery, caseSensitive, n - 1);
      var r := SheetResults(rows, selected, query, numericQuery, caseSensitive, n);
      var columns := MatchedColumns(rows[n - 1], selected, query, numericQuery, caseSensitive, |selected|);
      if r.Ok? && r != prev {
        MatchedColumnsSpec(rows[n - 1], selected, query, numericQuery, caseSensitive, |selected|);
        assert selected[..|selected|] == selected;
        var added := ExcelMatch(n + 1, columns.value, rows[n - 1]);
        assert r.value == prev.value + [added];
        assert RecordOf(rows, selected, query, numericQuery, caseSensitive, added);
        forall j, k | 0 <= j < k < |r.value| ensures r.value[j].rowIndex < r.value[k].rowIndex {
          if k == |prev.value| {
            assert r.value[j] == prev.value[j] && prev.value[j] in prev.value;
          } else {
            assert r.value[j] == prev.value[j] && r.value[k] == prev.value[k];
          }
        }
      }
    }
  }

  /** A successful row loop reports every row whose selected cells match somewhere. */
  lemma SheetResultsComplete(rows: seq<Row>, selected: seq<string>, query: string, numericQuery: Option<real>,
                             caseSensitive: bool, n: nat, i: nat) returns (m: ExcelMatch)
    requires i < n <= |rows|
    requires SheetResults(rows, selected, query, numericQuery, caseSensitive, n).Ok?
    requires HasColumns(rows[i], selected) && Matching(rows[i], selected, query, numericQuery, caseSensitive) != []
    ensures m in SheetResults(rows, selected, query, numericQuery, caseSensitive, n).value && m.rowIndex == i + 2
  {
    var r := SheetResults(rows, selected, query, numericQuery, caseSensitive, n);
    var here := SheetResults(rows, selected, query, numericQuery, caseSensitive, i + 1);
    var prev := SheetResults(rows, selected, query, numericQuery, caseSensitive, i);
    SheetResultsPrefix(rows, selected, query, numericQuery, caseSensitive, i + 1, n);
    MatchedColumnsSpec(rows[i], selected, query, numericQuery, caseSensitive, |selected|);
    assert selected[..|selected|] == selected;
    m := ExcelMatch(i + 2, Matching(rows[i], selected, query, numericQuery, caseSensitive), rows[i]);
    assert here.value == prev.value + [m];
    assert r.value[|prev.value|] == m;
  }

  /** A successful row loop over rows[..m] extends the one over any shorter prefix. */
  lemma {:induction false} SheetResultsPrefix(rows: seq<Row>, selected: seq<string>, query: string, numericQuery: Option<real>,
                                              caseSensitive: bool, n: nat, m: nat)
    requires n <= m <= |rows|
    requires SheetResults(rows, selected, query, numericQuery, caseSensitive, m).Ok?
    ensures SheetResults(rows, selected, query, numericQuery, caseSensitive, n).Ok?
    ensures SheetResults(rows, selected, query, numericQuery, caseSensitive, n).value
         <= SheetResults(rows, selected, query, numericQuery, caseSensitive, m).value
    decreases m - n
  {
    if n < m {
      SheetResultsPrefix(rows, selected, query, numericQuery, caseSensitive, n, m - 1);
    }
  }

  /** Once the row loop has failed, it stays failed with the same error. */
  lemma {:induction false} SheetErrorStays(rows: seq<Row>, selected: seq<string>, query: string, numericQuery: Option<real>,
                                           caseSensitive: bool, k: nat, n: nat)
    requires k <= n <= |rows|
    ensures var e := SheetResults(rows, selected, query, numericQuery, caseSensitive, k);
      e.Err? ==> SheetResults(rows, selected, query, numericQuery, caseSensitive, n) == e
    decreases n - k
  {
    if k < n {
      SheetErrorStays(rows, selected, query, numericQuery, caseSensitive, k, n - 1);
    }
  }

  // ---------------------------------------------------------------------------
  // The column loop of one row
  // ---------------------------------------------------------------------------

  /** The inner loop of the spreadsheet search: the selected columns row matches in, or the KeyError it raises. */
  method MatchRow(row: Row, selected: seq<string>, query: string, numericQuery: Option<real>, caseSensitive: bool)
    returns (matched: Result<seq<string>, ExcelError>)
    ensures matched == MatchedColumns(row, selected, query, numericQuery, caseSensitive, |selected|)
    ensures matched.Ok? <==> HasColumns(row, selected)
    ensures matched.Ok? ==> matched.value == Matching(row, selected, query, numericQuery, caseSensitive)
  {
    MatchedColumnsSpec(row, selected, query, numericQuery, caseSensitive, |selected|);
    assert selected[..|selected|] == selected;
    var columns: seq<string> := [];
    var k := 0;
    while k < |selected|
      invariant k <= |selected|
      invariant MatchedColumns(row, selected, query, numericQuery, caseSensitive, k) == Ok(columns)
    {
      var column := selected[k];
      if column !in row {
        MissingStays(row, selected, query, numericQuery, caseSensitive, k + 1, |selected|);
        return Err(MissingColumn(column));
      }
      if CellMatches(row[column], query, numericQuery, caseSensitive) {
        columns := columns + [column];
      }
      k := k + 1;
    }
    matched := Ok(columns);
  }

  /** Once the column loop has failed, it stays failed with the same error. */
  lemma {:induction false} MissingStays(row: Row, selected: seq<string>, query: string, numericQuery: Option<real>,
                                        caseSensitive: bool, k: nat, n: nat)
    requires k <= n <= |selected|
    ensures var e := MatchedColumns(row, selected, query, numericQuery, caseSensitive, k);
      e.Err? ==> MatchedColumns(row, selected, query, numericQuery, caseSensitive, n) == e
    decreases n - k
  {
    if k < n {
      MissingStays(row, selected, query, numericQuery, caseSensitive, k, n - 1);
    }
  }
}
