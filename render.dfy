/**
 * The text the results pane shows after a search: a header with the query
 * and a rule of '=', then one numbered block per record; for a spreadsheet
 * every column of the record's row, the matched ones marked with a star.
 */
module Render {
  import opened Wrappers
  import opened TextOps
  import opened PdfSearch
  import opened ExcelSearch

  /** A result list as perform_search hands it to display_results, tagged by the loaded file type. */
  datatype Results = PdfList(pdf: seq<PdfMatch>) | ExcelList(excel: seq<ExcelMatch>)

  function Count(results: Results): nat
  {
    match results
    case PdfList(pdf) => |pdf|
    case ExcelList(excel) => |excel|
  }

  /** c * n: the character c repeated n times. */
  function Repeat(c: char, n: nat): (r: string)
    ensures |r| == n
    ensures forall i :: 0 <= i < n ==> r[i] == c
  {
    if n == 0 then "" else Repeat(c, n - 1) + [c]
  }

  /** What the pane shows for a search without results. */
  const NoMatches: string := "No matches found."

  /** The first lines of a report: which kind of file, the query, a rule of 50 '=' and a blank line. */
  function Header(kind: string, query: string): string
  {
    kind + " Search Results for: '" + query + "'\n" + Repeat('=', 50) + "\n\n"
  }

  /** The pieces written one after the other, as the successive inserts into the pane do. */
  function Concat(pieces: seq<string>): string
  {
    if pieces == [] then "" else pieces[0] + Concat(pieces[1..])
  }

  /** Piece j of a concatenation sits between the pieces before it and the pieces after it. */
  lemma {:induction false} PieceAt(pieces: seq<string>, j: nat) returns (pre: string, post: string)
    requires j < |pieces|
    ensures Concat(pieces) == pre + pieces[j] + post
    ensures pre == Concat(pieces[..j]) && post == Concat(pieces[j + 1..])
    decreases j
  {
    if j == 0 {
      pre, post := "", Concat(pieces[1..]);
      assert pieces[..0] == [];
    } else {
      var rest := pieces[1..];
      var pre', post' := PieceAt(rest, j - 1);
      assert rest[j - 1] == pieces[j] && rest[j..] == pieces[j + 1..];
      assert pieces[..j] == [pieces[0]] + rest[..j - 1];
      pre, post := pieces[0] + pre', post';
      assert pieces[0] + (pre' + pieces[j] + post') == pre + pieces[j] + post;
    }
  }

  /** Regrouping a text built as earlier pieces, a piece in three parts, and later pieces. */
  lemma MiddleRegroup(p: string, x: string, c: string, t: string, q: string)
    ensures p + (x + c + t) + q == (p + x) + c + (t + q)
  {
  }

  /** Regrouping a text whose middle piece is itself built around a smaller piece. */
  lemma NestedRegroup(p: string, h: string, a: string, x: string, b: string, t: string, q: string)
    ensures p + (h + (a + x + b) + t) + q == (p + h + a) + x + (b + t + q)
  {
  }

  /** Regrouping a text built as header, earlier pieces, one piece, and later pieces. */
  lemma PrefixRegroup(h: string, p: string, x: string, q: string)
    ensures h + (p + x + q) == (h + p) + x + q
  {
  }

  /** A piece is found in the text it sits in the middle of. */
  lemma OccursBetween(pre: string, piece: string, post: string)
    ensures OccursAt(pre + piece + post, piece, |pre|)
  {
    var s := pre + piece + post;
    assert s[|pre|..|pre| + |piece|] == piece;
  }

  // ---------------------------------------------------------------------------
  // PDF reports
  // ---------------------------------------------------------------------------

  /** The block of the i-th record: its number and page, a rule of 30 '-', the context and a blank line. */
  function PdfBlock(i: nat, r: PdfMatch): string
  {
    PdfBlockHead(i, r) + r.context + "\n\n"
  }

  /** The first two lines of the block of the i-th record: its number and page, and a rule of 30 '-'. */
  function PdfBlockHead(i: nat, r: PdfMatch): string
  {
    "Result #" + NatToString(i) + " - Page " + IntToString(r.page) + ":\n" + Repeat('-', 30) + "\n"
  }

  /** The blocks of the records, numbered from 1. */
  function PdfBlocks(results: seq<PdfMatch>): seq<string>
  {
    seq(|results|, j requires 0 <= j < |results| => PdfBlock(j + 1, results[j]))
  }

  /** display_pdf_results: the header, then the blocks. */
  function PdfReport(query: string, results: seq<PdfMatch>): string
  {
    Header("PDF", query) + Concat(PdfBlocks(results))
  }

  /** Record j of a PDF report is block number j + 1, after the header and the blocks of the records before it. */
  lemma PdfBlockShown(query: string, results: seq<PdfMatch>, j: nat) returns (pre: string, post: string)
    requires j < |results|
    ensures PdfReport(query, results) == pre + PdfBlock(j + 1, results[j]) + post
    ensures pre == Header("PDF", query) + Concat(PdfBlocks(results)[..j])
  {
    var blocks := PdfBlocks(results);
    var pre', post' := PieceAt(blocks, j);
    pre, post := Header("PDF", query) + pre', post';
    PrefixRegroup(Header("PDF", query), pre', blocks[j], post');
  }

  /** The context of every record appears in the PDF report. */
  lemma PdfContextShown(query: string, results: seq<PdfMatch>, j: nat)
    requires j < |results|
    ensures Contains(PdfReport(query, results), results[j].context)
  {
    var r := results[j];
    var pre, post := PdfBlockShown(query, results, j);
    var head, tail := PdfBlockHead(j + 1, r), "\n\n";
    assert PdfBlock(j + 1, r) == head + r.context + tail;
    MiddleRegroup(pre, head, r.context, tail, post);
    OccursBetween(pre + head, r.context, tail + post);
    var report := PdfReport(query, results);
    assert OccursAt(report, r.context, |pre + head|);
  }

  // ---------------------------------------------------------------------------
  // Spreadsheet reports
  // ---------------------------------------------------------------------------

  /** The marker before a matched column: the three characters the file holds where a star was meant, and a space. */
  const Star: string := "\U{00E2}\U{02DC}\U{2026} "

  /** f"{value}" for a cell: pandas prints a missing value as nan. */
  function CellText(cell: Cell): string
  {
    match cell
    case Null => "nan"
    case Num(_, shown) => shown
    case Str(text) => text
  }

  /** sep.join(items). */
  function JoinWith(sep: string, items: seq<string>): string
  {
    if items == [] then ""
    else if |items| == 1 then items[0]
    else items[0] + sep + JoinWith(sep, items[1..])
  }

  /** Every record's row has every column to show. */
  predicate Shows(columns: seq<string>, results: seq<ExcelMatch>)
  {
    forall j :: 0 <= j < |results| ==> HasColumns(results[j].data, columns)
  }

  /**
   * The records of a search over a sheet read_excel gives have every column
   * of the sheet, so the spreadsheet report can show them.
   */
  lemma OutcomeShows(t: Sheet, selected: seq<string>, query: string, numericQuery: Option<real>, caseSensitive: bool)
    ensures var r := ExcelOutcome(Some(t), selected, query, numericQuery, caseSensitive);
      r.Ok? ==> Shows(t.columns, r.value)
  {
    var r := ExcelOutcome(Some(t), selected, query, numericQuery, caseSensitive);
    if selected != [] && r.Ok? {
      SheetResultsSound(t.rows, selected, query, numericQuery, caseSensitive, |t.rows|);
      forall j | 0 <= j < |r.value| ensures HasColumns(r.value[j].data, t.columns) {
        assert r.value[j] in r.value;
      }
    }
  }

  /** The line of one column: marked with the star when it matched, indented by two spaces otherwise. */
  function ColumnLine(column: string, matched: seq<string>, data: Row): string
    requires column in data
  {
    (if column in matched then Star else "  ") + column + ": " + CellText(data[column]) + "\n"
  }

  /** The lines of all columns, in the sheet's column order. */
  function ColumnLines(columns: seq<string>, matched: seq<string>, data: Row): seq<string>
    requires HasColumns(data, columns)
  {
    seq(|columns|, k requires 0 <= k < |columns| => ColumnLine(columns[k], matched, data))
  }

  /** The block of the i-th record: number and row, the matched columns, a rule of 50 '-', every column, a blank line. */
  function ExcelBlock(i: nat, columns: seq<string>, r: ExcelMatch): string
    requires HasColumns(r.data, columns)
  {
    ExcelBlockHead(i, r) + Concat(ColumnLines(columns, r.matchedColumns, r.data)) + "\n"
  }

  /** The first three lines of the block of the i-th record: number and row, the matched columns, a rule of 50 '-'. */
  function ExcelBlockHead(i: nat, r: ExcelMatch): string
  {
    "Result #" + NatToString(i) + " - Row " + IntToString(r.rowIndex) + ":\n"
    + "Matched columns: " + JoinWith(", ", r.matchedColumns) + "\n"
    + Repeat('-', 50) + "\n"
  }

  /** The blocks of the records, numbered from 1. */
  function ExcelBlocks(columns: seq<string>, results: seq<ExcelMatch>): seq<string>
    requires Shows(columns, results)
  {
    seq(|results|, j requires 0 <= j < |results| => ExcelBlock(j + 1, columns, results[j]))
  }

  /** display_excel_results: the header, then the blocks. */
  function ExcelReport(query: string, columns: seq<string>, results: seq<ExcelMatch>): string
    requires Shows(columns, results)
  {
    Header("Excel", query) + Concat(ExcelBlocks(columns, results))
  }

  /** A column's line starts with the star exactly when the column matched; otherwise with two spaces. */
  lemma ColumnLineMarked(column: string, matched: seq<string>, data: Row)
    requires column in data
    ensures var line := ColumnLine(column, matched, data);
      && |line| >= |Star|
      && (line[..|Star|] == Star <==> column in matched)
      && (column !in matched ==> line[..2] == "  ")
  {
    var line := ColumnLine(column, matched, data);
    if column !in matched {
      assert line[0] == ' ' != Star[0];
    }
  }

  /** Record j of a spreadsheet report is block number j + 1, after the header and the blocks of the records before it. */
  lemma ExcelBlockShown(query: string, columns: seq<string>, results: seq<ExcelMatch>, j: nat) returns (pre: string, post: string)
    requires j < |results| && Shows(columns, results)
    ensures HasColumns(results[j].data, columns)
    ensures ExcelReport(query, columns, results) == pre + ExcelBlock(j + 1, columns, results[j]) + post
    ensures pre == Header("Excel", query) + Concat(ExcelBlocks(columns, results)[..j])
  {
    var blocks := ExcelBlocks(columns, results);
    var pre', post' := PieceAt(blocks, j);
    pre, post := Header("Excel", query) + pre', post';
    PrefixRegroup(Header("Excel", query), pre', blocks[j], post');
  }

  /**
   * Every column of the sheet has its line in the block of every record,
   * starred exactly when the record matched in that column.
   */
  lemma ExcelColumnShown(query: string, columns: seq<string>, results: seq<ExcelMatch>, j: nat, k: nat)
    requires j < |results| && k < |columns| && Shows(columns, results)
    ensures var r := results[j];
      && columns[k] in r.data
      && Contains(ExcelReport(query, columns, results), ColumnLine(columns[k], r.matchedColumns, r.data))
      && (ColumnLine(columns[k], r.matchedColumns, r.data)[..|Star|] == Star <==> columns[k] in r.matchedColumns)
  {
    var r := results[j];
    var pre, post := ExcelBlockShown(query, columns, results, j);
    var lines := ColumnLines(columns, r.matchedColumns, r.data);
    var lpre, lpost := PieceAt(lines, k);
    var head, tail := ExcelBlockHead(j + 1, r), "\n";
    var line := ColumnLine(columns[k], r.matchedColumns, r.data);
    assert ExcelBlock(j + 1, columns, r) == head + (lpre + line + lpost) + tail;
    NestedRegroup(pre, head, lpre, line, lpost, tail, post);
    OccursBetween(pre + head + lpre, line, lpost + tail + post);
    var report := ExcelReport(query, columns, results);
    assert OccursAt(report, line, |pre + head + lpre|);
    ColumnLineMarked(columns[k], r.matchedColumns, r.data);
  }

  // ---------------------------------------------------------------------------
  // display_results
  // ---------------------------------------------------------------------------

  /** display_results: "No matches found." for no records, otherwise the report of the loaded file's kind. */
  function Display(query: string, columns: seq<string>, results: Results): string
    requires results.ExcelList? ==> Shows(columns, results.excel)
  {
    if Count(results) == 0 then NoMatches
    else match results
      case PdfList(pdf) => PdfReport(query, pdf)
      case ExcelList(excel) => ExcelReport(query, columns, excel)
  }

  /** The pane reads "No matches found." exactly when there are no records. */
  lemma DisplayEmptyIff(query: string, columns: seq<string>, results: Results)
    requires results.ExcelList? ==> Shows(columns, results.excel)
    ensures Display(query, columns, results) == NoMatches <==> Count(results) == 0
  {
    var text := Display(query, columns, results);
    if Count(results) != 0 {
      assert text[0] != NoMatches[0];
    }
  }
}
