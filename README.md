# File search engine: a Dafny model

This project models the search engine of `FileSearchApp`, a desktop tool that
loads one PDF or Excel file and searches it for a text query.

- **Loading.** A PDF load records the file and one unloaded stub per page
  (pages 1..N). An Excel load keeps the sheet. An unsupported extension, a
  failed load and a canceled load each leave the state as the program does.
- **PDF search.** The search reads the stub pages in order until the cancel
  flag is seen. A page without text, or whose whole text does not contain the
  query, is skipped. Otherwise every matching line gives a context block:
  the line and its neighbours, joined and stripped. A block is kept when it
  is non-empty and new on that page.
- **Excel search.** The search checks each row in the selected columns, by
  text and, when the query parses as a number, by value within 1e-10. A row
  that matches in any selected column gives one record, with its spreadsheet
  row number and the columns it matched in.
- **Results pane.** The report text `display_results` writes is modelled as a
  string.

The application object is a `class` with the program's fields, and its
operations are methods with `modifies` clauses. The loops (the page loop, the
line loop, the row loop and the column loop) are `while` loops. Each is proved
against a specification function: `PdfResults`, `Scan`, `SheetResults` and
`MatchedColumns`. The lemmas then prove what the search promises about those
functions: soundness, completeness, order, no repeated context on a page,
cancellation giving a prefix, and the pre-check never dropping a result.

The file system, the widgets and the user's clicks are parameters:

- the page count and page texts pdfplumber would give;
- the sheet read_excel would give;
- the value `float(query)` would give;
- the page check at which a click on Cancel is processed.

Files: `wrappers.dfy` (Option, Result), `text.dfy` (Python string operations),
`pdf_search.dfy`, `excel_search.dfy`, `render.dfy`, `app.dfy` (the class).

## Model

| member | source | states |
|---|---|---|
| TextOps.Lower | file_search_app.py:410-413 | definition: `str.lower`, each ASCII capital mapped to its small letter, every other character kept |
| TextOps.LowerHasNoUpper | file_search_app.py:410-413 | a lower-cased text holds no ASCII capital letter |
| TextOps.LowerIdempotent | file_search_app.py:410-413 | lower-casing a lower-cased query or line changes nothing |
| TextOps.Matches | file_search_app.py:444-460 | definition: the query occurs in the text, both sides lower-cased unless the search is case-sensitive |
| TextOps.SensitiveMatchIsInsensitive | file_search_app.py:444-460 | for the ASCII case mapping `Lower` models, a text the query matches case-sensitively also matches case-insensitively |
| TextOps.Split | file_search_app.py:452 | definition: `text.split('\n')`, the pieces between line breaks |
| TextOps.Join | file_search_app.py:465 | definition: `'\n'.join(lines)` |
| TextOps.Strip | file_search_app.py:373 | definition: `str.strip()`, leading and trailing `isspace` characters removed |
| TextOps.JoinSplit | file_search_app.py:452 | joining the lines of `text.split('\n')` with `'\n'` gives back the text |
| TextOps.SplitJoin | file_search_app.py:452-465 | splitting a `'\n'`-join of break-free lines gives back those lines |
| TextOps.LineMatchInJoin | file_search_app.py:444-460 | a line that contains the query (under the case rule) makes any `'\n'`-join containing that line contain it too, at a stated index |
| TextOps.StripEmptyIff | file_search_app.py:373-374 | `strip()` gives the empty string exactly when the text is all whitespace |
| TextOps.StripIdempotent | file_search_app.py:373 | stripping a stripped query changes nothing |
| TextOps.StripKeepsMatch | file_search_app.py:465 | an occurrence of a query that neither starts nor ends with whitespace survives `strip()` of the text around it |
| TextOps.Extension | file_search_app.py:252 | the extension `os.path.splitext` reports is a suffix of the path: empty, or a dot followed by no dot and no '/' |
| TextOps.ExtensionOfName | file_search_app.py:252 | for `stem.suffix` (suffix without dot or '/', and the stem's last path component holding a character other than '.', as in `report..pdf`) the extension is `.suffix` |
| TextOps.NatToString | file_search_app.py:583 | the text `f"{i}"` prints for a record number: decimal digits only, `0` for zero and no leading zero otherwise |
| TextOps.NatToStringValue | file_search_app.py:583 | the digits `f"{i}"` prints for a record number denote that number |
| PdfSearch.PageText | file_search_app.py:435-438 | definition: the text of page `page`; None when the page does not exist (IndexError) or extraction gives no text |
| PdfSearch.Context | file_search_app.py:462-465 | definition: lines `max(0,i-1)` to `min(len,i+2)`, joined with `'\n'` and stripped |
| PdfSearch.Step | file_search_app.py:456-471 | definition: a matching line appends its context and 1-based number unless the context is empty or already on the page |
| PdfSearch.Scan | file_search_app.py:455-471 | definition: `matching_lines` after the first n lines, Step applied line by line |
| PdfSearch.PageRecords | file_search_app.py:440-479 | definition: nothing for missing or empty text or a failed pre-check, else one record per entry of the page's `matching_lines` |
| PdfSearch.PdfResults | file_search_app.py:420-479 | definition: the records of the examined stubs' pages, in stub order |
| PdfSearch.PageStubs | file_search_app.py:290-294 | the stubs of an n-page document are pages 1..n in order, none loaded |
| PdfSearch.ContextWindow | file_search_app.py:462-464 | the context block of line i covers lines `max(0,i-1)` to `min(len,i+2)`: line i, its neighbours where they exist, at most three lines |
| PdfSearch.ContextHoldsMatch | file_search_app.py:457-467 | for a stripped non-empty query, the context block of a matching line contains the query and is therefore never empty |
| PdfSearch.ScanSound | file_search_app.py:455-471 | every entry of `matching_lines` names a matching line and carries that line's non-empty context block |
| PdfSearch.ScanOrderedDistinct | file_search_app.py:455-471 | entries of `matching_lines` are in strictly increasing line order with pairwise distinct contexts |
| PdfSearch.ScanExtends | file_search_app.py:455-471 | the entries after the first n lines are the first entries after any later line |
| PdfSearch.LineCovered | file_search_app.py:460-471 | after line i, an entry with line i's block exists, added by line i or an earlier line |
| PdfSearch.ScanComplete | file_search_app.py:455-471 | every matching line with a non-empty block has its block in the page's `matching_lines`, from that line or an earlier one |
| PdfSearch.PreCheckSound | file_search_app.py:443-449 | a page whose whole text does not contain the query has no matching line: the pre-check never drops a result |
| PdfSearch.PageRecordsShortcuts | file_search_app.py:440-449 | the two early exits of the page loop do not change what a page contributes |
| PdfSearch.PdfResultsAppend | file_search_app.py:420-479 | searching two runs of pages one after the other gives the two result lists concatenated |
| PdfSearch.CanceledPrefix | file_search_app.py:420-422 | a search stopped before page k has the results of pages before k, followed in a full search by those of the rest |
| PdfSearch.SkippedPage | file_search_app.py:440-449 | a page without text, or without the query, leaves the results as if it were absent |
| PdfSearch.PdfResultsSound | file_search_app.py:420-479 | every record names an examined page whose text has an entry with the record's context and line |
| PdfSearch.TagOrdered | file_search_app.py:474-479 | a page's records all carry its number and keep its line order and distinct contexts |
| PdfSearch.LoadedResultsOrdered | file_search_app.py:403-489 | after loading n pages, records name pages 1..n, ordered by page, then by line, with no repeated context on a page |
| PdfSearch.ScanPage | file_search_app.py:454-471 | the line loop builds exactly the specified `matching_lines` of the page |
| PdfSearch.SearchPage | file_search_app.py:433-479 | one page iteration appends exactly the page's records: none for missing or empty text or no pre-check match, else one per entry |
| ExcelSearch.CellMatches | file_search_app.py:520-541 | definition: a missing cell never matches; a number matches by its printed text or within 1e-10 of the parsed query; other cells by text |
| ExcelSearch.MatchedColumns | file_search_app.py:518-542 | definition: the column loop after n selected columns, or the KeyError of the first missing one |
| ExcelSearch.SheetResults | file_search_app.py:514-550 | definition: the row loop after n rows: one record per matching row, numbered `idx + 2`, or the first error |
| ExcelSearch.ExcelOutcome | file_search_app.py:496-552 | definition: `[]` for an empty selection, otherwise the row loop over the whole sheet |
| ExcelSearch.WellFormed | file_search_app.py:305 | definition: every row of a sheet read_excel gives has exactly the sheet's columns |
| ExcelSearch.SameNumberMatches | file_search_app.py:535-537 | a number cell matches a query that parses to the same value, whatever its printed text |
| ExcelSearch.MatchingMembers | file_search_app.py:518-542 | a column is in `matched_columns` exactly when it is selected and its cell matches |
| ExcelSearch.MatchedColumnsSpec | file_search_app.py:518-542 | the column loop fails exactly when the row lacks a selected column, naming that column; otherwise it gives the selected matching columns in selection order |
| ExcelSearch.MatchRow | file_search_app.py:518-542 | the column loop computes the specified matched columns, fails iff a selected column is missing, and otherwise equals the filter |
| ExcelSearch.SheetResultsOk | file_search_app.py:514-550 | the row loop succeeds exactly when every row has every selected column |
| ExcelSearch.SheetResultsSound | file_search_app.py:514-552 | every record reports row `idx + 2` with its data and exactly the selected columns it matches in (non-empty), in strictly increasing row order |
| ExcelSearch.SheetResultsComplete | file_search_app.py:514-552 | every row that matches in some selected column has a record with row number `idx + 2` |
| ExcelSearch.SheetResultsPrefix | file_search_app.py:514-550 | the records after the first n rows are the first records of any longer run |
| ExcelSearch.SheetErrorStays | file_search_app.py:518-519 | once a row raises, the search's outcome is that error |
| ExcelSearch.MissingStays | file_search_app.py:518-519 | once a selected column is missing, the column loop's outcome is that error |
| Render.PdfReport | file_search_app.py:578-587 | definition: header with the query and a rule of 50 '=', then per record its number, page, a rule of 30 '-', the context and a blank line |
| Render.ExcelReport | file_search_app.py:589-611 | definition: header, then per record its number and row, the matched columns, a rule of 50 '-', every column's line and a blank line |
| Render.Display | file_search_app.py:554-576 | definition: "No matches found." for no records, else the report of the loaded file's kind |
| Render.OutcomeShows | file_search_app.py:543-550 | the records of a search over a sheet read_excel gives have every column of the sheet, so the report can show each of them |
| Render.Repeat | file_search_app.py:580-581 | `c * n` has length n and only the character c |
| Render.PdfBlockShown | file_search_app.py:578-587 | record j appears as block number j + 1, after the header and the earlier blocks |
| Render.PdfContextShown | file_search_app.py:578-587 | the context of every record appears in the PDF report |
| Render.ColumnLineMarked | file_search_app.py:603-609 | a column line starts with the star marker exactly when the column matched, and with two spaces otherwise |
| Render.ExcelBlockShown | file_search_app.py:589-611 | record j appears as block number j + 1 and its row has every column shown |
| Render.ExcelColumnShown | file_search_app.py:589-611 | every column of every record's row has its line in the report, starred exactly when it matched |
| Render.DisplayEmptyIff | file_search_app.py:554-576 | the pane reads "No matches found." exactly when there are no results |
| FileSearch.KindOf | file_search_app.py:252-260 | definition: `.pdf` to the PDF loader, `.xlsx`/`.xls` to the Excel loader, after lower-casing the extension; anything else unsupported |
| FileSearch.KindOfName | file_search_app.py:252-260 | `name.suffix` goes to the PDF loader for `pdf`, the Excel loader for `xlsx`/`xls`, in any letter case, and is unsupported otherwise |
| FileSearch.PagesExamined | file_search_app.py:420-422 | a search never examines more pages than there are stubs |
| FileSearch.LastPageClick | file_search_app.py:420-431 | a click processed by the update in the last page's iteration leaves every page searched and the flag raised |
| FileSearch.ExaminedStep | file_search_app.py:420-422 | at the check of page i the loop stops exactly when the flag was already up or a click has been processed, at the page count `PagesExamined` gives |
| FileSearch.FileSearchApp.constructor | file_search_app.py:33-39 | the application starts with no file, no stubs and the cancel flag down |
| FileSearch.FileSearchApp.CancelOperation | file_search_app.py:225-227 | cancel raises the flag and changes nothing else |
| FileSearch.FileSearchApp.ClearFile | file_search_app.py:319-325 | clearing resets path, type, sheet, stubs and PDF path; the flag is untouched |
| FileSearch.FileSearchApp.LoadPdfFile | file_search_app.py:278-300 | type and path are recorded first; the stubs are pages 1..N on success and empty when the file cannot be opened |
| FileSearch.FileSearchApp.LoadExcelFile | file_search_app.py:302-305 | the type is recorded; the sheet is replaced on success and kept when reading raises |
| FileSearch.FileSearchApp.LoadFile | file_search_app.py:231-276 | empty path: nothing changes; unsupported extension: only the flag changes; failed, canceled and successful loads leave exactly the stated state |
| FileSearch.FileSearchApp.SearchPdfUltraFast | file_search_app.py:403-489 | an unopenable document fails; otherwise the results are those of the pages examined before the cancel flag is seen, and the flag ends up exactly when it was up or a click was processed, including one processed after the last page's check |
| FileSearch.FileSearchApp.SearchExcel | file_search_app.py:496-552 | the result is the specified outcome: nothing for an empty selection, an error for a missing column, else sound records over a sheet where every row has the selected columns |
| FileSearch.FileSearchApp.PerformSearch | file_search_app.py:367-401 | no file, or a blank query: that outcome and no change; otherwise, by the loaded kind: no search for an unknown kind; for a PDF a failure when it cannot be opened, else canceled exactly when the flag ends up, else the whole document's results; for a sheet the search's error, else canceled when a click came, else its records, which have every column the report shows |
| FileSearch.FoundPdfOrdered | file_search_app.py:420-479 | a search that is not canceled reports pages 1..N of the loaded document, ordered by page and line, each record from its page |
| FileSearch.CanceledSearchIsPrefix | file_search_app.py:420-422 | the results of a canceled search are the first results of the search that runs to the end |

## Left out

- The Tk window, widgets, message boxes, status bar and progress bar: the model
  returns outcome values (`LoadOutcome`, `SearchOutcome`) where the program shows
  a message.
- FileSearch.FileSearchApp.SearchPdfUltraFast: of the events `root.update()`
  handles, only a click on Cancel is modelled. Tk processes it only inside
  `root.update()`: before the first page, and inside the iteration of every
  page whose index is a multiple of ten, after that page's flag check. The
  model lets the click be processed in any page's iteration, so for a Cancel
  click alone it allows more schedules than the program does.
- Events other than Cancel that an update inside a search can handle are not
  modelled: Enter or the Search button, which stay enabled and start a nested
  `perform_search` that lowers the flag again, and Clear or Load, which change
  the loaded file while a search runs. The model's flag, once raised, stays up,
  and the file state is fixed for the length of a search.
- The warning that the page loop prints for a page that raises is not
  modelled; the page is skipped, as in the program.
- pdfplumber and pandas are not modelled. Their outputs are inputs to the
  model: page count, page texts (None when extraction raises or gives None),
  the sheet, and the text `str()` gives for a number cell.
- `float(query)` is an input (`numericQuery`). Floating-point rounding is not
  modelled: values and the 1e-10 tolerance are exact reals.
- `str.lower` and `str.isspace` cover ASCII letters and Python's whitespace
  set respectively; non-ASCII case mapping is not modelled.
- TextOps.SensitiveMatchIsInsensitive: holds for the ASCII mapping only. Python
  lower-cases a capital sigma at the end of a word to the final form, so the
  query "Σ" matches the line "ΟΔΟΣ" case-sensitively but not case-insensitively.
- TextOps.LowerHasNoUpper: speaks of ASCII capitals only; Python's `str.lower`
  leaves some capital letters unchanged, such as 'ℂ'.
- Paths are POSIX paths; Windows separators in `os.path.splitext` are not modelled.
- `get_selected_columns`, `toggle_column_selection` and the column widgets
  are not modelled: the selection is a parameter of the search.
- `export_results`, `clear_results`, `setup_*`, `run` and `main` are
  user-interface code with no search logic.
- `search_pdf` only forwards to `search_pdf_ultra_fast` and is not a separate member.
- `test_dependencies.py` and `quick_test.py` are not part of this model.
- ExcelSearch.CellMatches: the numeric comparison applies to number cells
  only. A Python `bool` is an `int` too, but it is a number cell here only
  when the sheet says so.
- FileSearch.FileSearchApp.LoadExcelFile: the sheet is an input of type
  `Sheet`, a table whose rows all have exactly its columns, as read_excel
  builds them; that shape is assumed, not derived from a file.
- ExcelSearch.SheetResults: the row index `idx` is taken as the row's
  position, i.e. read_excel's default RangeIndex.
- Render.CellText: a missing cell prints as `nan`; a `None` object cell,
  which pandas would print as `None`, is not distinguished.
- FileSearch.FileSearchApp.PerformSearch: for a spreadsheet, the model treats
  any click on Cancel as processed at the update before the search, the only
  update that runs before `hide_progress` disables and hides the button. A
  click after that update does nothing in the program; the model has no
  separate value for it.
