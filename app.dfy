/**
 * The search application's state and operations: which file is loaded and
 * how, loading and clearing it, the cancel flag, and the two searches that
 * perform_search dispatches to. The widgets, dialogs and the status bar are
 * not modelled; the file system and the user's clicks are parameters.
 */
module FileSearch {
  import opened Wrappers
  import opened TextOps
  import opened PdfSearch
  import opened ExcelSearch
  import opened Render

  /** The two values loaded_file_type takes besides None: 'pdf' and 'excel'. */
  datatype FileKind = PdfFile | ExcelFile

  /** How load_file ends. */
  datatype LoadOutcome =
    | NoFileChosen   // the dialog gave an empty path
    | Unsupported    // the extension is neither .pdf nor .xlsx/.xls
    | LoadFailed     // the loader raised ("Failed to load file")
    | LoadCanceled   // the cancel flag was set: the file is cleared
    | Loaded

  /** Why a search raises ("Search failed"). */
  datatype SearchError = PdfUnreadable | SheetFailed(error: ExcelError)

  /** How perform_search ends. */
  datatype SearchOutcome =
    | NoFileLoaded   // "Please load a file first."
    | EmptyQuery     // "Please enter a search query."
    | NotSearched    // loaded_file_type is neither 'pdf' nor 'excel'
    | SearchFailed(error: SearchError)
    | SearchCanceled
    | Found(query: string, results: Results)

  /** The loader os.path.splitext(path)[1].lower() selects: .pdf, .xlsx or .xls, or none. */
  function KindOf(path: string): Option<FileKind>
  {
    var ext := Lower(Extension(path));
    if ext == ".pdf" then Some(PdfFile)
    else if ext == ".xlsx" || ext == ".xls" then Some(ExcelFile)
    else None
  }

  /** A name `stem.suffix` goes to the loader its suffix names, in any letter case. */
  lemma KindOfName(stem: string, suffix: string)
    requires NamedStem(stem)
    requires '.' !in suffix && '/' !in suffix
    ensures KindOf(stem + "." + suffix)
         == if Lower(suffix) == "pdf" then Some(PdfFile)
            else if Lower(suffix) == "xlsx" || Lower(suffix) == "xls" then Some(ExcelFile)
            else None
  {
    ExtensionOfName(stem, suffix);
    var low := Lower(suffix);
    LowerDotted(suffix);
    DotPrefix(low, "pdf");
    DotPrefix(low, "xlsx");
    DotPrefix(low, "xls");
    assert ".pdf" == "." + "pdf";
    assert ".xlsx" == "." + "xlsx";
    assert ".xls" == "." + "xls";
  }

  /** Lower-casing keeps the leading dot of an extension. */
  lemma LowerDotted(suffix: string)
    ensures Lower("." + suffix) == "." + Lower(suffix)
  {
    var ext := "." + suffix;
    assert forall i :: 1 <= i < |ext| ==> ext[i] == suffix[i - 1];
  }

  /** Two dotted texts are equal exactly when what follows the dots is. */
  lemma DotPrefix(a: string, b: string)
    ensures "." + a == "." + b <==> a == b
  {
    if "." + a == "." + b {
      assert ("." + a)[1..] == a && ("." + b)[1..] == b;
    }
  }

  /** The number of pages a search reads before it sees the cancel flag: none when it is already set, up to the click otherwise. */
  function PagesExamined(canceled: bool, cancelClick: Option<nat>, n: nat): (k: nat)
    ensures k <= n
  {
    if canceled then 0
    else if cancelClick.Some? && cancelClick.value < n then cancelClick.value
    else n
  }

  /**
   * Whether a cancel click has been processed by the check of page i. A click
   * at 0 is processed by the update before the first page; a click at k > 0 by
   * the update inside the iteration of page k, after that page's own check,
   * so page k is still searched. The update of the last page (k = n) raises
   * the flag after the last check.
   */
  predicate ClickedBy(cancelClick: Option<nat>, i: nat)
  {
    cancelClick.Some? && (cancelClick.value == 0 || cancelClick.value < i)
  }

  /**
   * A click processed by the update inside the last page's iteration comes
   * after the last check: every page is searched, and the flag still ends up raised.
   */
  lemma LastPageClick(n: nat)
    requires n > 0
    ensures PagesExamined(false, Some(n), n) == n && ClickedBy(Some(n), n + 1) && !ClickedBy(Some(n), n)
  {
  }

  /** Once a click has been processed it stays processed. */
  lemma ClickedLater(cancelClick: Option<nat>, i: nat, j: nat)
    requires i <= j
    ensures ClickedBy(cancelClick, i) ==> ClickedBy(cancelClick, j)
  {
  }

  /** By the check of page i + 1 the clicks processed are those by page i's check and the one inside page i's iteration. */
  lemma ClickedNext(cancelClick: Option<nat>, i: nat)
    ensures ClickedBy(cancelClick, i + 1) == (ClickedBy(cancelClick, i) || (cancelClick == Some(i) && i > 0))
  {
  }

  /**
   * At the check of page i, the search stops exactly at the page count
   * PagesExamined gives: it stops here when the flag was already up or a
   * click has landed by now, and goes on otherwise.
   */
  lemma ExaminedStep(canceled: bool, cancelClick: Option<nat>, n: nat, i: nat)
    requires i < n && i <= PagesExamined(canceled, cancelClick, n)
    ensures ClickedBy(cancelClick, i + 1) == (ClickedBy(cancelClick, i) || (cancelClick == Some(i) && i > 0))
    ensures canceled || ClickedBy(cancelClick, i + 1) ==> PagesExamined(canceled, cancelClick, n) == i
    ensures !(canceled || ClickedBy(cancelClick, i + 1)) ==> i + 1 <= PagesExamined(canceled, cancelClick, n)
  {
  }

  /**
   * The search engine's part of FileSearchApp. The state is that of the
   * source; `cancelClick` parameters say when the user's click on Cancel is
   * processed (at which page check), and the other parameters stand for the
   * file system: the page count and page texts pdfplumber gives, and the
   * sheet read_excel gives.
   */
  class FileSearchApp {
    var loadedFilePath: Option<string>
    var loadedFileType: Option<FileKind>
    var excelData: Option<Sheet>
    var pdfTextData: seq<PageStub>
    var pdfFilePath: Option<string>
    var cancelLoading: bool

    /** The page stubs are always pages 1..N in order, none of them loaded. */
    predicate Valid()
      reads this
    {
      pdfTextData == PageStubs(|pdfTextData|)
    }

    /** No file: every part of the load state is reset. */
    predicate Cleared()
      reads this
    {
      && loadedFilePath.None?
      && loadedFileType.None?
      && excelData.None?
      && pdfTextData == []
      && pdfFilePath.None?
    }

    /** The application starts with no file and the cancel flag down. */
    constructor()
      ensures Cleared() && !cancelLoading && Valid()
    {
      loadedFilePath := None;
      loadedFileType := None;
      excelData := None;
      pdfTextData := [];
      pdfFilePath := None;
      cancelLoading := false;
    }

    /** cancel_operation: raise the cancel flag. */
    method CancelOperation()
      modifies this`cancelLoading
      ensures cancelLoading
    {
      cancelLoading := true;
    }

    /** clear_file: reset the load state; the cancel flag stays as it is. */
    method ClearFile()
      modifies this`loadedFilePath, this`loadedFileType, this`excelData, this`pdfTextData, this`pdfFilePath
      ensures Cleared() && Valid()
    {
      loadedFilePath := None;
      loadedFileType := None;
      excelData := None;
      pdfTextData := [];
      pdfFilePath := None;
    }

    /**
     * load_pdf_file: record the file and build one stub per page. When the
     * file cannot be opened (pageCount is None) it raises, with the type
     * and path already recorded and no stubs.
     */
    method LoadPdfFile(filePath: string, pageCount: Option<nat>) returns (ok: bool)
      modifies this`loadedFileType, this`pdfTextData, this`pdfFilePath
      ensures ok <==> pageCount.Some?
      ensures loadedFileType == Some(PdfFile) && pdfFilePath == Some(filePath)
      ensures pdfTextData == if ok then PageStubs(pageCount.value) else []
      ensures Valid()
    {
      loadedFileType := Some(PdfFile);
      pdfTextData := [];
      pdfFilePath := Some(filePath);
      if pageCount.None? {
        return false;
      }
      var total := pageCount.value;
      var pageNum := 1;
      while pageNum <= total
        invariant 1 <= pageNum <= total + 1
        invariant pdfTextData == PageStubs(pageNum - 1)
        invariant loadedFileType == Some(PdfFile) && pdfFilePath == Some(filePath)
      {
        pdfTextData := pdfTextData + [PageStub(pageNum, false)];
        pageNum := pageNum + 1;
      }
      return true;
    }

    /**
     * load_excel_file: record the type, then read the sheet. When reading
     * raises (sheet is None) the previous sheet stays.
     */
    method LoadExcelFile(filePath: string, sheet: Option<Sheet>) returns (ok: bool)
      modifies this`loadedFileType, this`excelData
      ensures ok <==> sheet.Some?
      ensures loadedFileType == Some(ExcelFile)
      ensures excelData == if ok then sheet else old(excelData)
    {
      loadedFileType := Some(ExcelFile);
      if sheet.None? {
        return false;
      }
      excelData := sheet;
      return true;
    }

    /**
     * load_file: an empty path does nothing; otherwise the cancel flag is
     * reset, a click on Cancel may be processed (cancelClick), and the file
     * goes to the loader its extension names. A load that succeeds is kept
     * unless the flag is up, in which case everything is cleared.
     */
    method LoadFile(filePath: string, pageCount: Option<nat>, sheet: Option<Sheet>, cancelClick: bool)
      returns (outcome: LoadOutcome)
      requires Valid()
      modifies this
      ensures Valid()
      ensures outcome == NoFileChosen <==> filePath == ""
      ensures filePath == "" ==> unchanged(this)
      ensures filePath != "" ==> cancelLoading == cancelClick
      ensures filePath != "" && KindOf(filePath).None? ==>
        && outcome == Unsupported
        && unchanged(this`loadedFilePath, this`loadedFileType, this`excelData, this`pdfTextData, this`pdfFilePath)
      ensures outcome == LoadCanceled ==> Cleared()
      ensures outcome == Loaded ==> !cancelClick && loadedFilePath == Some(filePath) && loadedFileType == KindOf(filePath)
      ensures filePath != "" && KindOf(filePath) == Some(PdfFile) ==>
        && outcome == (if pageCount.None? then LoadFailed else if cancelClick then LoadCanceled else Loaded)
        && (outcome != LoadCanceled ==> excelData == old(excelData))
        && (outcome == LoadFailed ==>
              && loadedFilePath == old(loadedFilePath) && loadedFileType == Some(PdfFile)
              && pdfFilePath == Some(filePath) && pdfTextData == [])
        && (outcome == Loaded ==> pdfFilePath == Some(filePath) && pdfTextData == PageStubs(pageCount.value))
      ensures filePath != "" && KindOf(filePath) == Some(ExcelFile) ==>
        && outcome == (if sheet.None? then LoadFailed else if cancelClick then LoadCanceled else Loaded)
        && (outcome != LoadCanceled ==> pdfTextData == old(pdfTextData) && pdfFilePath == old(pdfFilePath))
        && (outcome == LoadFailed ==>
              && loadedFilePath == old(loadedFilePath) && loadedFileType == Some(ExcelFile)
              && excelData == old(excelData))
        && (outcome == Loaded ==> excelData == sheet)
    {
      if filePath == "" {
        return NoFileChosen;
      }
      // show_progress lowers the flag; root.update() may then process a click on Cancel.
      cancelLoading := false;
      if cancelClick {
        CancelOperation();
      }
      var kind := KindOf(filePath);
      var ok: bool;
      if kind == Some(PdfFile) {
        ok := LoadPdfFile(filePath, pageCount);
      } else if kind == Some(ExcelFile) {
        ok := LoadExcelFile(filePath, sheet);
      } else {
        return Unsupported;
      }
      if !ok {
        return LoadFailed;
      }
      if !cancelLoading {
        loadedFilePath := Some(filePath);
        outcome := Loaded;
      } else {
        ClearFile();
        outcome := LoadCanceled;
      }
    }

    /**
     * search_pdf_ultra_fast: open the document, then read the pages of the
     * stubs in order until the cancel flag is seen. A page whose text is
     * missing or empty, or does not contain the query, adds nothing;
     * otherwise its line scan adds its records. The stubs are never changed.
     */
    method SearchPdfUltraFast(query: string, caseSensitive: bool, doc: Option<PdfDocument>, cancelClick: Option<nat>)
      returns (r: Result<seq<PdfMatch>, SearchError>)
      modifies this`cancelLoading
      ensures doc.None? ==> r == Err(PdfUnreadable)
      ensures doc.Some? ==> r == Ok(PdfResults(pdfTextData[..PagesExamined(old(cancelLoading), cancelClick, |pdfTextData|)],
                                               doc.value, query, caseSensitive))
      ensures cancelLoading == (old(cancelLoading) || ClickedBy(cancelClick, if doc.Some? then |pdfTextData| + 1 else 0))
    {
      var stubs := pdfTextData;
      var n := |stubs|;
      ghost var canceled := cancelLoading;
      ghost var k := PagesExamined(canceled, cancelClick, n);
      // root.update() before the document is opened may process a click on Cancel.
      if cancelClick == Some(0) {
        CancelOperation();
      }
      if doc.None? {
        return Err(PdfUnreadable);
      }
      var pdf := doc.value;
      var results: seq<PdfMatch> := [];
      var i := 0;
      while i < n
        invariant i <= k
        invariant cancelLoading == (canceled || ClickedBy(cancelClick, i))
        invariant results == PdfResults(stubs[..i], pdf, query, caseSensitive)
      {
        ExaminedStep(canceled, cancelClick, n, i);
        if cancelClick == Some(i) && i > 0 {
          CancelOperation();
        }
        if cancelLoading {
          ClickedLater(cancelClick, i + 1, n + 1);
          assert i == k && cancelLoading == (canceled || ClickedBy(cancelClick, n + 1));
          break;
        }
        var page := stubs[i].page;
        var records := SearchPage(page, PageText(pdf, page), query, caseSensitive);
        PdfResultsStep(stubs, i, pdf, query, caseSensitive);
        results := results + records;
        i := i + 1;
      }
      // The update inside the last page's iteration may process a click after the last check.
      ClickedNext(cancelClick, n);
      if cancelClick == Some(n) && n > 0 {
        CancelOperation();
      }
      return Ok(results);
    }

    /**
     * search_excel: nothing for an empty selection; otherwise each row of
     * the sheet, in file order, is checked in the selected columns, and a row
     * that matches in any of them gives one record. A selected column that a
     * row lacks raises.
     */
    method SearchExcel(query: string, caseSensitive: bool, selected: seq<string>, numericQuery: Option<real>)
      returns (r: Result<seq<ExcelMatch>, ExcelError>)
      ensures r == ExcelOutcome(excelData, selected, query, numericQuery, caseSensitive)
      ensures selected == [] ==> r == Ok([])
      ensures r.Ok? && selected != [] ==>
        && excelData.Some?
        && AllHaveColumns(excelData.value.rows, selected)
        && forall m :: m in r.value ==> RecordOf(excelData.value.rows, selected, query, numericQuery, caseSensitive, m)
    {
      if selected == [] {
        return Ok([]);
      }
      if excelData.None? {
        return Err(NoSheet);
      }
      var rows := excelData.value.rows;
      var results: seq<ExcelMatch> := [];
      var idx := 0;
      while idx < |rows|
        invariant idx <= |rows|
        invariant SheetResults(rows, selected, query, numericQuery, caseSensitive, idx) == Ok(results)
      {
        var matched := MatchRow(rows[idx], selected, query, numericQuery, caseSensitive);
        if matched.Err? {
          SheetErrorStays(rows, selected, query, numericQuery, caseSensitive, idx + 1, |rows|);
          return Err(matched.error);
        }
        if matched.value != [] {
          results := results + [ExcelMatch(idx + 2, matched.value, rows[idx])];
        }
        idx := idx + 1;
      }
      r := Ok(results);
      SheetResultsOk(rows, selected, query, numericQuery, caseSensitive, |rows|);
      SheetResultsSound(rows, selected, query, numericQuery, caseSensitive, |rows|);
      assert rows[..|rows|] == rows;
    }

    /** perform_search gets past its two early returns: a file is loaded and the stripped query is not empty. */
    predicate Searching(rawQuery: string)
      reads this
    {
      loadedFilePath.Some? && loadedFilePath != Some("") && Strip(rawQuery) != ""
    }

    /**
     * perform_search: without a loaded file, or with a query that is empty
     * once stripped, nothing is searched. Otherwise the cancel flag is
     * lowered, a click on Cancel may be processed, and the stripped query
     * goes to the search of the loaded file's kind; its results are shown
     * only when the search does not raise and the flag is still down afterwards.
     */
    method PerformSearch(rawQuery: string, caseSensitive: bool, selected: seq<string>, numericQuery: Option<real>,
                         doc: Option<PdfDocument>, cancelClick: Option<nat>) returns (outcome: SearchOutcome)
      requires Valid()
      modifies this`cancelLoading
      ensures outcome == NoFileLoaded <==> loadedFilePath.None? || loadedFilePath == Some("")
      ensures outcome == EmptyQuery <==> loadedFilePath.Some? && loadedFilePath != Some("") && Strip(rawQuery) == ""
      ensures !Searching(rawQuery) ==> unchanged(this)
      ensures Searching(rawQuery) && loadedFileType.None? ==> outcome == NotSearched && cancelLoading == cancelClick.Some?
      ensures Searching(rawQuery) && loadedFileType == Some(PdfFile) ==>
        && cancelLoading == ClickedBy(cancelClick, if doc.Some? then |pdfTextData| + 1 else 0)
        && outcome == if doc.None? then SearchFailed(PdfUnreadable)
                      else if cancelLoading then SearchCanceled
                      else Found(Strip(rawQuery), PdfList(PdfResults(pdfTextData, doc.value, Strip(rawQuery), caseSensitive)))
      ensures Searching(rawQuery) && loadedFileType == Some(ExcelFile) ==>
        var r := ExcelOutcome(excelData, selected, Strip(rawQuery), numericQuery, caseSensitive);
        && cancelLoading == cancelClick.Some?
        && outcome == if r.Err? then SearchFailed(SheetFailed(r.error))
                      else if cancelLoading then SearchCanceled
                      else Found(Strip(rawQuery), ExcelList(r.value))
      ensures outcome == SearchCanceled ==> cancelLoading
      ensures outcome.Found? ==> !cancelLoading && outcome.query == Strip(rawQuery) != ""
      ensures outcome.Found? && outcome.results.ExcelList? && excelData.Some? ==>
        Shows(excelData.value.columns, outcome.results.excel)
    {
      if loadedFilePath.None? || loadedFilePath == Some("") {
        return NoFileLoaded;
      }
      var query := Strip(rawQuery);
      if query == "" {
        return EmptyQuery;
      }
      // show_progress and the reset lower the flag; root.update() may then process a click on Cancel.
      cancelLoading := false;
      if loadedFileType == Some(PdfFile) {
        var r := SearchPdfUltraFast(query, caseSensitive, doc, cancelClick);
        if r.Err? {
          return SearchFailed(r.error);
        }
        if cancelLoading {
          return SearchCanceled;
        }
        assert pdfTextData[..|pdfTextData|] == pdfTextData;
        return Found(query, PdfList(r.value));
      } else if loadedFileType == Some(ExcelFile) {
        // The spreadsheet search never looks at the flag: a click processed before it only discards its results.
        if cancelClick.Some? {
          CancelOperation();
        }
        var r := SearchExcel(query, caseSensitive, selected, numericQuery);
        if r.Err? {
          return SearchFailed(SheetFailed(r.error));
        }
        if cancelLoading {
          return SearchCanceled;
        }
        if excelData.Some? {
          OutcomeShows(excelData.value, selected, query, numericQuery, caseSensitive);
        }
        return Found(query, ExcelList(r.value));
      } else {
        if cancelClick.Some? {
          CancelOperation();
        }
        return NotSearched;
      }
    }
  }

  /**
   * A search that is not canceled reads every page: its results are those
   * of the whole document, ordered by page and line, on pages 1..N of the
   * loaded document.
   */
  lemma FoundPdfOrdered(n: nat, doc: PdfDocument, query: string, caseSensitive: bool)
    ensures var results := PdfResults(PageStubs(n), doc, query, caseSensitive);
      && OrderedByPageAndLine(results)
      && forall r :: r in results ==> 1 <= r.page <= n && FromPage(PageStubs(n), doc, query, caseSensitive, r)
  {
    LoadedResultsOrdered(n, doc, query, caseSensitive);
    PdfResultsSound(PageStubs(n), doc, query, caseSensitive);
  }

  /** The results of a canceled search are the first results of the search that runs to the end. */
  lemma CanceledSearchIsPrefix(stubs: seq<PageStub>, canceled: bool, cancelClick: Option<nat>, doc: PdfDocument,
                               query: string, caseSensitive: bool)
    ensures PdfResults(stubs[..PagesExamined(canceled, cancelClick, |stubs|)], doc, query, caseSensitive)
         <= PdfResults(stubs, doc, query, caseSensitive)
  {
    CanceledPrefix(stubs, PagesExamined(canceled, cancelClick, |stubs|), doc, query, caseSensitive);
  }
}
