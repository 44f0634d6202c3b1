/**
 * The PDF side of the search engine: the page stubs a load creates, the
 * context block built around a matching line, the per-page scan with its
 * de-duplication of contexts, and the result list over the whole document,
 * with the properties the search promises about them.
 */
module PdfSearch {
  import opened Wrappers
  import opened TextOps

  /** One entry of pdf_text_data: a 1-based page number and a `loaded` flag. */
  datatype PageStub = PageStub(page: int, loaded: bool)

  /** One entry of a page's matching_lines: a context block and the 1-based number of its line. */
  datatype LineMatch = LineMatch(context: string, lineNumber: int)

  /** One result of a PDF search: {page, context, line_number}. */
  datatype PdfMatch = PdfMatch(page: int, context: string, lineNumber: int)

  /**
   * The document as a search re-opens it: for each page, the text that
   * extract_text gives, or None when it gives none or raises.
   */
  datatype PdfDocument = PdfDocument(pages: seq<Option<string>>)

  // ---------------------------------------------------------------------------
  // Loading
  // ---------------------------------------------------------------------------

  /** The stubs load_pdf_file builds for a document of n pages. */
  function PageStubs(n: nat): (stubs: seq<PageStub>)
    ensures |stubs| == n
    ensures forall i :: 0 <= i < n ==> stubs[i] == PageStub(i + 1, false)
  {
    if n == 0 then [] else PageStubs(n - 1) + [PageStub(n, false)]
  }

  /**
   * What extracting page `page` gives: pdf.pages[page - 1].extract_text().
   * An index past the last page raises IndexError, which the search treats
   * like a page without text. Stub pages start at 1, so page - 1 is never negative.
   */
  function PageText(doc: PdfDocument, page: int): Option<string>
  {
    if 1 <= page <= |doc.pages| then doc.pages[page - 1] else None
  }

  // ---------------------------------------------------------------------------
  // Context blocks
  // ---------------------------------------------------------------------------

  /** max(0, i - 1): the first line of the context block of line i. */
  function WindowStart(i: nat): nat
  {
    if 0 >= i - 1 then 0 else i - 1
  }

  /** min(len(lines), i + 2): one past the last line of the context block of line i. */
  function WindowEnd(count: nat, i: nat): nat
  {
    if count <= i + 2 then count else i + 2
  }

  /** The context block of line i: the line and its neighbours, joined with '\n' and stripped. */
  function Context(lines: seq<string>, i: nat): string
    requires i < |lines|
  {
    Strip(Join(lines[WindowStart(i)..WindowEnd(|lines|, i)]))
  }

  /** The block of line i holds line i, the line before it and the line after it, where they exist: at most three lines. */
  lemma ContextWindow(lines: seq<string>, i: nat)
    requires i < |lines|
    ensures WindowStart(i) <= i < WindowEnd(|lines|, i) <= |lines|
    ensures WindowEnd(|lines|, i) - WindowStart(i) <= 3
    ensures WindowStart(i) == 0 || WindowStart(i) == i - 1
    ensures WindowEnd(|lines|, i) == |lines| || WindowEnd(|lines|, i) == i + 2
  {
  }

  /** A matching line makes the joined lines of any window around it match, at the returned index. */
  lemma WindowMatch(lines: seq<string>, lo: nat, hi: nat, i: nat, query: string, caseSensitive: bool) returns (at: nat)
    requires lo <= i < hi <= |lines| && Matches(query, lines[i], caseSensitive)
    ensures OccursAt(Fold(Join(lines[lo..hi]), caseSensitive), Fold(query, caseSensitive), at)
  {
    var w := lines[lo..hi];
    assert w[i - lo] == lines[i];
    at := LineMatchInJoin(w, i - lo, query, caseSensitive);
  }

  /**
   * For a query as the search uses it (stripped, not empty), the context
   * block of a matching line contains the query, so it is never empty.
   */
  lemma ContextHoldsMatch(lines: seq<string>, i: nat, query: string, caseSensitive: bool)
    requires i < |lines| && query != "" && Strip(query) == query
    requires Matches(query, lines[i], caseSensitive)
    ensures Matches(query, Context(lines, i), caseSensitive)
    ensures Context(lines, i) != ""
  {
    var lo, hi := WindowStart(i), WindowEnd(|lines|, i);
    ContextWindow(lines, i);
    var at := WindowMatch(lines, lo, hi, i, query, caseSensitive);
    StrippedEnds(query);
    StripKeepsMatch(Join(lines[lo..hi]), query, caseSensitive, at);
    MatchNeedsText(query, Context(lines, i), caseSensitive);
  }

  // ---------------------------------------------------------------------------
  // One page
  // ---------------------------------------------------------------------------

  /** [r['context'] for r in matching_lines]. */
  function Contexts(found: seq<LineMatch>): seq<string>
  {
    seq(|found|, j requires 0 <= j < |found| => found[j].context)
  }

  /**
   * What line i does to the entries found so far: a matching line adds its
   * context block and line number, unless the block is empty or an earlier
   * line of the page already added the same block.
   */
  function Step(lines: seq<string>, query: string, caseSensitive: bool, i: nat, found: seq<LineMatch>): seq<LineMatch>
    requires i < |lines|
  {
    if !Matches(query, lines[i], caseSensitive) then found
    else
      var context := Context(lines, i);
      if context != "" && context !in Contexts(found) then found + [LineMatch(context, i + 1)] else found
  }

  /** The matching_lines the page loop has built after lines[..n]. */
  function Scan(lines: seq<string>, query: string, caseSensitive: bool, n: nat): seq<LineMatch>
    requires n <= |lines|
  {
    if n == 0 then [] else Step(lines, query, caseSensitive, n - 1, Scan(lines, query, caseSensitive, n - 1))
  }

  /** The matching_lines of a page whose text is `text`. */
  function PageMatches(text: string, query: string, caseSensitive: bool): seq<LineMatch>
  {
    var lines := Split(text);
    Scan(lines, query, caseSensitive, |lines|)
  }

  /** An entry that names a line of lines[..n] matching the query and carries that line's non-empty context block. */
  predicate SoundEntry(lines: seq<string>, query: string, caseSensitive: bool, n: nat, m: LineMatch)
  {
    && 1 <= m.lineNumber <= n <= |lines|
    && Matches(query, lines[m.lineNumber - 1], caseSensitive)
    && m.context == Context(lines, m.lineNumber - 1)
    && m.context != ""
  }

  /** Every entry of the scan of lines[..n] is sound. */
  lemma {:induction false} ScanSound(lines: seq<string>, query: string, caseSensitive: bool, n: nat)
    requires n <= |lines|
    ensures forall m :: m in Scan(lines, query, caseSensitive, n) ==> SoundEntry(lines, query, caseSensitive, n, m)
  {
    if n > 0 {
      var prev := Scan(lines, query, caseSensitive, n - 1);
      ScanSound(lines, query, caseSensitive, n - 1);
      forall m | m in Scan(lines, query, caseSensitive, n) ensures SoundEntry(lines, query, caseSensitive, n, m) {
        if m in prev {
          assert SoundEntry(lines, query, caseSensitive, n - 1, m);
        }
      }
    }
  }

  /** Within a page, entries come in increasing line order and no two carry the same context. */
  predicate OrderedDistinct(found: seq<LineMatch>)
  {
    forall j, k :: 0 <= j < k < |found| ==>
      found[j].lineNumber < found[k].lineNumber && found[j].context != found[k].context
  }

  /** Appending an entry past every earlier line and with a new context keeps the entries ordered and distinct. */
  lemma AppendOrderedDistinct(prev: seq<LineMatch>, e: LineMatch)
    requires OrderedDistinct(prev)
    requires forall j :: 0 <= j < |prev| ==> prev[j].lineNumber < e.lineNumber
    requires e.context !in Contexts(prev)
    ensures OrderedDistinct(prev + [e])
  {
    var found := prev + [e];
    forall j, k | 0 <= j < k < |found|
      ensures found[j].lineNumber < found[k].lineNumber && found[j].context != found[k].context
    {
      if k == |prev| {
        assert Contexts(prev)[j] == prev[j].context;
      } else {
        assert found[j] == prev[j] && found[k] == prev[k];
      }
    }
  }

  /** The scan of any prefix of the page's lines is ordered by line and free of repeated contexts. */
  lemma {:induction false} ScanOrderedDistinct(lines: seq<string>, query: string, caseSensitive: bool, n: nat)
    requires n <= |lines|
    ensures OrderedDistinct(Scan(lines, query, caseSensitive, n))
  {
    if n > 0 {
      var prev := Scan(lines, query, caseSensitive, n - 1);
      ScanOrderedDistinct(lines, query, caseSensitive, n - 1);
      var context := Context(lines, n - 1);
      if Matches(query, lines[n - 1], caseSensitive) && context != "" && context !in Contexts(prev) {
        ScanSound(lines, query, caseSensitive, n - 1);
        forall j | 0 <= j < |prev| ensures prev[j].lineNumber < n {
          assert prev[j] in prev;
          assert SoundEntry(lines, query, caseSensitive, n - 1, prev[j]);
        }
        AppendOrderedDistinct(prev, LineMatch(context, n));
      }
    }
  }

  /** The entries for lines[..n] are the first entries for any longer prefix. */
  lemma {:induction false} ScanExtends(lines: seq<string>, query: string, caseSensitive: bool, n: nat, m: nat)
    requires n <= m <= |lines|
    ensures Scan(lines, query, caseSensitive, n) <= Scan(lines, query, caseSensitive, m)
    decreases m - n
  {
    if n < m {
      ScanExtends(lines, query, caseSensitive, n, m - 1);
    }
  }

  /**
   * Nothing is lost but repeats: every matching line with a non-empty block
   * has its block in the result, added by that line or an earlier one.
   */
  lemma ScanComplete(lines: seq<string>, query: string, caseSensitive: bool, n: nat, i: nat) returns (m: LineMatch)
    requires i < n <= |lines|
    requires Matches(query, lines[i], caseSensitive) && Context(lines, i) != ""
    ensures m in Scan(lines, query, caseSensitive, n) && m.context == Context(lines, i) && m.lineNumber <= i + 1
  {
    m := LineCovered(lines, query, caseSensitive, i);
    InPrefix(Scan(lines, query, caseSensitive, i + 1), Scan(lines, query, caseSensitive, n), m) by {
      ScanExtends(lines, query, caseSensitive, i + 1, n);
    }
  }

  /** An element of a prefix is an element of the whole sequence. */
  lemma InPrefix<T>(s: seq<T>, t: seq<T>, x: T)
    requires s <= t && x in s
    ensures x in t
  {
    var j :| 0 <= j < |s| && s[j] == x;
    assert t[j] == x;
  }

  /** After line i, the scan holds an entry with line i's block from line i or an earlier line. */
  lemma LineCovered(lines: seq<string>, query: string, caseSensitive: bool, i: nat) returns (m: LineMatch)
    requires i < |lines|
    requires Matches(query, lines[i], caseSensitive) && Context(lines, i) != ""
    ensures m in Scan(lines, query, caseSensitive, i + 1) && m.context == Context(lines, i) && m.lineNumber <= i + 1
  {
    var prev := Scan(lines, query, caseSensitive, i);
    var context := Context(lines, i);
    if context in Contexts(prev) {
      var j :| 0 <= j < |prev| && Contexts(prev)[j] == context;
      m := prev[j];
      ScanSound(lines, query, caseSensitive, i);
      assert m in prev;
      assert SoundEntry(lines, query, caseSensitive, i, m);
    } else {
      m := LineMatch(context, i + 1);
      assert Scan(lines, query, caseSensitive, i + 1) == prev + [m];
    }
  }

  /** Some entry of a non-empty scan names a line that matches the query. */
  lemma ScanMatchLine(lines: seq<string>, query: string, caseSensitive: bool, n: nat) returns (i: nat)
    requires n <= |lines| && Scan(lines, query, caseSensitive, n) != []
    ensures i < |lines| && Matches(query, lines[i], caseSensitive)
  {
    var m := Scan(lines, query, caseSensitive, n)[0];
    ScanSound(lines, query, caseSensitive, n);
    assert SoundEntry(lines, query, caseSensitive, n, m);
    i := m.lineNumber - 1;
  }

  /** Some entry of a page's matching_lines names a line of the page that matches the query. */
  lemma PageMatchLine(text: string, query: string, caseSensitive: bool) returns (i: nat)
    requires PageMatches(text, query, caseSensitive) != []
    ensures i < |Split(text)| && Matches(query, Split(text)[i], caseSensitive)
  {
    var lines := Split(text);
    i := ScanMatchLine(lines, query, caseSensitive, |lines|);
  }

  /** A line of the text that matches the query makes the whole text match it. */
  lemma LineMatchInText(text: string, query: string, caseSensitive: bool, i: nat)
    requires i < |Split(text)| && Matches(query, Split(text)[i], caseSensitive)
    ensures Matches(query, text, caseSensitive)
  {
    var _ := LineMatchInJoin(Split(text), i, query, caseSensitive);
    JoinSplit(text);
  }

  /**
   * A page whose text does not contain the query has no matching line, so
   * the whole-page pre-check only saves work and never drops a result.
   */
  lemma PreCheckSound(text: string, query: string, caseSensitive: bool)
    ensures !Matches(query, text, caseSensitive) ==> PageMatches(text, query, caseSensitive) == []
  {
    if PageMatches(text, query, caseSensitive) != [] {
      var i := PageMatchLine(text, query, caseSensitive);
      LineMatchInText(text, query, caseSensitive, i);
    }
  }

  /** results.append(...) for each entry of a page's matching_lines. */
  function Tag(page: int, found: seq<LineMatch>): seq<PdfMatch>
  {
    seq(|found|, j requires 0 <= j < |found| => PdfMatch(page, found[j].context, found[j].lineNumber))
  }

  /** Tagging one more entry adds its record at the end. */
  lemma TagStep(page: int, found: seq<LineMatch>, j: nat)
    requires j < |found|
    ensures Tag(page, found[..j + 1]) == Tag(page, found[..j]) + [PdfMatch(page, found[j].context, found[j].lineNumber)]
  {
    var a, b := Tag(page, found[..j + 1]), Tag(page, found[..j]) + [PdfMatch(page, found[j].context, found[j].lineNumber)];
    forall k | 0 <= k < |a| ensures a[k] == b[k] {
      assert found[..j + 1][k] == found[k];
      if k < j {
        assert found[..j][k] == found[k];
      }
    }
  }

  /**
   * What one page adds to the results: nothing when its text is missing or
   * empty, or when the whole text does not contain the query; otherwise one
   * record per entry of its matching_lines.
   */
  function PageRecords(page: int, text: Option<string>, query: string, caseSensitive: bool): seq<PdfMatch>
  {
    if text.None? || text.value == "" then []
    else if !Matches(query, text.value, caseSensitive) then []
    else Tag(page, PageMatches(text.value, query, caseSensitive))
  }

  /** The two early exits of the page loop only save work: the records are those of the line scan alone. */
  lemma PageRecordsShortcuts(page: int, text: Option<string>, query: string, caseSensitive: bool)
    ensures PageRecords(page, text, query, caseSensitive)
         == if text.None? then [] else Tag(page, PageMatches(text.value, query, caseSensitive))
  {
    if text.Some? {
      PreCheckSound(text.value, query, caseSensitive);
      if text.value == "" {
        assert Split("") == [""];
        assert [""][WindowStart(0)..WindowEnd(1, 0)] == [""];
        assert Context([""], 0) == Strip("") == "";
        assert Scan([""], query, caseSensitive, 1) == Step([""], query, caseSensitive, 0, []) == [];
      }
    }
  }

  // ---------------------------------------------------------------------------
  // The whole document
  // ---------------------------------------------------------------------------

  /** The results of a search that examines the pages of `stubs`, in order. */
  function PdfResults(stubs: seq<PageStub>, doc: PdfDocument, query: string, caseSensitive: bool): seq<PdfMatch>
  {
    if stubs == [] then []
    else
      var last := stubs[|stubs| - 1].page;
      PdfResults(stubs[..|stubs| - 1], doc, query, caseSensitive) + PageRecords(last, PageText(doc, last), query, caseSensitive)
  }

  /** Examining one more stub adds that page's records at the end. */
  lemma PdfResultsStep(stubs: seq<PageStub>, i: nat, doc: PdfDocument, query: string, caseSensitive: bool)
    requires i < |stubs|
    ensures PdfResults(stubs[..i + 1], doc, query, caseSensitive)
         == PdfResults(stubs[..i], doc, query, caseSensitive)
            + PageRecords(stubs[i].page, PageText(doc, stubs[i].page), query, caseSensitive)
  {
    assert stubs[..i + 1][..i] == stubs[..i];
  }

  /** Searching two runs of pages one after the other gives the two result lists one after the other. */
  lemma {:induction false} PdfResultsAppend(s: seq<PageStub>, t: seq<PageStub>, doc: PdfDocument, query: string, caseSensitive: bool)
    ensures PdfResults(s + t, doc, query, caseSensitive)
         == PdfResults(s, doc, query, caseSensitive) + PdfResults(t, doc, query, caseSensitive)
    decreases |t|
  {
    if t != [] {
      var t' := t[..|t| - 1];
      assert (s + t)[..|s + t| - 1] == s + t';
      PdfResultsAppend(s, t', doc, query, caseSensitive);
    } else {
      assert s + t == s;
    }
  }

  /**
   * A search canceled before page k has the results of pages before k, and
   * those are exactly the first results of a search that runs to the end.
   */
  lemma CanceledPrefix(stubs: seq<PageStub>, k: nat, doc: PdfDocument, query: string, caseSensitive: bool)
    requires k <= |stubs|
    ensures PdfResults(stubs, doc, query, caseSensitive)
         == PdfResults(stubs[..k], doc, query, caseSensitive) + PdfResults(stubs[k..], doc, query, caseSensitive)
  {
    assert stubs == stubs[..k] + stubs[k..];
    PdfResultsAppend(stubs[..k], stubs[k..], doc, query, caseSensitive);
  }

  /**
   * A page whose text is missing or empty, or does not contain the query,
   * leaves the results as if the page were not there.
   */
  lemma SkippedPage(stubs: seq<PageStub>, k: nat, doc: PdfDocument, query: string, caseSensitive: bool)
    requires k < |stubs|
    requires var text := PageText(doc, stubs[k].page);
      text.None? || text.value == "" || !Matches(query, text.value, caseSensitive)
    ensures PdfResults(stubs, doc, query, caseSensitive)
         == PdfResults(stubs[..k] + stubs[k + 1..], doc, query, caseSensitive)
  {
    var a, b, c := stubs[..k], [stubs[k]], stubs[k + 1..];
    assert stubs == (a + b) + c;
    assert (a + b)[..|a + b| - 1] == a;
    assert PageRecords(stubs[k].page, PageText(doc, stubs[k].page), query, caseSensitive) == [];
    assert PdfResults(a + b, doc, query, caseSensitive) == PdfResults(a, doc, query, caseSensitive);
    PdfResultsAppend(a + b, c, doc, query, caseSensitive);
    PdfResultsAppend(a, c, doc, query, caseSensitive);
  }

  /**
   * A record that comes from a page of the document: one of the examined
   * stubs names its page, and the text of that page has an entry in its
   * matching_lines with the record's context and line.
   */
  predicate FromPage(stubs: seq<PageStub>, doc: PdfDocument, query: string, caseSensitive: bool, r: PdfMatch)
  {
    && (exists p :: 0 <= p < |stubs| && stubs[p].page == r.page)
    && PageText(doc, r.page).Some?
    && LineMatch(r.context, r.lineNumber) in PageMatches(PageText(doc, r.page).value, query, caseSensitive)
  }

  /** Every record of a search comes from one of the pages it examined. */
  lemma {:induction false} PdfResultsSound(stubs: seq<PageStub>, doc: PdfDocument, query: string, caseSensitive: bool)
    ensures forall r :: r in PdfResults(stubs, doc, query, caseSensitive) ==> FromPage(stubs, doc, query, caseSensitive, r)
  {
    if stubs != [] {
      var init, last := stubs[..|stubs| - 1], stubs[|stubs| - 1];
      PdfResultsSound(init, doc, query, caseSensitive);
      var before := PdfResults(init, doc, query, caseSensitive);
      var text := PageText(doc, last.page);
      var added := PageRecords(last.page, text, query, caseSensitive);
      assert PdfResults(stubs, doc, query, caseSensitive) == before + added;
      forall r | r in before + added ensures FromPage(stubs, doc, query, caseSensitive, r) {
        if r in before {
          assert FromPage(init, doc, query, caseSensitive, r);
          var p :| 0 <= p < |init| && init[p].page == r.page;
          assert stubs[p] == init[p];
        } else {
          var found := PageMatches(text.value, query, caseSensitive);
          var j :| 0 <= j < |added| && added[j] == r;
          assert found[j] in found;
          assert stubs[|stubs| - 1].page == r.page;
        }
      }
    }
  }

  /** Records are ordered by page, then by line; on one page no context appears twice. */
  predicate OrderedByPageAndLine(results: seq<PdfMatch>)
  {
    forall j, k :: 0 <= j < k < |results| ==>
      || results[j].page < results[k].page
      || (&& results[j].page == results[k].page
          && results[j].lineNumber < results[k].lineNumber
          && results[j].context != results[k].context)
  }

  /** The records of one page carry its number and keep the line order and distinct contexts of its scan. */
  lemma TagOrdered(page: int, found: seq<LineMatch>)
    requires OrderedDistinct(found)
    ensures OrderedByPageAndLine(Tag(page, found))
    ensures forall r :: r in Tag(page, found) ==> r.page == page
  {
  }

  /** Appending the records of page n to ordered records of earlier pages keeps the order. */
  lemma OrderedAppendPage(before: seq<PdfMatch>, added: seq<PdfMatch>, n: int)
    requires OrderedByPageAndLine(before) && OrderedByPageAndLine(added)
    requires forall r :: r in before ==> r.page < n
    requires forall r :: r in added ==> r.page == n
    ensures OrderedByPageAndLine(before + added)
  {
    var all := before + added;
    forall j, k | 0 <= j < k < |all|
      ensures || all[j].page < all[k].page
              || (&& all[j].page == all[k].page
                  && all[j].lineNumber < all[k].lineNumber
                  && all[j].context != all[k].context)
    {
      if k < |before| {
        assert all[j] == before[j] && all[k] == before[k];
      } else if j < |before| {
        assert all[j] == before[j] && before[j] in before;
        assert all[k] == added[k - |before|] && added[k - |before|] in added;
      } else {
        assert all[j] == added[j - |before|] && all[k] == added[k - |before|];
      }
    }
  }

  /**
   * After loading an n-page document, a search reports only pages 1..n, in
   * ascending page order and, on each page, in ascending line order with
   * pairwise distinct contexts.
   */
  lemma {:induction false} LoadedResultsOrdered(n: nat, doc: PdfDocument, query: string, caseSensitive: bool)
    ensures var results := PdfResults(PageStubs(n), doc, query, caseSensitive);
      && (forall r :: r in results ==> 1 <= r.page <= n)
      && OrderedByPageAndLine(results)
  {
    if n > 0 {
      LoadedResultsOrdered(n - 1, doc, query, caseSensitive);
      var stubs := PageStubs(n);
      assert stubs[..n - 1] == PageStubs(n - 1);
      var before := PdfResults(PageStubs(n - 1), doc, query, caseSensitive);
      var text := PageText(doc, n);
      var added := PageRecords(n, text, query, caseSensitive);
      assert PdfResults(stubs, doc, query, caseSensitive) == before + added;
      if text.Some? && text.value != "" && Matches(query, text.value, caseSensitive) {
        var lines := Split(text.value);
        ScanOrderedDistinct(lines, query, caseSensitive, |lines|);
        TagOrdered(n, PageMatches(text.value, query, caseSensitive));
      }
      OrderedAppendPage(before, added, n);
    }
  }

  // ---------------------------------------------------------------------------
  // The line loop of one page
  // ---------------------------------------------------------------------------

  /** The inner loop of the page search: builds matching_lines for the lines of one page. */
  method ScanPage(lines: seq<string>, query: string, caseSensitive: bool) returns (matching: seq<LineMatch>)
    ensures matching == Scan(lines, query, caseSensitive, |lines|)
  {
    matching := [];
    var lineIdx := 0;
    while lineIdx < |lines|
      invariant 0 <= lineIdx <= |lines|
      invariant matching == Scan(lines, query, caseSensitive, lineIdx)
    {
      if Matches(query, lines[lineIdx], caseSensitive) {
        var context := Context(lines, lineIdx);
        if context != "" && context !in Contexts(matching) {
          matching := matching + [LineMatch(context, lineIdx + 1)];
        }
      }
      lineIdx := lineIdx + 1;
    }
  }

  /**
   * The body of the page loop: a page whose text is missing or empty, or
   * does not contain the query, adds nothing; otherwise its line scan runs
   * and each entry becomes a record of the page.
   */
  method SearchPage(page: int, text: Option<string>, query: string, caseSensitive: bool) returns (records: seq<PdfMatch>)
    ensures records == PageRecords(page, text, query, caseSensitive)
  {
    if text.None? || text.value == "" {
      return [];
    }
    if !Matches(query, text.value, caseSensitive) {
      return [];
    }
    var matching := ScanPage(Split(text.value), query, caseSensitive);
    records := [];
    var j := 0;
    while j < |matching|
      invariant j <= |matching|
      invariant records == Tag(page, matching[..j])
    {
      records := records + [PdfMatch(page, matching[j].context, matching[j].lineNumber)];
      TagStep(page, matching, j);
      j := j + 1;
    }
    assert matching[..j] == matching;
  }
}
