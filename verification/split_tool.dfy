/** The Split PDF tool once its button is pressed (app.py:81-169): the
    upload is validated, the page text parsed, and the results offered
    for download. A single page number also splits the document in two
    at that page, and the extraction of the accepted pages follows in
    every case. */
module SplitTool {
  import opened Wrappers
  import opened Text
  import opened PageSets
  import opened RangeParser
  import opened PdfUtils
  import opened Validators
  import opened Events

  const NoUploadMessage: string := "Please upload a PDF."
  const NoTokensMessage: string := "No pages or ranges specified."
  const NoValidPagesMessage: string := "No valid pages to extract after filtering invalid entries."

  /** Whether every accepted page is a page of the document. */
  predicate InDocument<Page>(doc: seq<Page>, pages: seq<int>) {
    forall k :: 0 <= k < |pages| ==> 1 <= pages[k] <= |doc|
  }

  // ---------------------------------------------------------------------
  // Split at a page (app.py:129-151)
  // ---------------------------------------------------------------------

  /** `f'split_{lo}-{hi}.pdf'`. */
  function SegmentName(lo: int, hi: int): string {
    "split_" + IntToString(lo) + "-" + IntToString(hi) + ".pdf"
  }

  /** The two documents of a split at page `p` (app.py:133-138): pages
      `1..p` and pages `p+1..total`. Together they are the document, the
      first holds `p` pages, and the second is empty exactly when `p` is
      the last page. */
  function SplitSegments<Page>(doc: seq<Page>, p: int): (parts: (seq<Page>, seq<Page>))
    requires 1 <= p <= |doc|
    ensures parts.0 + parts.1 == doc
    ensures |parts.0| == p
    ensures parts.1 == [] <==> p == |doc|
  {
    assert doc[..p] + doc[p..] == doc;
    (doc[..p], doc[p..])
  }

  /** The loops of app.py:133-138 add the pages numbered `lo` to `hi`
      one by one; what they build is the run of the document between
      those pages, so the two loops build the two parts of
      SplitSegments. */
  lemma {:induction false} SelectInterval<Page>(doc: seq<Page>, lo: int, hi: int)
    requires 1 <= lo <= hi + 1 <= |doc| + 1
    ensures InDocument(doc, Interval(lo, hi))
    ensures SelectPages(doc, Interval(lo, hi)) == doc[lo - 1..hi]
  {
    var numbers := Interval(lo, hi);
    var picked := SelectPages(doc, numbers);
    assert forall k :: 0 <= k < |picked| ==> picked[k] == doc[lo - 1..hi][k];
  }

  /** The zip of app.py:140-145. */
  function SplitArchive<Page>(doc: seq<Page>, p: int): Artifact<Page>
    requires 1 <= p <= |doc|
  {
    var parts := SplitSegments(doc, p);
    Zip([ZipEntry(SegmentName(1, p), parts.0), ZipEntry(SegmentName(p + 1, |doc|), parts.1)])
  }

  /** Whether the input asks for a split: exactly one token, without `-`,
      and some page accepted. */
  predicate SplitRequested(tokens: seq<string>, sel: Selection) {
    |tokens| == 1 && '-' !in tokens[0] && sel.validPages != []
  }

  /** The events of app.py:129-151. */
  function SplitAtEvents<Page>(doc: seq<Page>, tokens: seq<string>, sel: Selection): seq<Event<Page>>
    requires InDocument(doc, sel.validPages)
  {
    if SplitRequested(tokens, sel) then
      var p := sel.validPages[0];
      [ ShowSuccess("Split into 2 files at page " + IntToString(p) + "."),
        Download("Download Split ZIP", "split_pages.zip", SplitArchive(doc, p)) ]
      + (if sel.invalidTokens != [] then [ShowError("Invalid tokens ignored: " + Join(sel.invalidTokens, ", "))] else [])
    else []
  }

  // ---------------------------------------------------------------------
  // Extraction (app.py:153-167)
  // ---------------------------------------------------------------------

  /** The events of app.py:154-167. */
  function ExtractEvents<Page>(doc: seq<Page>, sel: Selection): seq<Event<Page>>
    requires InDocument(doc, sel.validPages)
  {
    if sel.validPages == [] then [ShowError(NoValidPagesMessage)]
    else
      (if sel.invalidTokens != [] then [ShowError("Ignored invalid entries: " + Join(sel.invalidTokens, ", "))] else [])
      + [ ShowSuccess("Extracted " + IntToString(|sel.validPages|) + " page(s)."),
          Download("Download Split PDF", "split.pdf", Pdf(SelectPages(doc, sel.validPages))) ]
  }

  /** The events once the tokens are read and judged. */
  function FlowEvents<Page>(doc: seq<Page>, tokens: seq<string>, sel: Selection): seq<Event<Page>>
    requires InDocument(doc, sel.validPages)
  {
    SplitAtEvents(doc, tokens, sel) + ExtractEvents(doc, sel)
  }

  /** The events for the tokens of the input (app.py:93-167). */
  function TokenEvents<Page>(doc: seq<Page>, tokens: seq<string>): seq<Event<Page>>
  {
    if tokens == [] then [ShowError(NoTokensMessage)]
    else FlowEvents(doc, tokens, ParseTokens(tokens, |doc|))
  }

  /** Everything after the document is read (app.py:91-167). */
  function SplitEvents<Page>(doc: seq<Page>, input: string): seq<Event<Page>>
  {
    TokenEvents(doc, Tokenize(input))
  }

  /** The Split PDF button (app.py:81-91): no upload, or an upload that
      fails validate_pdf, ends in one error; otherwise the document's
      pages are split as the input asks. */
  function SplitButton<Page>(upload: Option<Upload<Page>>, input: string): (events: seq<Event<Page>>)
    ensures upload.None? ==> events == [ShowError(NoUploadMessage)]
    ensures upload.Some? && ValidatePdf(upload.value, MaxPdfMb).Fail? ==>
              events == [ShowError(upload.value.name + ": " + PdfMessage(ValidatePdf(upload.value, MaxPdfMb).error))]
    ensures upload.Some? && ValidatePdf(upload.value, MaxPdfMb).Pass? ==>
              upload.value.reader.Readable? && upload.value.reader.pages != []
              && events == SplitEvents(upload.value.reader.pages, input)
  {
    match upload
    case None => [ShowError(NoUploadMessage)]
    case Some(u) =>
      match ValidatePdf(u, MaxPdfMb)
      case Fail(e) => [ShowError(u.name + ": " + PdfMessage(e))]
      case Pass => SplitEvents(u.reader.pages, input)
  }

  // ---------------------------------------------------------------------
  // Properties of the tool
  // ---------------------------------------------------------------------

  /** Whether a zip archive is offered. */
  predicate ZipOffered<Page>(events: seq<Event<Page>>) {
    exists i :: 0 <= i < |events| && events[i].Download? && events[i].artifact.Zip?
  }

  /** The input names no token exactly when the one message is "No pages
      or ranges specified.". */
  lemma {:induction false} NoTokens<Page>(doc: seq<Page>, input: string)
    ensures SplitEvents(doc, input) == [ShowError(NoTokensMessage)] <==> Tokenize(input) == []
  {
    var tokens := Tokenize(input);
    if tokens != [] {
      FlowEndsInExtraction(doc, tokens, ParseTokens(tokens, |doc|));
    }
  }

  /** Extraction always has the last word: the events end with the
      "No valid pages" banner when nothing was selected, and otherwise
      with the download of the selected pages as `split.pdf`. So they are
      never "No pages or ranges specified.". */
  lemma {:induction false} FlowEndsInExtraction<Page>(doc: seq<Page>, tokens: seq<string>, sel: Selection)
    requires InDocument(doc, sel.validPages)
    ensures |FlowEvents(doc, tokens, sel)| >= 1
    ensures FlowEvents(doc, tokens, sel)[|FlowEvents(doc, tokens, sel)| - 1]
         == if sel.validPages == [] then ShowError(NoValidPagesMessage)
            else Download("Download Split PDF", "split.pdf", Pdf(SelectPages(doc, sel.validPages)))
    ensures FlowEvents(doc, tokens, sel) != [ShowError(NoTokensMessage)]
  {
    var events := FlowEvents(doc, tokens, sel);
    var extract := ExtractEvents(doc, sel);
    assert events[|events| - 1] == extract[|extract| - 1];
    assert |NoTokensMessage| != |NoValidPagesMessage|;
  }

  /** The events for a lone page number `p` within the document. */
  lemma {:induction false} FlowSplitsAt<Page>(doc: seq<Page>, tok: string, p: int)
    requires '-' !in tok && 1 <= p <= |doc|
    ensures InDocument(doc, [p])
    ensures FlowEvents(doc, [tok], Selection([p], [])) ==
      [ ShowSuccess("Split into 2 files at page " + IntToString(p) + "."),
        Download("Download Split ZIP", "split_pages.zip",
                 Zip([ZipEntry(SegmentName(1, p), doc[..p]), ZipEntry(SegmentName(p + 1, |doc|), doc[p..])])),
        ShowSuccess("Extracted 1 page(s)."),
        Download("Download Split PDF", "split.pdf", Pdf([doc[p - 1]])) ]
  {
    var sel := Selection([p], []);
    SplitAtOnePage(doc, tok, p);
    ExtractOnePage(doc, p);
    assert FlowEvents(doc, [tok], sel) == SplitAtEvents(doc, [tok], sel) + ExtractEvents(doc, sel);
  }

  /** The split events for a lone page number `p` within the document:
      the success message naming `p` and the archive of the two parts. */
  lemma {:induction false} SplitAtOnePage<Page>(doc: seq<Page>, tok: string, p: int)
    requires '-' !in tok && 1 <= p <= |doc|
    ensures InDocument(doc, [p])
    ensures SplitAtEvents(doc, [tok], Selection([p], [])) ==
      [ ShowSuccess("Split into 2 files at page " + IntToString(p) + "."),
        Download("Download Split ZIP", "split_pages.zip",
                 Zip([ZipEntry(SegmentName(1, p), doc[..p]), ZipEntry(SegmentName(p + 1, |doc|), doc[p..])])) ]
  {
    var sel := Selection([p], []);
    assert SplitRequested([tok], sel);
    var parts := SplitSegments(doc, p);
    assert parts.0 == doc[..p] && parts.1 == doc[p..];
  }

  /** Extracting a lone page. */
  lemma {:induction false} ExtractOnePage<Page>(doc: seq<Page>, p: int)
    requires 1 <= p <= |doc|
    ensures InDocument(doc, [p])
    ensures ExtractEvents(doc, Selection([p], [])) ==
      [ ShowSuccess("Extracted 1 page(s)."),
        Download("Download Split PDF", "split.pdf", Pdf([doc[p - 1]])) ]
  {
    assert SelectPages(doc, [p]) == [doc[p - 1]];
    assert IntToString(|[p]|) == "1" by {
      assert NatToString(1) == [DigitChar(1)];
    }
    assert "Extracted " + "1" + " page(s)." == "Extracted 1 page(s).";
  }

  /** A lone page number within the document selects that page and
      rejects nothing. */
  lemma {:induction false} SingleSelection(tok: string, total: nat, p: int)
    requires '-' !in tok && ParseInt(tok) == Some(p) && 1 <= p <= total
    ensures ParseTokens([tok], total) == Selection([p], [])
  {
    assert Classify(tok, total) == Accepted([p]);
    OneToken(tok, total);
  }

  /** A lone token without `-` that is not a page of the document selects
      nothing. */
  lemma {:induction false} SingleRejection(tok: string, total: nat)
    requires '-' !in tok
    requires !(ParseInt(tok).Some? && 1 <= ParseInt(tok).value <= total)
    ensures ParseTokens([tok], total) == Selection([], [tok])
  {
    assert Classify(tok, total) == Rejected;
    OneToken(tok, total);
  }

  /** A single page number `p` within the document splits the document
      at `p` and, since extraction always follows, also extracts page
      `p` alone. No rejected token can accompany a split, so its warning
      (app.py:150-151) never shows. */
  lemma {:induction false} SplitAtPage<Page>(doc: seq<Page>, input: string, tok: string, p: int)
    requires Tokenize(input) == [tok]
    requires '-' !in tok && ParseInt(tok) == Some(p) && 1 <= p <= |doc|
    ensures SplitEvents(doc, input) ==
      [ ShowSuccess("Split into 2 files at page " + IntToString(p) + "."),
        Download("Download Split ZIP", "split_pages.zip",
                 Zip([ZipEntry(SegmentName(1, p), doc[..p]), ZipEntry(SegmentName(p + 1, |doc|), doc[p..])])),
        ShowSuccess("Extracted 1 page(s)."),
        Download("Download Split PDF", "split.pdf", Pdf([doc[p - 1]])) ]
  {
    SingleSelection(tok, |doc|, p);
    FlowSplitsAt(doc, tok, p);
  }

  /** Whether the tokens are one page number of the document, without
      `-`. */
  predicate LonePage(tokens: seq<string>, total: nat) {
    && |tokens| == 1
    && '-' !in tokens[0]
    && ParseInt(tokens[0]).Some?
    && 1 <= ParseInt(tokens[0]).value <= total
  }

  /** A zip is offered exactly when the input is one token without `-`
      that parses to a page of the document. */
  lemma {:induction false} SplitOnlyThen<Page>(doc: seq<Page>, input: string)
    ensures ZipOffered(SplitEvents(doc, input)) <==> LonePage(Tokenize(input), |doc|)
  {
    TokensSplitOnlyThen(doc, Tokenize(input));
  }

  /** SplitOnlyThen for the tokens already read from the input. */
  lemma {:induction false} TokensSplitOnlyThen<Page>(doc: seq<Page>, tokens: seq<string>)
    ensures ZipOffered(TokenEvents(doc, tokens)) <==> LonePage(tokens, |doc|)
  {
    if tokens != [] {
      var tok := tokens[0];
      var sel := ParseTokens(tokens, |doc|);
      if LonePage(tokens, |doc|) {
        assert tokens == [tok];
        SingleSelection(tok, |doc|, ParseInt(tok).value);
        FlowWithSplit(doc, tokens, sel);
      } else {
        if |tokens| == 1 && '-' !in tok {
          assert tokens == [tok];
          SingleRejection(tok, |doc|);
        }
        FlowWithoutSplit(doc, tokens, sel);
      }
    }
  }

  /** A split request offers a zip. */
  lemma {:induction false} FlowWithSplit<Page>(doc: seq<Page>, tokens: seq<string>, sel: Selection)
    requires InDocument(doc, sel.validPages)
    requires SplitRequested(tokens, sel)
    ensures ZipOffered(FlowEvents(doc, tokens, sel))
  {
    var split := SplitAtEvents(doc, tokens, sel);
    assert split[1].Download? && split[1].artifact.Zip?;
    assert FlowEvents(doc, tokens, sel)[1] == split[1];
  }

  /** Without a split request the events are extraction's alone, and
      they offer no zip. */
  lemma {:induction false} FlowWithoutSplit<Page>(doc: seq<Page>, tokens: seq<string>, sel: Selection)
    requires InDocument(doc, sel.validPages)
    requires !SplitRequested(tokens, sel)
    ensures !ZipOffered(FlowEvents(doc, tokens, sel))
  {
    assert FlowEvents(doc, tokens, sel) == ExtractEvents(doc, sel);
  }

  /** With no page accepted, the one message is "No valid pages to
      extract…": the rejected tokens are not listed. */
  lemma {:induction false} NothingValid<Page>(doc: seq<Page>, input: string)
    requires Tokenize(input) != []
    requires ParseTokens(Tokenize(input), |doc|).validPages == []
    ensures SplitEvents(doc, input) == [ShowError(NoValidPagesMessage)]
  {
  }

  /** The extraction's PDF is what split_pdf (pdfutils.py:17-25) makes
      of the accepted pages: app.py:161-163 repeats its loop. */
  lemma {:induction false} ExtractIsSplitPdf<Page>(doc: seq<Page>, sel: Selection)
    requires InDocument(doc, sel.validPages) && sel.validPages != []
    ensures SplitPdf(Readable(doc), sel.validPages).Ok?
    ensures var events := ExtractEvents(doc, sel);
      && events[|events| - 1] == Download("Download Split PDF", "split.pdf", Pdf(SplitPdf(Readable(doc), sel.validPages).value))
      && events[|events| - 2] == ShowSuccess("Extracted " + IntToString(|sel.validPages|) + " page(s).")
  {
    SplitPdfSelects(doc, sel.validPages);
  }
}
