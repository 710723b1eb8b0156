/** merge.py: the temporary file title built from a timestamp, and
    PdfMerger, which inserts page ranges of other documents into its own
    document and removes a page by copying the pages around it. */
module Merge {
  import opened Wrappers
  import opened Strings
  import opened Document

  /** Python's `s[a:b]` for 0 <= a <= b: both bounds are clipped to the length. */
  function Slice(s: string, a: nat, b: nat): (r: string)
    requires a <= b
    ensures b <= |s| ==> r == s[a..b]
    ensures |s| <= a ==> r == ""
  {
    s[Min(a, |s|)..Min(b, |s|)]
  }

  /** calculate_pdf_temp_title, with `str(datetime.datetime.today())` passed
      in as `tb`. For a timestamp "YYYY-MM-DD HH:MM:SS..." the result is
      "YYYY-MM-DD_HH-MM-SS.pdf". */
  function CalculatePdfTempTitle(tb: string): (title: string)
    ensures EndsWith(title, ".pdf")
    ensures |tb| >= 19 ==>
              |title| == 23 &&
              title[..4] == tb[..4] && title[5..7] == tb[5..7] && title[8..10] == tb[8..10] &&
              title[11..13] == tb[11..13] && title[14..16] == tb[14..16] &&
              title[17..19] == tb[17..19] &&
              title[4] == '-' && title[7] == '-' && title[10] == '_' &&
              title[13] == '-' && title[16] == '-' &&
              title[19..] == ".pdf"
  {
    Slice(tb, 0, 4) + "-" + Slice(tb, 5, 7) + "-" + Slice(tb, 8, 10) + "_" +
    Slice(tb, 11, 13) + "-" + Slice(tb, 14, 16) + "-" + Slice(tb, 17, 19) + ".pdf"
  }

  /** The document remove_page builds, or IndexError when the index is past
      the end: the pages up to page_i - 1 are copied into a new document,
      then, unless page_i is the length, the pages from page_i + 1 on. */
  function RemovedPage(doc: Doc, pageI: int): Result<Doc, DocError>
  {
    if pageI <= |doc| then
      var prefix := InsertPdf([], doc, 0, pageI - 1, -1);
      Ok(if pageI != |doc| then InsertPdf(prefix, doc, pageI + 1, -1, -1) else prefix)
    else Err(PageIndexOutOfRange)
  }

  /** Copying every page of `src` after the pages of `doc`. */
  lemma InsertWhole(doc: Doc, src: Doc)
    ensures InsertPdf(doc, src, -1, -1, -1) == doc + src
    ensures InsertPdf(doc, src, 0, -1, -1) == doc + src
  {
    if |src| > 0 {
      assert src[0..|src|] == src;
      assert doc[..|doc|] == doc && doc[|doc|..] == [];
    }
  }

  /** remove_page raises iff the index is past the end. */
  lemma RemoveRaisesIff(doc: Doc, pageI: int)
    ensures RemovedPage(doc, pageI).Err? <==> pageI > |doc|
  {
  }

  /** An interior page is removed and nothing else changes. */
  lemma RemoveInterior(doc: Doc, pageI: int)
    requires 0 < pageI < |doc| - 1
    ensures RemovedPage(doc, pageI) == Ok(doc[..pageI] + doc[pageI + 1..])
  {
    InsertPdfAppend([], doc, 0, pageI - 1);
    var prefix := doc[0..pageI];
    assert [] + prefix == doc[..pageI];
    InsertPdfAppend(prefix, doc, pageI + 1, |doc| - 1);
  }

  /** page_i == len(doc): the prefix copy already holds every page. */
  lemma RemoveAtLength(doc: Doc)
    ensures RemovedPage(doc, |doc|) == Ok(doc)
  {
    if |doc| > 0 {
      assert InsertPdf([], doc, 0, |doc| - 1, -1) == doc[0..|doc|];
      assert doc[0..|doc|] == doc;
    }
  }

  /** page_i == 0: to_page = -1 copies the whole document, and the pages
      from page 1 on (from the last page for a one-page document) follow. */
  lemma RemoveFirst(doc: Doc)
    requires |doc| > 0
    ensures |doc| >= 2 ==> RemovedPage(doc, 0) == Ok(doc + doc[1..])
    ensures |doc| == 1 ==> RemovedPage(doc, 0) == Ok(doc + doc)
  {
    InsertWhole([], doc);
    assert [] + doc == doc;
    if |doc| >= 2 {
      InsertPdfAppend(doc, doc, 1, |doc| - 1);
    } else {
      InsertPdfAppend(doc, doc, 0, 0);
      assert doc[0..1] == doc;
    }
  }

  /** A negative index copies the whole document twice. */
  lemma RemoveNegative(doc: Doc, pageI: int)
    requires pageI < 0
    ensures RemovedPage(doc, pageI) == Ok(doc + doc)
  {
    if |doc| > 0 {
      InsertPdfAppend([], doc, 0, |doc| - 1);
      assert [] + doc == doc;
      InsertPdfNegative([], doc, 0, pageI - 1, -1);
      InsertPdfAppend(doc, doc, 0, |doc| - 1);
      InsertPdfNegative(doc, doc, pageI + 1, -1, -1);
      assert doc[0..] == doc;
      assert InsertPdf(doc, doc, pageI + 1, -1, -1) == doc + doc;
    } else {
      assert doc + doc == doc;
    }
  }

  /** As written, the last page of a document with at least two pages is not
      removed: from_page = len(doc) is clipped back to the last page, which
      is copied again. */
  lemma RemoveLastPageKept(doc: Doc)
    requires |doc| >= 2
    ensures RemovedPage(doc, |doc| - 1) == Ok(doc)
  {
    var n := |doc|;
    var prefix := InsertPdf([], doc, 0, n - 2, -1);
    assert prefix == doc[0..n - 1];
    assert InsertPdf(prefix, doc, n, -1, -1) == prefix + doc[n - 1..n];
    assert doc[0..n - 1] + doc[n - 1..n] == doc;
  }

  /** What remove_page evidently intends: the page at a valid index is
      spliced out, and any other index raises IndexError. */
  function SplicedOut(doc: Doc, pageI: int): Result<Doc, DocError>
  {
    if 0 <= pageI < |doc| then Ok(doc[..pageI] + doc[pageI + 1..]) else Err(PageIndexOutOfRange)
  }

  /** The intended removal drops exactly the page at the index. */
  lemma SplicedOutRemovesPage(doc: Doc, pageI: int)
    ensures SplicedOut(doc, pageI).Ok? <==> 0 <= pageI < |doc|
    ensures SplicedOut(doc, pageI).Ok? ==>
              var d := SplicedOut(doc, pageI).value;
              |d| == |doc| - 1 &&
              multiset(d) + multiset{doc[pageI]} == multiset(doc) &&
              (forall k :: 0 <= k < pageI ==> d[k] == doc[k]) &&
              (forall k :: pageI <= k < |d| ==> d[k] == doc[k + 1])
  {
    if 0 <= pageI < |doc| {
      assert doc == doc[..pageI] + [doc[pageI]] + doc[pageI + 1..];
    }
  }

  /** As written and as intended agree on every page except the first and
      the last. */
  lemma RemovedAgreesInside(doc: Doc, pageI: int)
    requires 0 < pageI < |doc| - 1
    ensures RemovedPage(doc, pageI) == SplicedOut(doc, pageI)
  {
    RemoveInterior(doc, pageI);
  }

  /** The pages add_pages copies: from start_page to end_page, with a
      missing end_page meaning start_page alone and -1 the last page. */
  function AddedPages(doc: Doc, src: Doc, startI: int, startPage: int, endPage: Option<int>): Doc
  {
    var last := endPage.GetOr(startPage);
    if last == -1 then InsertPdf(doc, src, startPage, -1, startI)
    else InsertPdf(doc, src, startPage, last, startI)
  }

  /** add_pages with no end page copies just the start page. */
  lemma AddSinglePage(doc: Doc, src: Doc, startI: int, startPage: int)
    requires 0 <= startPage < |src| && 0 <= startI <= |doc|
    ensures AddedPages(doc, src, startI, startPage, None) ==
              doc[..startI] + [src[startPage]] + doc[startI..]
  {
    assert src[startPage..startPage + 1] == [src[startPage]];
  }

  /** add_pages with end page -1 copies from the start page to the last. */
  lemma AddPagesToEnd(doc: Doc, src: Doc, startI: int, startPage: int)
    requires 0 <= startPage < |src| && 0 <= startI <= |doc|
    ensures AddedPages(doc, src, startI, startPage, Some(-1)) ==
              doc[..startI] + src[startPage..] + doc[startI..]
  {
    assert src[startPage..|src|] == src[startPage..];
  }

  /** add_pages with an explicit range copies it inclusively. */
  lemma AddPageRange(doc: Doc, src: Doc, startI: int, startPage: int, endPage: int)
    requires 0 <= startPage <= endPage < |src| && 0 <= startI <= |doc|
    ensures var d := AddedPages(doc, src, startI, startPage, Some(endPage));
              d == doc[..startI] + src[startPage..endPage + 1] + doc[startI..] &&
              |d| == |doc| + (endPage - startPage + 1)
  {
  }

  /** add_pdf and add_fitz_doc copy every source page to start_i. */
  lemma AddWholeDocument(doc: Doc, src: Doc, startI: int)
    requires 0 <= startI <= |doc|
    ensures var d := InsertPdf(doc, src, -1, -1, startI);
              d == doc[..startI] + src + doc[startI..] && |d| == |doc| + |src|
  {
    if |src| > 0 {
      assert src[0..|src|] == src;
    }
  }

  class PdfMerger {
    var doc: Doc

    constructor (fitzDoc: Doc)
      ensures Get() == fitzDoc
    {
      doc := fitzDoc;
    }

    /** PdfMerger.get */
    function Get(): Doc
      reads this
    {
      doc
    }

    /** PdfMerger.add_pages; `src` is the opened source file. */
    method AddPages(src: Doc, startI: int, startPage: int, endPage: Option<int>)
      modifies this`doc
      ensures doc == AddedPages(old(doc), src, startI, startPage, endPage)
    {
      var last := endPage.GetOr(startPage);
      if last == -1 {
        doc := InsertPdf(doc, src, startPage, -1, startI);
      } else {
        doc := InsertPdf(doc, src, startPage, last, startI);
      }
    }

    /** PdfMerger.add_pdf; `src` is the opened source file. */
    method AddPdf(src: Doc, startI: int)
      modifies this`doc
      ensures doc == InsertPdf(old(doc), src, -1, -1, startI)
    {
      doc := InsertPdf(doc, src, -1, -1, startI);
    }

    /** PdfMerger.add_fitz_doc */
    method AddFitzDoc(src: Doc, startI: int)
      modifies this`doc
      ensures doc == InsertPdf(old(doc), src, -1, -1, startI)
    {
      doc := InsertPdf(doc, src, -1, -1, startI);
    }

    /** PdfMerger.remove_page, as written. */
    method RemovePage(pageI: int) returns (r: Outcome<DocError>)
      modifies this`doc
      ensures RemovedPage(old(doc), pageI).Ok? ==> r == Pass && doc == RemovedPage(old(doc), pageI).value
      ensures RemovedPage(old(doc), pageI).Err? ==> r == Fail(PageIndexOutOfRange) && doc == old(doc)
    {
      var docLen := |doc|;
      if pageI <= docLen {
        var newDoc: Doc := [];
        newDoc := InsertPdf(newDoc, doc, 0, pageI - 1, -1);
        if pageI != docLen {
          newDoc := InsertPdf(newDoc, doc, pageI + 1, -1, -1);
        }
        doc := newDoc;
        r := Pass;
      } else {
        r := Fail(PageIndexOutOfRange);
      }
    }
  }
}
