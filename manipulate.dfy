/** manipulate.py: the page operations. PDFManipulator and its subclasses
    (PageRotatePDF, PageMovePDF, PageDeletePDF, PageInsertBlankPDF,
    WatermarkPDF) hold a document and change it in place; here they are one
    class holding the document as a page sequence. */
module Manipulate {
  import opened Wrappers
  import opened Document

  /** The document after page `i` is turned by `delta` degrees. */
  function Rotated(doc: Doc, i: nat, delta: int): (d: Doc)
    requires i < |doc|
    ensures |d| == |doc|
    ensures forall k :: 0 <= k < |doc| && k != i ==> d[k] == doc[k]
    ensures d[i].content == doc[i].content && d[i].wrapped == doc[i].wrapped
    ensures d[i].overlays == doc[i].overlays
    ensures NormalAngle(d[i].rotation)
    ensures doc[i].rotation % 90 == 0 && delta % 90 == 0 ==>
              (d[i].rotation - doc[i].rotation - delta) % 360 == 0
  {
    SetRotation(doc, i, doc[i].rotation + delta)
  }

  /** Turning a page right and then left restores the document. */
  lemma RotateRightThenLeft(doc: Doc, i: nat)
    requires i < |doc| && NormalAngle(doc[i].rotation)
    ensures Rotated(Rotated(doc, i, 90), i, -90) == doc
  {
    var r := Rotated(doc, i, 90);
    var back := Rotated(r, i, -90);
    assert back[i].rotation == doc[i].rotation;
    assert back[i] == doc[i];
  }

  /** Turning a page left and then right restores the document. */
  lemma RotateLeftThenRight(doc: Doc, i: nat)
    requires i < |doc| && NormalAngle(doc[i].rotation)
    ensures Rotated(Rotated(doc, i, -90), i, 90) == doc
  {
    var r := Rotated(doc, i, -90);
    var back := Rotated(r, i, 90);
    assert back[i].rotation == doc[i].rotation;
    assert back[i] == doc[i];
  }

  /** PageMovePDF.move: the library call is made only when
      0 <= fromPage <= len(doc). */
  function Moved(doc: Doc, fromPage: int, toPage: int): Result<Doc, DocError>
  {
    if fromPage <= |doc| && fromPage >= 0 then MovePage(doc, fromPage, toPage) else Ok(doc)
  }

  /** Outside the guard nothing changes; inside, a move is a reordering. */
  lemma MovedProperties(doc: Doc, fromPage: int, toPage: int)
    ensures !(0 <= fromPage <= |doc|) ==> Moved(doc, fromPage, toPage) == Ok(doc)
    ensures Moved(doc, fromPage, toPage).Ok? ==>
              multiset(Moved(doc, fromPage, toPage).value) == multiset(doc)
  {
    if 0 <= fromPage <= |doc| && MovePage(doc, fromPage, toPage).Ok? {
      MovePagePermutes(doc, fromPage, toPage);
    }
  }

  /** fromPage == len(doc) passes the guard, and the library then refuses it. */
  lemma MoveFromEndPassesGuard(doc: Doc, toPage: int)
    ensures Moved(doc, |doc|, toPage) == Err(BadPageNumbers)
  {
  }

  /** Moving page i before page i - 1 (the "move up" button) swaps them. */
  lemma MoveUpSwaps(doc: Doc, i: nat)
    requires 0 < i < |doc|
    ensures Moved(doc, i, i - 1).Ok?
    ensures Moved(doc, i, i - 1).value == doc[i - 1 := doc[i]][i := doc[i - 1]]
  {
    var d := Moved(doc, i, i - 1).value;
    assert d == doc[..i - 1] + [doc[i]] + [doc[i - 1]] + doc[i + 1..];
  }

  /** `doc[i]` names a page iff i is below the page count and the document
      has pages; a non-negative i names itself, and -1 down to -len(doc)
      count back from the last page. */
  lemma PageIndexFromEnd(doc: Doc, i: int)
    ensures PageIndex(doc, i).Ok? <==> i < |doc| && |doc| > 0
    ensures PageIndex(doc, i) == Err(NeverReturns) <==> i < 0 && |doc| == 0
    ensures 0 <= i < |doc| ==> PageIndex(doc, i) == Ok(i)
    ensures -|doc| <= i < 0 ==> PageIndex(doc, i) == Ok(i + |doc|)
  {
    if -|doc| <= i < 0 {
      ModShift(i, |doc|);
    }
  }

  /** PageDeletePDF.delete removes exactly the page `doc[i]` names; an
      empty document makes a negative i loop forever. */
  lemma DeleteRemovesPage(doc: Doc, i: int)
    ensures DeletePage(doc, i).Ok? <==> i < |doc| && |doc| > 0
    ensures DeletePage(doc, i) == Err(NeverReturns) <==> i < 0 && |doc| == 0
    ensures DeletePage(doc, i).Ok? ==>
              var p := PageIndex(doc, i).value;
              var d := DeletePage(doc, i).value;
              |d| == |doc| - 1 &&
              (forall k :: 0 <= k < p ==> d[k] == doc[k]) &&
              (forall k :: p <= k < |d| ==> d[k] == doc[k + 1])
    ensures -|doc| <= i < 0 ==> DeletePage(doc, i) == DeletePage(doc, i + |doc|)
  {
    PageIndexFromEnd(doc, i);
  }

  /** PageInsertBlankPDF.insert puts a blank page at index i and shifts the
      later pages right. */
  lemma InsertAddsBlank(doc: Doc, i: int)
    ensures InsertPage(doc, i).Ok? <==> -1 <= i <= |doc|
    ensures 0 <= i <= |doc| ==>
              var d := InsertPage(doc, i).value;
              |d| == |doc| + 1 && d[i] == BlankPage &&
              (forall k :: 0 <= k < i ==> d[k] == doc[k]) &&
              (forall k :: i < k < |d| ==> d[k] == doc[k - 1])
    ensures i == -1 ==> InsertPage(doc, i) == InsertPage(doc, |doc|)
  {
    if i == -1 {
      assert doc[..|doc|] + [BlankPage] + doc[|doc|..] == doc + [BlankPage];
    }
  }

  /** The document after every page has been watermarked with `image`. */
  function WatermarkAll(doc: Doc, image: string): (d: Doc)
    ensures |d| == |doc|
    ensures forall k :: 0 <= k < |doc| ==>
              d[k].wrapped && d[k].overlays == doc[k].overlays + [image] &&
              d[k].content == doc[k].content && d[k].rotation == doc[k].rotation
  {
    seq(|doc|, k requires 0 <= k < |doc| => Watermarked(doc[k], image))
  }

  /** create_blank_pdf: a new document with one blank page. */
  function CreateBlankPdf(): (d: Doc)
    ensures |d| == 1 && d[0].content == Blank && d[0].overlays == []
  {
    [BlankPage]
  }

  class PdfManipulator {
    var doc: Doc
    const savePath: Option<string>

    constructor (doc: Doc, savePath: Option<string>)
      ensures Get() == doc && this.savePath == savePath
    {
      this.doc := doc;
      this.savePath := savePath;
    }

    /** PDFManipulator.get */
    function Get(): Doc
      reads this
    {
      doc
    }

    /** PageRotatePDF.rotate_l: `self.doc[page_i]`, then a quarter turn
        to the left. */
    method RotateL(pageI: int) returns (r: Outcome<DocError>)
      modifies this`doc
      ensures PageIndex(old(doc), pageI).Ok? ==>
                r == Pass && doc == Rotated(old(doc), PageIndex(old(doc), pageI).value, -90)
      ensures PageIndex(old(doc), pageI).Err? ==>
                r == Fail(PageIndex(old(doc), pageI).error) && doc == old(doc)
    {
      match PageIndex(doc, pageI)
      case Err(e) => r := Fail(e);
      case Ok(i) =>
        var page := doc[i];
        doc := SetRotation(doc, i, page.rotation - 90);
        r := Pass;
    }

    /** PageRotatePDF.rotate_r */
    method RotateR(pageI: int) returns (r: Outcome<DocError>)
      modifies this`doc
      ensures PageIndex(old(doc), pageI).Ok? ==>
                r == Pass && doc == Rotated(old(doc), PageIndex(old(doc), pageI).value, 90)
      ensures PageIndex(old(doc), pageI).Err? ==>
                r == Fail(PageIndex(old(doc), pageI).error) && doc == old(doc)
    {
      match PageIndex(doc, pageI)
      case Err(e) => r := Fail(e);
      case Ok(i) =>
        var page := doc[i];
        doc := SetRotation(doc, i, page.rotation + 90);
        r := Pass;
    }

    /** PageMovePDF.move */
    method Move(fromPage: int, toPage: int) returns (r: Outcome<DocError>)
      modifies this`doc
      ensures Moved(old(doc), fromPage, toPage).Ok? ==>
                r == Pass && doc == Moved(old(doc), fromPage, toPage).value
      ensures Moved(old(doc), fromPage, toPage).Err? ==>
                r == Fail(Moved(old(doc), fromPage, toPage).error) && doc == old(doc)
    {
      r := Pass;
      if fromPage <= |doc| && fromPage >= 0 {
        match MovePage(doc, fromPage, toPage)
        case Ok(d) => doc := d;
        case Err(e) => r := Fail(e);
      }
    }

    /** PageDeletePDF.delete */
    method Delete(pageI: int) returns (r: Outcome<DocError>)
      modifies this`doc
      ensures DeletePage(old(doc), pageI).Ok? ==> r == Pass && doc == DeletePage(old(doc), pageI).value
      ensures DeletePage(old(doc), pageI).Err? ==>
                r == Fail(DeletePage(old(doc), pageI).error) && doc == old(doc)
    {
      match DeletePage(doc, pageI)
      case Ok(d) => doc := d; r := Pass;
      case Err(e) => r := Fail(e);
    }

    /** PageInsertBlankPDF.insert */
    method Insert(pageI: int) returns (r: Outcome<DocError>)
      modifies this`doc
      ensures InsertPage(old(doc), pageI).Ok? ==> r == Pass && doc == InsertPage(old(doc), pageI).value
      ensures InsertPage(old(doc), pageI).Err? ==> r.Fail? && doc == old(doc)
    {
      match InsertPage(doc, pageI)
      case Ok(d) => doc := d; r := Pass;
      case Err(e) => r := Fail(e);
    }

    /** WatermarkPDF.watermark: the page `self.doc[page_i]`, or with
        allPages every page, is wrapped if needed and gets the image as an
        overlay; with allPages the index is not read. */
    method Watermark(pageI: int, sourceImage: string, allPages: bool) returns (r: Outcome<DocError>)
      modifies this`doc
      ensures !allPages && PageIndex(old(doc), pageI).Ok? ==>
                var i := PageIndex(old(doc), pageI).value;
                r == Pass && doc == old(doc)[i := Watermarked(old(doc)[i], sourceImage)]
      ensures !allPages && PageIndex(old(doc), pageI).Err? ==>
                r == Fail(PageIndex(old(doc), pageI).error) && doc == old(doc)
      ensures allPages ==> r == Pass && doc == WatermarkAll(old(doc), sourceImage)
    {
      if !allPages {
        match PageIndex(doc, pageI)
        case Err(e) => return Fail(e);
        case Ok(i) =>
          var page := doc[i];
          if !page.wrapped {
            page := page.(wrapped := true);
          }
          page := page.(overlays := page.overlays + [sourceImage]);
          doc := doc[i := page];
      } else {
        var k := 0;
        while k < |doc|
          invariant |doc| == |old(doc)| && 0 <= k <= |doc|
          invariant forall j :: 0 <= j < k ==> doc[j] == Watermarked(old(doc)[j], sourceImage)
          invariant forall j :: k <= j < |doc| ==> doc[j] == old(doc)[j]
        {
          var page := doc[k];
          if !page.wrapped {
            page := page.(wrapped := true);
          }
          page := page.(overlays := page.overlays + [sourceImage]);
          doc := doc[k := page];
          k := k + 1;
        }
      }
      r := Pass;
    }
  }
}
