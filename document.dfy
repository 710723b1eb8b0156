/** The PyMuPDF document as the application uses it: an ordered sequence of
    pages, plus the library calls the core makes on it (set_rotation,
    move_page, delete_page, insert_page, insert_pdf, wrap_contents,
    insert_image). Page content, geometry and the byte format are opaque. */
module Document {
  import opened Wrappers

  /** Where a page's content came from. */
  datatype Content = Blank | Original(id: nat)

  /** A page: its content, its /Rotate angle, whether its content stream is
      wrapped in a save/restore pair, and the images overlaid on it. */
  datatype Page = Page(content: Content, rotation: int, wrapped: bool, overlays: seq<string>)

  type Doc = seq<Page>

  /** The page that new_page / insert_page create. */
  const BlankPage: Page := Page(Blank, 0, false, [])

  /** ValueError("bad page number(s)") and IndexError raised by the library,
      and a call that never returns. */
  datatype DocError = BadPageNumbers | PageIndexOutOfRange | NeverReturns

  /** Page.set_rotation stores its angle normalised into [0, 360); an angle
      that is not a multiple of 90 is stored as 0. */
  function NormRotation(angle: int): (n: int)
    ensures NormalAngle(n)
    ensures angle % 90 == 0 ==> (n - angle) % 360 == 0
  {
    if angle % 90 != 0 then 0
    else
      RightAngleModulo(angle);
      angle % 360
  }

  /** A page's /Rotate value as the library reports it. */
  predicate NormalAngle(angle: int)
  {
    angle == 0 || angle == 90 || angle == 180 || angle == 270
  }

  /** A multiple of 90 reduced modulo 360 is one of the four normal angles. */
  lemma RightAngleModulo(angle: int)
    requires angle % 90 == 0
    ensures NormalAngle(angle % 360) && (angle % 360 - angle) % 360 == 0
  {
    var q := angle / 360;
    var n := angle % 360;
    assert angle == 360 * q + n;
    var k := angle / 90;
    assert angle == 90 * k;
    var m := k - 4 * q;
    assert n == 90 * m;
    assert 0 <= m < 4;
    assert n - angle == 360 * -q;
  }

  /** Page.set_rotation(angle) on page i: the stored angle is normalised. */
  function SetRotation(doc: Doc, i: nat, angle: int): Doc
    requires i < |doc|
  {
    doc[i := doc[i].(rotation := NormRotation(angle))]
  }

  /** Document.move_page(pno, to): page `pno` is put before page `to`, or
      after the last page when `to` is -1. */
  function MovePage(doc: Doc, pno: int, to: int): Result<Doc, DocError>
  {
    if !(0 <= pno < |doc|) || !(-1 <= to < |doc|) then Err(BadPageNumbers)
    else if to == -1 then Ok(doc[..pno] + doc[pno + 1..] + [doc[pno]])
    else if pno < to then Ok(doc[..pno] + doc[pno + 1..to] + [doc[pno]] + doc[to..])
    else Ok(doc[..to] + [doc[pno]] + doc[to..pno] + doc[pno + 1..])
  }

  /** Moving a page only reorders the document. */
  lemma MovePagePermutes(doc: Doc, pno: int, to: int)
    requires MovePage(doc, pno, to).Ok?
    ensures multiset(MovePage(doc, pno, to).value) == multiset(doc)
  {
    assert doc == doc[..pno] + [doc[pno]] + doc[pno + 1..];
    if to != -1 && pno < to {
      assert doc[pno + 1..] == doc[pno + 1..to] + doc[to..];
    } else if to != -1 {
      assert doc[..pno] == doc[..to] + doc[to..pno];
    }
  }

  lemma MulBounds(k: int, n: int)
    requires n > 0
    ensures k >= 1 ==> k * n >= n
    ensures k <= -1 ==> k * n <= -n
  {
  }

  /** Adding the modulus does not change the remainder. */
  lemma ModShift(a: int, n: int)
    requires n > 0
    ensures (a + n) % n == a % n
  {
    var q, r := a / n, a % n;
    var q', r' := (a + n) / n, (a + n) % n;
    var k := q' - q - 1;
    assert k * n == r - r';
    MulBounds(k, n);
  }

  /** The library's `while pno < 0: pno += page_count`, which delete_page
      and load_page run before they check a page number. It ends for a
      non-negative number or a positive count, and then a negative number
      has been reduced modulo the count. */
  function CountFromEnd(pno: int, count: nat): (r: nat)
    requires pno >= 0 || count > 0
    ensures pno >= 0 ==> r == pno
    ensures pno < 0 ==> r == pno % count
    decreases if pno < 0 then -pno else 0
  {
    if pno >= 0 then pno
    else
      ModShift(pno, count);
      CountFromEnd(pno + count, count)
  }

  /** Document.__getitem__(pno), which calls load_page: a number at or past
      the page count raises IndexError, and a negative one counts from the
      end (forever, on an empty document). */
  function PageIndex(doc: Doc, pno: int): (r: Result<nat, DocError>)
    ensures r.Ok? ==> r.value < |doc|
  {
    if pno >= |doc| then Err(PageIndexOutOfRange)
    else if |doc| == 0 then Err(NeverReturns)
    else Ok(CountFromEnd(pno, |doc|))
  }

  /** Document.delete_page(pno): a negative number counts from the end, and
      a number at or past the page count raises ValueError. */
  function DeletePage(doc: Doc, pno: int): Result<Doc, DocError>
  {
    if pno < 0 && |doc| == 0 then Err(NeverReturns)
    else
      var p := CountFromEnd(pno, |doc|);
      if p < |doc| then Ok(doc[..p] + doc[p + 1..]) else Err(BadPageNumbers)
  }

  /** Document.insert_page(pno): a blank page before page `pno`; `pno` equal
      to the page count, or -1, appends. Any other number is refused. */
  function InsertPage(doc: Doc, pno: int): Result<Doc, DocError>
  {
    if pno == -1 then Ok(doc + [BlankPage])
    else if 0 <= pno <= |doc| then Ok(doc[..pno] + [BlankPage] + doc[pno..])
    else Err(BadPageNumbers)
  }

  function Reverse(s: Doc): (r: Doc)
    ensures |r| == |s|
    ensures forall k :: 0 <= k < |s| ==> r[k] == s[|s| - 1 - k]
  {
    seq(|s|, k requires 0 <= k < |s| => s[|s| - 1 - k])
  }

  /** The pages insert_pdf copies for already normalised page numbers: in
      order when fp <= tp, in reverse order otherwise. */
  function CopyRange(src: Doc, fp: nat, tp: nat): Doc
    requires fp < |src| && tp < |src|
  {
    if fp <= tp then src[fp..tp + 1] else Reverse(src[tp..fp + 1])
  }

  /** Document.insert_pdf(src, from_page, to_page, start_at): negative
      from_page means 0, negative to_page the last page, negative start_at
      the end; each is limited to the last valid position. An empty source
      copies nothing. */
  function InsertPdf(doc: Doc, src: Doc, fromPage: int, toPage: int, startAt: int): Doc
  {
    if |src| == 0 then doc
    else
      var fp := Min(Max(fromPage, 0), |src| - 1);
      var tp := if toPage < 0 then |src| - 1 else Min(toPage, |src| - 1);
      var sa := if startAt < 0 then |doc| else Min(startAt, |doc|);
      doc[..sa] + CopyRange(src, fp, tp) + doc[sa..]
  }

  /** insert_pdf with page numbers already in range copies them in order. */
  lemma InsertPdfRange(doc: Doc, src: Doc, fp: int, tp: int, sa: int)
    requires 0 <= fp <= tp < |src| && 0 <= sa <= |doc|
    ensures InsertPdf(doc, src, fp, tp, sa) == doc[..sa] + src[fp..tp + 1] + doc[sa..]
  {
  }

  /** insert_pdf behind the last page, with page numbers already in range. */
  lemma InsertPdfAppend(doc: Doc, src: Doc, fp: int, tp: int)
    requires 0 <= fp <= tp < |src|
    ensures InsertPdf(doc, src, fp, tp, -1) == doc + src[fp..tp + 1]
    ensures tp == |src| - 1 ==> InsertPdf(doc, src, fp, -1, -1) == doc + src[fp..]
  {
    assert doc[..|doc|] == doc && doc[|doc|..] == [];
    assert src[fp..|src|] == src[fp..];
  }

  /** Every negative to_page, and every negative from_page, means the same. */
  lemma InsertPdfNegative(doc: Doc, src: Doc, fromPage: int, toPage: int, startAt: int)
    ensures toPage < 0 ==> InsertPdf(doc, src, fromPage, toPage, startAt) == InsertPdf(doc, src, fromPage, -1, startAt)
    ensures fromPage < 0 ==> InsertPdf(doc, src, fromPage, toPage, startAt) == InsertPdf(doc, src, 0, toPage, startAt)
  {
  }

  /** Page.wrap_contents if the page is not yet wrapped, then
      Page.insert_image(page.bound(), overlay=True). */
  function Watermarked(p: Page, image: string): Page
  {
    p.(wrapped := true, overlays := p.overlays + [image])
  }
}
