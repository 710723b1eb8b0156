/** pypdfgui.py: the effect of the application's event handlers on the
    open documents. App holds the queue of sessions, the key of the
    current one and the label selected in the file bar; the handlers look
    the current session up by key on every call, as `self.pdfs[self.pdf_id]`
    does, and raise KeyError when there is none. */
module PyPdfGui {
  import opened Wrappers
  import opened Strings
  import opened Document
  import opened Utils
  import opened Manipulate

  /** A remembered mouse press: `None` before the first press, `(None,
      None)` once a release has consumed it, or a point. */
  datatype PressSlot = Unset | Cleared | At(x: real, y: real)

  /** What the open dialog returns for a chosen file. */
  datatype Opened = Opened(path: string, doc: Doc, password: Option<string>)

  /** `f"{pdf_id}"`: the key, or "None" before any document was opened. */
  function IdText(id: Option<string>): string
  {
    if id.Some? then id.value else "None"
  }

  /** `list.index(x)`: the first position of x, or None for ValueError. */
  function IndexOf(s: seq<string>, x: string): (r: Option<nat>)
    ensures r.None? <==> x !in s
    ensures r.Some? ==> r.value < |s| && s[r.value] == x && forall k :: 0 <= k < r.value ==> s[k] != x
    decreases |s|
  {
    if |s| == 0 then None
    else if s[0] == x then Some(0)
    else match IndexOf(s[1..], x)
      case None => None
      case Some(k) => Some(k + 1)
  }

  // ---------------------------------------------------------------------
  // Labels in the file bar

  /** The label get_keys gives entry i. */
  function LabelAt(q: seq<Entry>, i: nat): string
    requires i < |q|
    reads q[i].pdf
  {
    if q[i].pdf.modsMade then "*" + q[i].key else q[i].key
  }

  function Labels(q: seq<Entry>): (labels: seq<string>)
    reads Sessions(q)
    ensures |labels| == |q| && forall i :: 0 <= i < |q| ==> labels[i] == LabelAt(q, i)
  {
    seq(|q|, i requires 0 <= i < |q| reads Sessions(q) => LabelAt(q, i))
  }

  /** update_file_select: the starred label of `id` when the bar shows
      one, else `id` itself. */
  function SelectionLabel(q: seq<Entry>, id: string): string
    reads Sessions(q)
  {
    if "*" + id in Labels(q) then "*" + id else id
  }

  /** No key holds '*', as for keys built from file names without it. */
  predicate NoStarKeys(q: seq<Entry>)
  {
    forall i :: 0 <= i < |q| ==> '*' !in q[i].key
  }

  lemma NoStarAbsent(s: string)
    requires '*' !in s
    ensures forall j: nat :: !OccursAt(s, "*", j)
  {
    forall j: nat | j + 1 <= |s| ensures !OccursAt(s, "*", j) {
      assert s[j..j + 1][0] == s[j];
    }
  }

  /** Removing every '*' from a label gives back its key: the key the
      handlers take from the bar with `.replace('*', '')`. */
  lemma StripStarOfLabel(q: seq<Entry>, i: nat)
    requires i < |q| && '*' !in q[i].key
    ensures Replace(LabelAt(q, i), "*", "") == q[i].key
  {
    var key := q[i].key;
    NoStarAbsent(key);
    ReplaceAbsent(key, "*", "");
    var starred := "*" + key;
    assert starred[..1] == "*" && starred[1..] == key;
  }

  /** With distinct keys free of '*', the label update_file_select picks
      for a key is the one the bar shows for its entry, and that label is
      found at the entry's own position. */
  lemma SelectionLabelIsCurrent(q: seq<Entry>, i: nat)
    requires DistinctKeys(q) && NoStarKeys(q) && i < |q|
    ensures SelectionLabel(q, q[i].key) == LabelAt(q, i)
    ensures IndexOf(Labels(q), LabelAt(q, i)) == Some(i)
  {
    var key := q[i].key;
    var labels := Labels(q);
    forall j | 0 <= j < |q| && j != i
      ensures labels[j] != LabelAt(q, i) && labels[j] != "*" + key
    {
      var kj := q[j].key;
      assert kj != key;
      assert ("*" + kj)[1..] == kj && ("*" + key)[1..] == key;
      assert ("*" + key)[0] == '*' && ("*" + kj)[0] == '*';
      assert !q[i].pdf.modsMade ==> LabelAt(q, i) == key;
    }
    assert ("*" + key)[0] == '*';
    assert labels[i] == LabelAt(q, i);
    if !q[i].pdf.modsMade {
      assert "*" + key !in labels;
    }
  }

  lemma KeyOfNoStar(name: string, j: nat)
    requires '*' !in name
    ensures '*' !in KeyOf(name, j)
  {
    if j > 0 {
      var d := NatToString(j);
      forall k | 0 <= k < |d| ensures d[k] != '*' {
        assert IsDigit(d[k]);
      }
    }
  }

  /** Where remove_pdf puts entry b of a registry built by add_pdf when
      the entry at `pos` is removed: one place left when it stood right of
      the removed one; its session stays, and its key stays free of '*'. */
  lemma RemovedEntry(q: seq<Entry>, idx: seq<nat>, pos: nat, b: nat)
    requires Canonical(q, idx) && DistinctKeys(q) && pos < |q| && b < |q| && b != pos
    requires '*' !in q[b].pdf.name
    ensures q[pos].key in KeysOf(q) && RemovalResult(q, q[pos].key).Ok?
    ensures var res := RemovalResult(q, q[pos].key).value;
            var t := if b < pos then b else b - 1;
              |res| == |q| - 1 && res[t].pdf == q[b].pdf && '*' !in res[t].key
  {
    var key := q[pos].key;
    assert KeysOf(q)[pos] == key;
    RemovePdfRenumbers(q, idx, key);
    assert IndexOfKey(q, key) == Some(pos);
    KeyOfNoStar(q[b].pdf.name, idx[b]);
    if idx[b] > 0 {
      KeyOfNoStar(q[b].pdf.name, idx[b] - 1);
    }
  }

  /** Closing the document at position `pos` of a registry built by
      add_pdf, with more than one open and names free of '*': removal
      succeeds, the position close_current_pdf then reads exists, and the
      key it strips from that label is the entry's key. The session so
      selected is the left neighbour of the closed one, or its right
      neighbour when it was first. */
  lemma CloseSelectsNeighbour(q: seq<Entry>, idx: seq<nat>, pos: nat)
    requires Canonical(q, idx) && DistinctKeys(q) && 1 < |q| && pos < |q|
    requires forall i :: 0 <= i < |q| ==> '*' !in q[i].pdf.name
    ensures q[pos].key in KeysOf(q) && RemovalResult(q, q[pos].key).Ok?
    ensures var res := RemovalResult(q, q[pos].key).value;
            var j := if pos > 0 then pos - 1 else pos;
              |res| == |q| - 1 && j < |res| && NoStarKeys(res) &&
              Replace(LabelAt(res, j), "*", "") == res[j].key &&
              res[j].pdf == q[if pos > 0 then pos - 1 else pos + 1].pdf
  {
    var b := if pos > 0 then pos - 1 else pos + 1;
    RemovedEntry(q, idx, pos, b);
    var res := RemovalResult(q, q[pos].key).value;
    var j := if pos > 0 then pos - 1 else pos;
    forall t | 0 <= t < |res| ensures '*' !in res[t].key {
      var bt := if t < pos then t else t + 1;
      RemovedEntry(q, idx, pos, bt);
      assert (if bt < pos then bt else bt - 1) == t;
    }
    StripStarOfLabel(res, j);
  }

  // ---------------------------------------------------------------------
  // Page navigation

  /** previous_page: one page back when there is one. */
  function PreviousIndex(i: int): int
  {
    if i - 1 >= 0 then i - 1 else i
  }

  /** next_page: one page on when there is one among n pages. */
  function NextIndex(i: int, n: nat): int
  {
    if i + 1 <= n - 1 then i + 1 else i
  }

  /** Navigation keeps a valid page index valid, and moves by one page
      exactly when a page lies in that direction. */
  lemma NavigationStaysInRange(i: int, n: nat)
    requires 0 <= i < n
    ensures 0 <= PreviousIndex(i) < n && 0 <= NextIndex(i, n) < n
    ensures PreviousIndex(i) == i - 1 <==> i > 0
    ensures NextIndex(i, n) == i + 1 <==> i < n - 1
  {
  }

  /** A step forward is undone by a step back and conversely. */
  lemma NavigationInverse(i: int, n: nat)
    requires 0 <= i < n
    ensures NextIndex(i, n) != i ==> PreviousIndex(NextIndex(i, n)) == i
    ensures PreviousIndex(i) != i ==> NextIndex(PreviousIndex(i), n) == i
  {
  }

  /** The page index of a session is valid, or -1 for a document whose
      last page was deleted. The -1 case is the state event_delete leaves
      just before its update_page, whose page lookup on the empty document
      never returns (`DeleteOnlyPageHangs`); the program never gets back
      to a handler from it, and the handlers' contracts that mention it
      describe that state for completeness only. */
  predicate PageIndexOk(s: PdfDocInstance)
    reads s
  {
    (|s.doc| > 0 && 0 <= s.pageI < |s.doc|) || (|s.doc| == 0 && s.pageI == -1)
  }

  /** The first step of update_page: the page is fetched with
      `doc[page_num]`. A number at or past the page count raises
      IndexError, and a negative number on an empty document never
      returns. */
  function PageLookup(doc: Doc, pageNum: int): (r: Outcome<Error>)
    ensures r == Pass <==> |doc| > 0 && pageNum < |doc|
    ensures r == Fail(Error.NeverReturns) <==> |doc| == 0 && pageNum < 0
    ensures r != Pass && r != Fail(Error.NeverReturns) ==> r == Fail(IndexError)
  {
    match PageIndex(doc, pageNum)
    case Ok(_) => Pass
    case Err(e) => Fail(if e.NeverReturns? then Error.NeverReturns else IndexError)
  }

  /** Deleting the only page leaves an empty document, event_delete moves
      the index to -1, and the update_page that follows looks up
      `doc[-1]` on that document, which never returns: one press of
      "Delete page" on a one-page document hangs the application. */
  lemma DeleteOnlyPageHangs(p: Page)
    ensures DeletePage([p], 0) == Ok([])
    ensures PageIndex([], -1) == Err(DocError.NeverReturns)
    ensures PageLookup([], -1) == Fail(Error.NeverReturns)
  {
    assert [p][..0] + [p][1..] == [];
  }

  /** The "Delete page" entry as the "Prevent last page deletion" guard of
      update_page evidently intends it: the entry is disabled on a
      document with at most one page, so pressing it leaves the document
      and the index as they are. Otherwise the current page goes and an
      index left at the end moves back by one. The result is the new
      document and index. */
  function IntendedDelete(doc: Doc, pageI: int): Result<(Doc, int), DocError>
  {
    if |doc| <= 1 then Ok((doc, pageI))
    else match DeletePage(doc, pageI)
      case Err(e) => Err(e)
      case Ok(d) => Ok((d, if pageI == |d| then pageI - 1 else pageI))
  }

  /** From every state a session reaches when the last page cannot be
      deleted (at least one page and a valid index), the intended delete
      returns, keeps at least one page and a valid index, and the page
      lookup of the update_page after it succeeds. A one-page document is
      left as it is; a longer one loses exactly the current page. */
  lemma IntendedDeleteReturns(doc: Doc, i: int)
    requires |doc| >= 1 && 0 <= i < |doc|
    ensures IntendedDelete(doc, i).Ok?
    ensures var (d, j) := IntendedDelete(doc, i).value;
              |d| >= 1 && 0 <= j < |d| && PageLookup(d, j) == Pass
    ensures |doc| == 1 ==> IntendedDelete(doc, i).value == (doc, i)
    ensures |doc| >= 2 ==>
              var (d, j) := IntendedDelete(doc, i).value;
              d == doc[..i] + doc[i + 1..] && |d| == |doc| - 1 && j == (if i == |d| then i - 1 else i)
  {
    if |doc| >= 2 {
      DeleteRemovesPage(doc, i);
    }
  }

  /** The path open_blank_pdf gives a new document. */
  const NewFile := "New File"

  lemma NewFileIsItsBaseName()
    ensures BaseName(NewFile) == NewFile
  {
    assert forall k :: 0 <= k < |NewFile| ==> NewFile[k] != '/';
    BaseNameWithoutSlash(NewFile);
  }

  class App {
    const pdfs: PdfQueue
    var pdfId: Option<string>
    var fileSelected: string
    var activeHighlightStart: PressSlot
    var activeRedactStart: PressSlot

    /** The application's document state as __init__ leaves it. */
    constructor ()
      ensures fresh(pdfs) && pdfs.queue == [] && pdfId == None && fileSelected == ""
      ensures activeHighlightStart == Unset && activeRedactStart == Cleared
    {
      pdfs := new PdfQueue();
      pdfId := None;
      fileSelected := "";
      activeHighlightStart := Unset;
      activeRedactStart := Cleared;
    }

    /** `self.pdfs[self.pdf_id]`, or None where that raises KeyError. */
    function Current(): (r: Option<PdfDocInstance>)
      reads this`pdfId, pdfs`queue
      ensures r.Some? <==> pdfId.Some? && pdfId.value in KeysOf(pdfs.queue)
      ensures r.Some? ==> exists i :: 0 <= i < |pdfs.queue| && pdfs.queue[i] == Entry(pdfId.value, r.value)
    {
      if pdfId.None? then None
      else match IndexOfKey(pdfs.queue, pdfId.value)
        case None => None
        case Some(i) => Some(pdfs.queue[i].pdf)
    }

    function CurrentSet(): set<PdfDocInstance>
      reads this`pdfId, pdfs`queue
    {
      if Current().Some? then {Current().value} else {}
    }

    /** update_file_select */
    method UpdateFileSelect()
      modifies this`fileSelected
      ensures fileSelected == SelectionLabel(pdfs.queue, IdText(pdfId))
    {
      ghost var wanted := SelectionLabel(pdfs.queue, IdText(pdfId));
      ghost var shown := Labels(pdfs.queue);
      var keys := pdfs.GetKeys();
      assert shown == Labels(pdfs.queue);
      assert keys == shown;
      var starred := "*" + IdText(pdfId);
      if starred in keys {
        fileSelected := starred;
      } else {
        fileSelected := IdText(pdfId);
      }
      assert fileSelected == wanted && Labels(pdfs.queue) == shown;
    }

    /** App.set_unsaved: the current session is marked modified and the
        bar refreshed, only when it was not marked already. */
    method SetUnsaved() returns (r: Outcome<Error>)
      modifies Sessions(pdfs.queue)`modsMade, this`fileSelected
      ensures old(Current()).None? ==> r == Fail(KeyError) && fileSelected == old(fileSelected)
      ensures old(Current()).Some? ==>
                r == Pass && Current().value.modsMade &&
                fileSelected == (if old(Current().value.modsMade) then old(fileSelected) else SelectionLabel(pdfs.queue, IdText(pdfId)))
      ensures forall s :: s in Sessions(pdfs.queue) && (Current().None? || s != Current().value) ==>
                s.modsMade == old(s.modsMade)
    {
      var cur := Current();
      if cur.None? {
        return Fail(KeyError);
      }
      if !cur.value.modsMade {
        var done := pdfs.SetUnsaved(pdfId.value);
        UpdateFileSelect();
      }
      r := Pass;
    }

    /** App.set_saved: the current session is marked saved and the bar
        refreshed, only when it was marked modified. */
    method SetSaved() returns (r: Outcome<Error>)
      modifies Sessions(pdfs.queue)`modsMade, this`fileSelected
      ensures old(Current()).None? ==> r == Fail(KeyError) && fileSelected == old(fileSelected)
      ensures old(Current()).Some? ==>
                r == Pass && !Current().value.modsMade &&
                fileSelected == (if old(Current().value.modsMade) then SelectionLabel(pdfs.queue, IdText(pdfId)) else old(fileSelected))
      ensures forall s :: s in Sessions(pdfs.queue) && (Current().None? || s != Current().value) ==>
                s.modsMade == old(s.modsMade)
    {
      var cur := Current();
      if cur.None? {
        return Fail(KeyError);
      }
      if cur.value.modsMade {
        var done := pdfs.SetSaved(pdfId.value);
        UpdateFileSelect();
      }
      r := Pass;
    }

    /** previous_page */
    method PreviousPage() returns (r: Outcome<Error>)
      modifies CurrentSet()`pageI
      ensures old(Current()).None? ==> r == Fail(KeyError)
      ensures old(Current()).Some? ==>
                var s := old(Current()).value;
                r == Pass && s.pageI == PreviousIndex(old(s.pageI)) &&
                (old(PageIndexOk(s)) ==> PageIndexOk(s))
    {
      var cur := Current();
      if cur.None? {
        return Fail(KeyError);
      }
      var s := cur.value;
      if s.pageI - 1 >= 0 {
        s.pageI := s.pageI - 1;
      }
      r := Pass;
    }

    /** next_page */
    method NextPage() returns (r: Outcome<Error>)
      modifies CurrentSet()`pageI
      ensures old(Current()).None? ==> r == Fail(KeyError)
      ensures old(Current()).Some? ==>
                var s := old(Current()).value;
                r == Pass && s.pageI == NextIndex(old(s.pageI), |s.doc|) &&
                (old(PageIndexOk(s)) ==> PageIndexOk(s))
    {
      var cur := Current();
      if cur.None? {
        return Fail(KeyError);
      }
      var s := cur.value;
      if s.pageI + 1 <= |s.doc| - 1 {
        s.pageI := s.pageI + 1;
      }
      r := Pass;
    }

    /** event_insert_page: a blank page and an empty markup slot at the
        current index; the index stays. */
    method EventInsertPage() returns (r: Outcome<Error>)
      modifies Sessions(pdfs.queue)`modsMade, this`fileSelected
      modifies CurrentSet()`doc, CurrentSet()`freehandPoints, CurrentSet()`redactPoints, CurrentSet()`highlightPoints
      ensures old(Current()).None? ==> r == Fail(KeyError)
      ensures old(Current()).Some? ==>
                var s := old(Current()).value;
                var i := old(s.pageI);
                s.modsMade && s.pageI == i &&
                (InsertPage(old(s.doc), i).Err? ==>
                   (r == Fail(ValueError) && s.doc == old(s.doc) && s.freehandPoints == old(s.freehandPoints))) &&
                (InsertPage(old(s.doc), i).Ok? ==>
                   r == Pass && s.doc == InsertPage(old(s.doc), i).value &&
                   s.freehandPoints == ListInsert(old(s.freehandPoints), i, []) &&
                   s.redactPoints == ListInsert(old(s.redactPoints), i, []) &&
                   s.highlightPoints == ListInsert(old(s.highlightPoints), i, []))
      ensures old(Current()).Some? && old(Current().value.InSync()) && old(PageIndexOk(Current().value)) &&
              old(Current().value.pageI) >= 0 ==>
                r == Pass && Current().value.InSync() && PageIndexOk(Current().value) &&
                |Current().value.doc| == old(|Current().value.doc|) + 1
      ensures old(Current()).Some? && old(Current().value.InSync()) && old(|Current().value.doc|) == 0 &&
              old(Current().value.pageI) == -1 ==>
                r == Pass && Current().value.InSync() && Current().value.doc == [BlankPage]
    {
      var marked := SetUnsaved();
      if marked.Fail? {
        return marked;
      }
      var s := Current().value;
      r := InsertPageOf(s);
      assert Current() == old(Current());
    }

    /** The part of event_insert_page that works on one session. */
    static method InsertPageOf(s: PdfDocInstance) returns (r: Outcome<Error>)
      modifies s`doc, s`freehandPoints, s`redactPoints, s`highlightPoints
      ensures s.pageI == old(s.pageI)
      ensures InsertPage(old(s.doc), old(s.pageI)).Err? ==>
                r == Fail(ValueError) && s.doc == old(s.doc) && s.freehandPoints == old(s.freehandPoints)
      ensures InsertPage(old(s.doc), old(s.pageI)).Ok? ==>
                var i := old(s.pageI);
                r == Pass && s.doc == InsertPage(old(s.doc), i).value &&
                s.freehandPoints == ListInsert(old(s.freehandPoints), i, []) &&
                s.redactPoints == ListInsert(old(s.redactPoints), i, []) &&
                s.highlightPoints == ListInsert(old(s.highlightPoints), i, [])
      ensures old(s.InSync()) && old(PageIndexOk(s)) && old(s.pageI) >= 0 ==>
                r == Pass && s.InSync() && PageIndexOk(s) && |s.doc| == old(|s.doc|) + 1
      ensures old(s.InSync()) && old(|s.doc|) == 0 && old(s.pageI) == -1 ==>
                r == Pass && s.InSync() && s.doc == [BlankPage]
    {
      var inserter := new PdfManipulator(s.doc, None);
      var done := inserter.Insert(s.pageI);
      if done.Fail? {
        return Fail(ValueError);
      }
      s.doc := inserter.Get();
      s.AddPageData(s.pageI);
      r := Pass;
    }

    /** event_delete: the current page and its markup slot go; an index
        left past the end moves back by one, and update_page then looks the
        page at that index up. Deleting the only page leaves the index at
        -1 on an empty document, where that lookup never returns. */
    method EventDelete() returns (r: Outcome<Error>)
      modifies Sessions(pdfs.queue)`modsMade, this`fileSelected
      modifies CurrentSet()`doc, CurrentSet()`freehandPoints, CurrentSet()`redactPoints
      modifies CurrentSet()`highlightPoints, CurrentSet()`pageI
      ensures old(Current()).None? ==> r == Fail(KeyError)
      ensures old(Current()).Some? ==>
                var s := old(Current()).value;
                var i := old(s.pageI);
                s.modsMade &&
                (DeletePage(old(s.doc), i).Err? ==>
                   (r == Fail(if DeletePage(old(s.doc), i).error.NeverReturns? then Error.NeverReturns else ValueError) &&
                    s.doc == old(s.doc) && s.pageI == i && s.freehandPoints == old(s.freehandPoints)))
      ensures old(Current()).Some? && old(Current().value.InSync()) && old(PageIndexOk(Current().value)) &&
              old(|Current().value.doc|) > 0 ==>
                var s := Current().value;
                var i := old(s.pageI);
                s.InSync() && PageIndexOk(s) &&
                s.doc == DeletePage(old(s.doc), i).value &&
                s.freehandPoints == ListDelete(old(s.freehandPoints), i).value &&
                s.redactPoints == ListDelete(old(s.redactPoints), i).value &&
                s.highlightPoints == ListDelete(old(s.highlightPoints), i).value &&
                s.pageI == (if i == |s.doc| then i - 1 else i) &&
                (old(|Current().value.doc|) >= 2 ==> r == Pass) &&
                (old(|Current().value.doc|) == 1 ==> r == Fail(Error.NeverReturns) && s.doc == [] && s.pageI == -1)
      ensures old(Current()).Some? && old(PageIndexOk(Current().value)) && old(|Current().value.doc|) == 0 ==>
                r == Fail(Error.NeverReturns)
    {
      var marked := SetUnsaved();
      if marked.Fail? {
        return marked;
      }
      var s := Current().value;
      r := DeletePageOf(s);
      assert Current() == old(Current());
      if r.Pass? {
        r := PageLookup(s.doc, s.pageI);
      }
    }

    /** The part of event_delete that works on one session. */
    static method DeletePageOf(s: PdfDocInstance) returns (r: Outcome<Error>)
      modifies s`doc, s`freehandPoints, s`redactPoints, s`highlightPoints, s`pageI
      ensures DeletePage(old(s.doc), old(s.pageI)).Err? ==>
                r == Fail(if DeletePage(old(s.doc), old(s.pageI)).error.NeverReturns? then Error.NeverReturns else ValueError) &&
                s.doc == old(s.doc) && s.pageI == old(s.pageI) && s.freehandPoints == old(s.freehandPoints)
      ensures DeletePage(old(s.doc), old(s.pageI)).Ok? ==>
                s.doc == DeletePage(old(s.doc), old(s.pageI)).value && (r == Pass || r == Fail(IndexError))
      ensures old(s.InSync()) && old(PageIndexOk(s)) && old(|s.doc|) > 0 ==>
                var i := old(s.pageI);
                r == Pass && s.InSync() && PageIndexOk(s) &&
                s.doc == DeletePage(old(s.doc), i).value &&
                s.freehandPoints == ListDelete(old(s.freehandPoints), i).value &&
                s.redactPoints == ListDelete(old(s.redactPoints), i).value &&
                s.highlightPoints == ListDelete(old(s.highlightPoints), i).value &&
                s.pageI == (if i == |s.doc| then i - 1 else i)
      ensures old(PageIndexOk(s)) && old(|s.doc|) == 0 ==> r == Fail(Error.NeverReturns) && s.doc == []
    {
      var deleter := new PdfManipulator(s.doc, None);
      var done := deleter.Delete(s.pageI);
      if done.Fail? {
        return Fail(if done.error.NeverReturns? then Error.NeverReturns else ValueError);
      }
      s.doc := deleter.Get();
      var removed := s.RemovePageData(s.pageI);
      if removed.Fail? {
        return removed;
      }
      if s.pageI == |s.doc| {
        s.pageI := s.pageI - 1;
      }
      r := Pass;
    }

    /** event_compress: basic compression toggles. */
    method EventCompress() returns (r: Outcome<Error>)
      modifies Sessions(pdfs.queue)`modsMade, this`fileSelected, CurrentSet()`compressBasic
      ensures old(Current()).None? ==> r == Fail(KeyError)
      ensures old(Current()).Some? ==>
                var s := old(Current()).value;
                r == Pass && s.modsMade && s.compressBasic == !old(s.compressBasic)
    {
      var marked := SetUnsaved();
      if marked.Fail? {
        return marked;
      }
      var s := Current().value;
      if s.compressBasic == false {
        s.compressBasic := true;
      } else {
        s.compressBasic := false;
      }
      r := Pass;
    }

    /** event_compress_max: both flags turn on when maximum compression
        was off, and both off when it was on. */
    method EventCompressMax() returns (r: Outcome<Error>)
      modifies Sessions(pdfs.queue)`modsMade, this`fileSelected
      modifies CurrentSet()`compressBasic, CurrentSet()`compressMax
      ensures old(Current()).None? ==> r == Fail(KeyError)
      ensures old(Current()).Some? ==>
                var s := old(Current()).value;
                r == Pass && s.modsMade &&
                s.compressMax == !old(s.compressMax) && s.compressBasic == s.compressMax
    {
      var marked := SetUnsaved();
      if marked.Fail? {
        return marked;
      }
      var s := Current().value;
      if s.compressMax == false {
        s.compressBasic := true;
        s.compressMax := true;
      } else {
        s.compressBasic := false;
        s.compressMax := false;
      }
      r := Pass;
    }

    /** event_set_encryption with the two dialog answers (None for a
        cancel): the password is set only when both answers agree and are
        not empty. The session is marked modified in every case. */
    method EventSetEncryption(p1: Option<string>, p2: Option<string>) returns (r: Outcome<Error>)
      modifies Sessions(pdfs.queue)`modsMade, this`fileSelected, CurrentSet()`password
      ensures old(Current()).None? ==> r == Fail(KeyError)
      ensures old(Current()).Some? ==>
                var s := old(Current()).value;
                r == Pass && s.modsMade &&
                s.password == (if p1.Some? && p2.Some? && p1 == p2 && p1.value != "" then p1 else old(s.password))
    {
      var marked := SetUnsaved();
      if marked.Fail? {
        return marked;
      }
      if p1.None? || p2.None? {
        return Pass;
      }
      if p1.value == p2.value && p1.value != "" {
        var s := Current().value;
        s.password := p1;
      }
      r := Pass;
    }

    /** event_remove_encryption */
    method EventRemoveEncryption() returns (r: Outcome<Error>)
      modifies Sessions(pdfs.queue)`modsMade, this`fileSelected, CurrentSet()`password
      ensures old(Current()).None? ==> r == Fail(KeyError)
      ensures old(Current()).Some? ==>
                var s := old(Current()).value;
                r == Pass && s.modsMade && s.password == None
    {
      var marked := SetUnsaved();
      if marked.Fail? {
        return marked;
      }
      var s := Current().value;
      s.password := None;
      r := Pass;
    }

    /** freehand_mouse_add_coords, with the scaled point and the size of
        the rendered page: a point off the page is ignored. */
    method FreehandMouseAddCoords(p: Point, width: real, height: real) returns (r: Outcome<Error>)
      modifies CurrentSet()`activeStroke
      ensures var outside := p.0 < 0.0 || p.0 > width || p.1 > height || p.1 < 0.0;
              (outside ==> r == Pass) &&
              (!outside && old(Current()).None? ==> r == Fail(KeyError)) &&
              (!outside && old(Current()).Some? ==>
                 var s := old(Current()).value;
                 r == Pass && s.activeStroke == old(s.activeStroke) + [p])
    {
      if p.0 < 0.0 || p.0 > width || p.1 > height || p.1 < 0.0 {
        return Pass;
      }
      var cur := Current();
      if cur.None? {
        return Fail(KeyError);
      }
      var s := cur.value;
      s.activeStroke := s.activeStroke + [p];
      r := Pass;
    }

    /** freehand_mouse_set_end: a stroke of more than one point joins the
        current page's strokes and marks the session modified; the active
        stroke is emptied either way. */
    method FreehandMouseSetEnd() returns (r: Outcome<Error>)
      modifies Sessions(pdfs.queue)`modsMade, this`fileSelected
      modifies CurrentSet()`freehandPoints, CurrentSet()`activeStroke
      ensures old(Current()).None? ==> r == Fail(KeyError)
      ensures old(Current()).Some? ==>
                var s := old(Current()).value;
                var stroke := old(s.activeStroke);
                var k := ListIndex(|old(s.freehandPoints)|, old(s.pageI));
                (|stroke| <= 1 ==>
                   r == Pass && s.freehandPoints == old(s.freehandPoints) && s.activeStroke == [] &&
                   s.modsMade == old(s.modsMade)) &&
                (|stroke| > 1 && k.None? ==>
                   r == Fail(IndexError) && s.freehandPoints == old(s.freehandPoints) && s.activeStroke == stroke) &&
                (|stroke| > 1 && k.Some? ==>
                   r == Pass && s.activeStroke == [] && s.modsMade &&
                   s.freehandPoints == old(s.freehandPoints)[k.value := old(s.freehandPoints)[k.value] + [stroke]])
      ensures old(Current()).Some? && old(Current().value.InSync()) ==> Current().value.InSync()
    {
      var cur := Current();
      if cur.None? {
        return Fail(KeyError);
      }
      var s := cur.value;
      if |s.activeStroke| > 1 {
        var k := ListIndex(|s.freehandPoints|, s.pageI);
        if k.None? {
          return Fail(IndexError);
        }
        s.freehandPoints := s.freehandPoints[k.value := s.freehandPoints[k.value] + [s.activeStroke]];
        var marked := SetUnsaved();
      }
      s.activeStroke := [];
      r := Pass;
    }

    /** highlight_mouse_set_start, with the scaled point. */
    method HighlightMouseSetStart(p: Point)
      modifies this`activeHighlightStart
      ensures activeHighlightStart == At(p.0, p.1)
    {
      activeHighlightStart := At(p.0, p.1);
    }

    /** highlight_mouse_set_end, with the scaled point: a rectangle from
        the press to here joins the current page's highlights unless it is
        a single point; the press is consumed in both cases. Before any
        press, indexing `None` raises TypeError. */
    method HighlightMouseSetEnd(p: Point) returns (r: Outcome<Error>)
      modifies Sessions(pdfs.queue)`modsMade, this`fileSelected, this`activeHighlightStart
      modifies CurrentSet()`highlightPoints
      ensures old(activeHighlightStart).Unset? ==> r == Fail(TypeError) && activeHighlightStart == Unset
      ensures old(activeHighlightStart).Cleared? ==> r == Pass && activeHighlightStart == Cleared
      ensures old(activeHighlightStart).At? && old(activeHighlightStart) == At(p.0, p.1) ==>
                r == Pass && activeHighlightStart == Cleared
      ensures old(activeHighlightStart).At? && old(activeHighlightStart) != At(p.0, p.1) ==>
                var start := old(activeHighlightStart);
                var rect := Rect(start.x, start.y, p.0, p.1);
                (old(Current()).None? ==> r == Fail(KeyError) && activeHighlightStart == start) &&
                (old(Current()).Some? ==>
                   var s := old(Current()).value;
                   var k := ListIndex(|old(s.highlightPoints)|, s.pageI);
                   (k.None? ==>
                      (r == Fail(IndexError) && s.highlightPoints == old(s.highlightPoints) &&
                       activeHighlightStart == start)) &&
                   (k.Some? ==>
                      (r == Pass && activeHighlightStart == Cleared && s.modsMade &&
                       s.highlightPoints == old(s.highlightPoints)[k.value := old(s.highlightPoints)[k.value] + [rect]])))
      ensures old(Current()).Some? ==> |Current().value.highlightPoints| == old(|Current().value.highlightPoints|)
    {
      match activeHighlightStart {
        case Unset =>
          return Fail(TypeError);
        case Cleared =>
          return Pass;
        case At(x, y) =>
          if x == p.0 && y == p.1 {
            activeHighlightStart := Cleared;
            return Pass;
          }
          var cur := Current();
          if cur.None? {
            return Fail(KeyError);
          }
          var s := cur.value;
          var k := ListIndex(|s.highlightPoints|, s.pageI);
          if k.None? {
            return Fail(IndexError);
          }
          s.highlightPoints := s.highlightPoints[k.value := s.highlightPoints[k.value] + [Rect(x, y, p.0, p.1)]];
          activeHighlightStart := Cleared;
          var marked := SetUnsaved();
          r := Pass;
      }
    }

    /** redact_mouse_set_start, with the event's point. */
    method RedactMouseSetStart(p: Point)
      modifies this`activeRedactStart
      ensures activeRedactStart == At(p.0, p.1)
    {
      activeRedactStart := At(p.0, p.1);
    }

    /** redact_mouse_set_end, with the event's point: after a press, the
        rectangle from the press to here joins the current page's
        redactions, even when it is a single point. */
    method RedactMouseSetEnd(p: Point) returns (r: Outcome<Error>)
      modifies Sessions(pdfs.queue)`modsMade, this`fileSelected, this`activeRedactStart
      modifies CurrentSet()`redactPoints
      ensures old(activeRedactStart).Unset? ==> r == Fail(TypeError) && activeRedactStart == Unset
      ensures old(activeRedactStart).Cleared? ==> r == Pass && activeRedactStart == Cleared
      ensures old(activeRedactStart).At? ==>
                var start := old(activeRedactStart);
                var rect := Rect(start.x, start.y, p.0, p.1);
                (old(Current()).None? ==> r == Fail(KeyError) && activeRedactStart == start) &&
                (old(Current()).Some? ==>
                   var s := old(Current()).value;
                   var k := ListIndex(|old(s.redactPoints)|, s.pageI);
                   (k.None? ==>
                      (r == Fail(IndexError) && s.redactPoints == old(s.redactPoints) &&
                       activeRedactStart == start)) &&
                   (k.Some? ==>
                      (r == Pass && activeRedactStart == Cleared && s.modsMade &&
                       s.redactPoints == old(s.redactPoints)[k.value := old(s.redactPoints)[k.value] + [rect]])))
      ensures old(Current()).Some? ==> |Current().value.redactPoints| == old(|Current().value.redactPoints|)
    {
      match activeRedactStart {
        case Unset =>
          return Fail(TypeError);
        case Cleared =>
          return Pass;
        case At(x, y) =>
          var cur := Current();
          if cur.None? {
            return Fail(KeyError);
          }
          var s := cur.value;
          var k := ListIndex(|s.redactPoints|, s.pageI);
          if k.None? {
            return Fail(IndexError);
          }
          s.redactPoints := s.redactPoints[k.value := s.redactPoints[k.value] + [Rect(x, y, p.0, p.1)]];
          activeRedactStart := Cleared;
          var marked := SetUnsaved();
          r := Pass;
      }
    }

    /** The part of open_new_pdf and open_blank_pdf after the document is
        in hand: it is queued under a fresh key, which becomes current. */
    method OpenSession(path: string, doc: Doc, password: Option<string>) returns (key: string, inst: PdfDocInstance)
      modifies pdfs`queue, this`pdfId, this`fileSelected
      ensures fresh(inst) && inst.doc == doc && inst.name == BaseName(path) && inst.password == password
      ensures !inst.modsMade && inst.pageI == 0
      ensures inst.InSync() && PageIndexOk(inst) <==> |doc| > 0
      ensures key !in KeysOf(old(pdfs.queue)) && pdfs.queue == old(pdfs.queue) + [Entry(key, inst)]
      ensures key == inst.name <==> inst.name !in KeysOf(old(pdfs.queue))
      ensures pdfId == Some(key) && Current() == Some(inst) && fileSelected == SelectionLabel(pdfs.queue, IdText(pdfId))
    {
      inst := new PdfDocInstance(path, doc, password);
      var added := pdfs.AddPdf(Instance(inst));
      key := added.value;
      if inst.name in KeysOf(old(pdfs.queue)) {
        var j: nat :| j >= 1 && added == Ok(KeyOf(inst.name, j));
        assert |key| > |inst.name|;
      }
      pdfId := Some(key);
      assert KeysOf(pdfs.queue)[|pdfs.queue| - 1] == key;
      assert IndexOfKey(pdfs.queue, key) == Some(|pdfs.queue| - 1) by {
        assert forall i :: 0 <= i < |old(pdfs.queue)| ==> pdfs.queue[i].key != key;
      }
      fileSelected := key;
      UpdateFileSelect();
    }

    /** open_blank_pdf: a one-page blank document named "New File" with an
        empty password. */
    method OpenBlankPdf() returns (key: string, inst: PdfDocInstance)
      modifies pdfs`queue, this`pdfId, this`fileSelected
      ensures fresh(inst) && inst.doc == CreateBlankPdf() && inst.name == NewFile && inst.password == Some("")
      ensures inst.InSync() && PageIndexOk(inst) && !inst.modsMade
      ensures key !in KeysOf(old(pdfs.queue)) && pdfs.queue == old(pdfs.queue) + [Entry(key, inst)]
      ensures pdfId == Some(key) && Current() == Some(inst) && fileSelected == SelectionLabel(pdfs.queue, IdText(pdfId))
    {
      NewFileIsItsBaseName();
      key, inst := OpenSession(NewFile, CreateBlankPdf(), Some(""));
    }

    /** open_new_pdf with the dialog's answer; a cancelled dialog (None)
        changes nothing. */
    method OpenNewPdf(result: Option<Opened>) returns (key: Option<string>)
      modifies pdfs`queue, this`pdfId, this`fileSelected
      ensures result.None? ==>
                (key.None? && pdfs.queue == old(pdfs.queue) && pdfId == old(pdfId) && fileSelected == old(fileSelected))
      ensures result.Some? ==>
                key.Some? && key.value !in KeysOf(old(pdfs.queue)) && |pdfs.queue| == old(|pdfs.queue|) + 1 &&
                pdfs.queue[..old(|pdfs.queue|)] == old(pdfs.queue) &&
                pdfs.queue[old(|pdfs.queue|)].key == key.value &&
                pdfId == key && Current().Some? && Current().value.doc == result.value.doc &&
                fileSelected == SelectionLabel(pdfs.queue, IdText(pdfId))
    {
      if result.None? {
        return None;
      }
      var k, inst := OpenSession(result.value.path, result.value.doc, result.value.password);
      key := Some(k);
    }

    /** The end of close_current_pdf once the closed session is gone: the
        label at pos - 1 (at pos when pos is 0) names the new current
        session, with every '*' removed; when no session has that key,
        the lookup for the page display raises KeyError before the bar's
        selection is refreshed. */
    method SelectNeighbour(pos: nat) returns (r: Outcome<Error>)
      modifies this`pdfId, this`fileSelected
      ensures var j := if pos > 0 then pos - 1 else pos;
              (j >= |pdfs.queue| ==> r == Fail(IndexError) && pdfId == old(pdfId) && fileSelected == old(fileSelected)) &&
              (j < |pdfs.queue| ==>
                 pdfId == Some(Replace(LabelAt(pdfs.queue, j), "*", "")) &&
                 (pdfId.value !in KeysOf(pdfs.queue) ==> r == Fail(KeyError) && fileSelected == old(fileSelected)) &&
                 (pdfId.value in KeysOf(pdfs.queue) ==>
                    r == Pass && fileSelected == SelectionLabel(pdfs.queue, IdText(pdfId))))
    {
      var after := pdfs.GetKeys();
      assert after == Labels(pdfs.queue);
      var j := if pos > 0 then pos - 1 else pos;
      if j >= |after| {
        return Fail(IndexError);
      }
      ghost var q1 := pdfs.queue;
      assert after[j] == LabelAt(q1, j);
      pdfId := Some(Replace(after[j], "*", ""));
      if Current().None? {
        return Fail(KeyError);
      }
      UpdateFileSelect();
      assert pdfs.queue == q1;
      r := Pass;
    }

    /** What close_current_pdf does once the closed label's position `pos`
        among `count` labels is known: the session keyed by the old
        `pdf_id` leaves the queue (or the removal's error is reported and
        nothing changes); with others open, the one whose label stood left
        of the closed one's becomes current, or the one now at its place
        when it was first, keyed by its label with every '*' removed (a
        KeyError when no session has that key). When it was the last,
        `pdf_id` keeps the closed key. */
    twostate predicate ClosedAt(pos: nat, count: nat, new r: Outcome<Error>)
      reads this, pdfs, Sessions(pdfs.queue)
    {
      old(pdfId).Some? &&
      var removal := RemovalResult(old(pdfs.queue), old(pdfId).value);
      (removal.Err? ==>
         r == Fail(removal.error) && pdfs.queue == old(pdfs.queue) && pdfId == old(pdfId) &&
         fileSelected == old(fileSelected)) &&
      (removal.Ok? && count <= 1 ==>
         r == Pass && pdfs.queue == removal.value && pdfId == old(pdfId) && fileSelected == old(fileSelected)) &&
      (removal.Ok? && count > 1 ==>
         var j := if pos > 0 then pos - 1 else pos;
         pdfs.queue == removal.value &&
         (j >= |pdfs.queue| ==> r == Fail(IndexError) && pdfId == old(pdfId) && fileSelected == old(fileSelected)) &&
         (j < |pdfs.queue| ==>
            pdfId == Some(Replace(LabelAt(pdfs.queue, j), "*", "")) &&
            (pdfId.value !in KeysOf(pdfs.queue) ==> r == Fail(KeyError) && fileSelected == old(fileSelected)) &&
            (pdfId.value in KeysOf(pdfs.queue) ==>
               r == Pass && fileSelected == SelectionLabel(pdfs.queue, IdText(pdfId)))))
    }

    /** close_current_pdf: nothing happens without a current document; a
        ValueError when the bar's selection is not among the labels;
        otherwise the current document is closed as ClosedAt says. */
    method CloseCurrentPdf() returns (r: Outcome<Error>)
      modifies pdfs`queue, this`pdfId, this`fileSelected
      ensures old(Current()).None? ==>
                r == Pass && pdfs.queue == old(pdfs.queue) && pdfId == old(pdfId) && fileSelected == old(fileSelected)
      ensures old(Current()).Some? && IndexOf(old(Labels(pdfs.queue)), old(fileSelected)).None? ==>
                r == Fail(ValueError) && pdfs.queue == old(pdfs.queue) && pdfId == old(pdfId) &&
                fileSelected == old(fileSelected)
      ensures old(Current()).Some? && IndexOf(old(Labels(pdfs.queue)), old(fileSelected)).Some? ==>
                ClosedAt(IndexOf(old(Labels(pdfs.queue)), old(fileSelected)).value, old(|pdfs.queue|), r)
    {
      ghost var labels0 := Labels(pdfs.queue);
      var cur := Current();
      if cur.None? {
        return Pass;
      }
      var labels := pdfs.GetKeys();
      assert labels == labels0;
      var pos := IndexOf(labels, fileSelected);
      if pos.None? {
        return Fail(ValueError);
      }
      r := CloseAt(pos.value, |labels|);
    }

    /** The part of close_current_pdf after the closed label's position is
        known. */
    method CloseAt(pos: nat, count: nat) returns (r: Outcome<Error>)
      requires pdfId.Some? && count == |pdfs.queue|
      modifies pdfs`queue, this`pdfId, this`fileSelected
      ensures ClosedAt(pos, count, r)
    {
      ghost var removal := RemovalResult(pdfs.queue, pdfId.value);
      var removed := pdfs.RemovePdf(pdfId.value);
      if removed.Fail? {
        assert removal.Err?;
        return removed;
      }
      assert removal.Ok? && pdfs.queue == removal.value;
      if count <= 1 {
        return Pass;
      }
      r := SelectNeighbour(pos);
    }
  }

  /** Under the state open_session and the handlers keep (distinct keys
      of the add_pdf form, names free of '*', the bar showing the current
      label), close_current_pdf reads the current session's own position,
      and the key it selects next is that of the neighbouring session. */
  lemma CloseReadsOwnPosition(q: seq<Entry>, idx: seq<nat>, i: nat)
    requires Canonical(q, idx) && DistinctKeys(q) && 1 < |q| && i < |q|
    requires forall k :: 0 <= k < |q| ==> '*' !in q[k].pdf.name
    ensures IndexOf(Labels(q), SelectionLabel(q, q[i].key)) == Some(i)
    ensures var res := RemovalResult(q, q[i].key);
            var j := if i > 0 then i - 1 else i;
              res.Ok? && j < |res.value| &&
              Replace(LabelAt(res.value, j), "*", "") == res.value[j].key &&
              res.value[j].pdf == q[if i > 0 then i - 1 else i + 1].pdf
  {
    forall t | 0 <= t < |q| ensures '*' !in q[t].key {
      KeyOfNoStar(q[t].pdf.name, idx[t]);
    }
    SelectionLabelIsCurrent(q, i);
    CloseSelectsNeighbour(q, idx, i);
  }
}
