/** save.py: save_pdf, as the sequence of library operations it performs on
    a session. The filename comes from a prompt, is normalised, the
    compression options come from the session's two flags, the metadata is
    completed, the document is written once plain, the markup is committed
    page by page, and the document is written again, encrypted when the
    session has a password. */
module Save {
  import opened Wrappers
  import opened Strings
  import opened Utils

  datatype EncryptMethod = Aes256

  /** The PyMuPDF permission flags save_pdf grants. */
  datatype Permission = Accessibility | Print | Copy | Annotate

  datatype Encryption = Encryption(algorithm: EncryptMethod, ownerPw: string, userPw: string, permissions: set<Permission>)

  /** One library call made during a save. */
  datatype SaveOp =
    | SetMetadata(metadata: map<string, Option<string>>)
    | Write(path: string, deflate: bool, garbage: nat, encryption: Option<Encryption>)
    | InkAnnot(page: nat, strokes: seq<Stroke>)
    | RedactAnnot(page: nat, rect: Rect)
    | ApplyRedactions(page: nat)
    | HighlightAnnot(page: nat, rect: Rect)

  /** A dialog answer that ends the prompt loop: not cancelled, not empty. */
  predicate Named(answer: Option<string>)
  {
    answer.Some? && answer.value != ""
  }

  /** The index of the first answer that names a file. */
  function FirstNamed(answers: seq<Option<string>>): (r: Option<nat>)
    ensures r.Some? ==> r.value < |answers| && Named(answers[r.value])
    ensures forall k :: 0 <= k < |answers| && (r.None? || k < r.value) ==> !Named(answers[k])
  {
    if |answers| == 0 then None
    else if Named(answers[0]) then Some(0)
    else match FirstNamed(answers[1..])
      case None => None
      case Some(k) => Some(k + 1)
  }

  /** How the filename prompt ends: with a name; with a cancelled or empty
      answer to an unforced save; or, when the recorded answers run out
      before either, with a dialog still open. */
  datatype PromptEnd = Answered(name: string) | Cancelled | StillAsking

  /** The end of the prompt, given the user's successive answers (None for
      a cancelled dialog). A forced save asks until a name is given and so
      is never cancelled; otherwise one cancelled or empty answer ends the
      save. */
  function PromptAnswer(answers: seq<Option<string>>, forcedSave: bool): (r: PromptEnd)
    ensures r.Answered? ==> r.name != ""
    ensures forcedSave ==> !r.Cancelled?
    ensures !forcedSave ==> (r.Answered? <==> |answers| > 0 && Named(answers[0]))
    ensures !forcedSave ==> (r.Cancelled? <==> |answers| > 0 && !Named(answers[0]))
    ensures !forcedSave && r.Answered? ==> answers[0] == Some(r.name)
    ensures forcedSave ==> (r.Answered? <==> exists k :: 0 <= k < |answers| && Named(answers[k]))
    ensures forcedSave && r.Answered? ==>
              exists k :: 0 <= k < |answers| && answers[k] == Some(r.name) &&
                forall i :: 0 <= i < k ==> !Named(answers[i])
  {
    if !forcedSave then
      if |answers| == 0 then StillAsking
      else if Named(answers[0]) then Answered(answers[0].value) else Cancelled
    else match FirstNamed(answers)
      case None => StillAsking
      case Some(k) => Answered(answers[k].value)
  }

  /** file_path.lower().replace(".pdf", "") + ".pdf" */
  function NormaliseFilename(input: string): (path: string)
    ensures EndsWith(path, ".pdf") && IsLowerCase(path)
    ensures Find(Lower(input), ".pdf").None? ==> path == Lower(input) + ".pdf"
  {
    var stem := Replace(Lower(input), ".pdf", "");
    ReplaceChars(Lower(input), ".pdf", "");
    ReplaceNotFound(Lower(input), ".pdf", "");
    assert IsLowerCase(stem) by {
      forall i | 0 <= i < |stem| ensures !IsUpper(stem[i]) {
        assert stem[i] in stem;
        var j :| 0 <= j < |Lower(input)| && Lower(input)[j] == stem[i];
      }
    }
    assert (stem + ".pdf")[|stem| + 4 - 4..] == ".pdf";
    stem + ".pdf"
  }

  /** The case the replacement is for: a name typed with a `.pdf`
      extension in any letter case, and no other `.pdf` in it, keeps its
      lower-cased stem and gets exactly one `.pdf`. */
  lemma NormaliseSuffix(stem: string, extension: string)
    requires Lower(extension) == ".pdf" && Find(Lower(stem), ".pdf").None?
    ensures NormaliseFilename(stem + extension) == Lower(stem) + ".pdf"
  {
    var s, t := Lower(stem), ".pdf";
    LowerConcat(stem, extension);
    forall j: nat | j < |s| ensures !OccursAt(s + t, t, j) {
      if j + |t| <= |s| {
        assert (s + t)[j..j + |t|] == s[j..j + |t|];
        assert !OccursAt(s, t, j);
      } else if j + |t| <= |s + t| {
        var d := |s| - j;
        assert 1 <= d <= 3;
        assert (s + t)[j..j + |t|][d] == (s + t)[|s|] == '.';
        assert t[d] != '.';
      }
    }
    ReplaceBeforeTail(s, t, t, "");
    assert Replace(t, t, "") == "" + Replace("", t, "");
    assert s + "" == s;
  }

  /** "Report.PDF" is saved as "report.pdf". */
  lemma NormaliseReport(stem: string, extension: string)
    requires stem == "Report" && extension == ".PDF"
    ensures NormaliseFilename(stem + extension) == "report.pdf"
  {
    LowerReportStem(stem);
    LowerPdfExtension(extension);
    NormaliseSuffix(stem, extension);
  }

  lemma LowerReportStem(stem: string)
    requires stem == "Report"
    ensures Lower(stem) == "report" && Find(Lower(stem), ".pdf").None?
  {
    var lowered := Lower(stem);
    assert lowered[0] == 'r' && lowered[1] == 'e' && lowered[2] == 'p';
    assert lowered[3] == 'o' && lowered[4] == 'r' && lowered[5] == 't';
    FindMissingFirst(lowered, ".pdf");
  }

  lemma LowerPdfExtension(extension: string)
    requires extension == ".PDF"
    ensures Lower(extension) == ".pdf"
  {
    var e := Lower(extension);
    assert e[0] == '.' && e[1] == 'p' && e[2] == 'd' && e[3] == 'f';
  }

  /** The compression options of both writes. */
  datatype WriteOptions = WriteOptions(deflate: bool, garbage: nat)

  function Compression(compressBasic: bool, compressMax: bool): (w: WriteOptions)
    ensures w.garbage == 4 <==> compressMax
    ensures w.garbage == 0 <==> !compressMax
    ensures w.deflate <==> compressBasic || compressMax
  {
    WriteOptions(compressBasic || compressMax, if compressMax then 4 else 0)
  }

  /** The metadata after save_pdf fills it: a missing title is derived from
      the file name, and both dates are today. */
  function SavedMetadata(meta: map<string, Option<string>>, path: string, today: string): (m: map<string, Option<string>>)
    requires "title" in meta
    ensures m.Keys == meta.Keys + {"creationDate", "modDate"}
    ensures m["creationDate"] == Some(today) && m["modDate"] == Some(today)
    ensures meta["title"].Some? ==> m["title"] == meta["title"]
    ensures meta["title"].None? ==> m["title"] == Some(Title(Replace(Lower(path), ".pdf", "")))
    ensures forall k :: k in meta && k != "title" && k != "creationDate" && k != "modDate" ==> m[k] == meta[k]
  {
    var titled := if meta["title"].None? then meta["title" := Some(Title(Replace(Lower(path), ".pdf", "")))] else meta;
    titled["creationDate" := Some(today)]["modDate" := Some(today)]
  }

  /** The encryption of the last write: AES-256 with the session password as
      both owner and user password, only for a non-empty password. */
  function FinalEncryption(password: Option<string>): (e: Option<Encryption>)
    ensures e.Some? <==> password.Some? && password.value != ""
    ensures e.Some? ==>
              e.value.algorithm == Aes256 &&
              e.value.ownerPw == password.value && e.value.userPw == password.value &&
              e.value.permissions == {Accessibility, Print, Copy, Annotate}
  {
    if password.Some? && password.value != "" then
      Some(Encryption(Aes256, password.value, password.value, {Accessibility, Print, Copy, Annotate}))
    else None
  }

  function RedactOps(p: nat, rects: seq<Rect>): seq<SaveOp>
  {
    seq(|rects|, k requires 0 <= k < |rects| => RedactAnnot(p, rects[k]))
  }

  function HighlightOps(p: nat, rects: seq<Rect>): seq<SaveOp>
  {
    seq(|rects|, k requires 0 <= k < |rects| => HighlightAnnot(p, rects[k]))
  }

  /** The calls for one page: its ink, its redactions and their application,
      then its highlights. */
  function PageOps(p: nat, strokes: seq<Stroke>, redacts: seq<Rect>, highlights: seq<Rect>): (ops: seq<SaveOp>)
    ensures |ops| == |redacts| + |highlights| + 2
    ensures ops[0] == InkAnnot(p, strokes)
    ensures forall k :: 0 <= k < |redacts| ==> ops[1 + k] == RedactAnnot(p, redacts[k])
    ensures ops[1 + |redacts|] == ApplyRedactions(p)
    ensures forall k :: 0 <= k < |highlights| ==> ops[2 + |redacts| + k] == HighlightAnnot(p, highlights[k])
  {
    [InkAnnot(p, strokes)] + RedactOps(p, redacts) + [ApplyRedactions(p)] + HighlightOps(p, highlights)
  }

  /** The calls for pages 0 .. k - 1, in page order. */
  function AnnotationsUpTo(k: nat, fh: seq<seq<Stroke>>, rd: seq<seq<Rect>>, hl: seq<seq<Rect>>): seq<SaveOp>
    requires k <= |fh| && k <= |rd| && k <= |hl|
  {
    if k == 0 then []
    else AnnotationsUpTo(k - 1, fh, rd, hl) + PageOps(k - 1, fh[k - 1], rd[k - 1], hl[k - 1])
  }

  /** The calls made on page m before indexing one of the lists fails. */
  function FailingPageOps(m: nat, fh: seq<seq<Stroke>>, rd: seq<seq<Rect>>, hl: seq<seq<Rect>>): seq<SaveOp>
  {
    if m >= |fh| then []
    else if m >= |rd| then [InkAnnot(m, fh[m])]
    else [InkAnnot(m, fh[m])] + RedactOps(m, rd[m]) + [ApplyRedactions(m)]
  }

  /** The annotation pass over a document of `pages` pages: the calls made,
      and whether every page's markup lists were there. */
  datatype MarkupPass = MarkupPass(ops: seq<SaveOp>, ok: bool)

  function Annotations(pages: nat, fh: seq<seq<Stroke>>, rd: seq<seq<Rect>>, hl: seq<seq<Rect>>): MarkupPass
  {
    var m := Min(pages, Min(|fh|, Min(|rd|, |hl|)));
    if m == pages then MarkupPass(AnnotationsUpTo(pages, fh, rd, hl), true)
    else MarkupPass(AnnotationsUpTo(m, fh, rd, hl) + FailingPageOps(m, fh, rd, hl), false)
  }

  /** How one call of save_pdf ends: it returns the path written or None,
      it raises, or it is still showing the forced prompt when the recorded
      answers run out. */
  datatype SaveResult = Returned(path: Option<string>) | Raised(error: Error) | Prompting

  /** Everything one call of save_pdf does. */
  datatype SaveRun = SaveRun(result: SaveResult, ops: seq<SaveOp>, metadata: map<string, Option<string>>)

  function SavePlan(answers: seq<Option<string>>, forcedSave: bool, meta: map<string, Option<string>>,
                    compressBasic: bool, compressMax: bool, password: Option<string>,
                    pages: nat, fh: seq<seq<Stroke>>, rd: seq<seq<Rect>>, hl: seq<seq<Rect>>,
                    today: string): SaveRun
  {
    match PromptAnswer(answers, forcedSave)
    case Cancelled => SaveRun(Returned(None), [], meta)
    case StillAsking => SaveRun(Prompting, [], meta)
    case Answered(input) =>
      WritePlan(NormaliseFilename(input), meta, compressBasic, compressMax, password, pages, fh, rd, hl, today)
  }

  /** What save_pdf does once the file name is known. */
  function WritePlan(path: string, meta: map<string, Option<string>>,
                     compressBasic: bool, compressMax: bool, password: Option<string>,
                     pages: nat, fh: seq<seq<Stroke>>, rd: seq<seq<Rect>>, hl: seq<seq<Rect>>,
                     today: string): SaveRun
  {
    var w := Compression(compressBasic, compressMax);
    if "title" !in meta then SaveRun(Raised(KeyError), [], meta)
    else
      var m := SavedMetadata(meta, path, today);
      var first := [SetMetadata(m), Write(path, w.deflate, w.garbage, None)];
      var a := Annotations(pages, fh, rd, hl);
      if !a.ok then SaveRun(Raised(IndexError), first + a.ops, m)
      else SaveRun(Returned(Some(path)), first + a.ops + [Write(path, w.deflate, w.garbage, FinalEncryption(password))], m)
  }

  // ---------------------------------------------------------------------
  // Properties of the plan

  predicate IsWrite(op: SaveOp) { op.Write? }

  predicate IsMarkup(op: SaveOp)
  {
    op.InkAnnot? || op.RedactAnnot? || op.ApplyRedactions? || op.HighlightAnnot?
  }

  function PageOf(op: SaveOp): nat
    requires IsMarkup(op)
  {
    op.page
  }

  /** Every call is a markup call for a page below k. */
  predicate MarkupBelow(ops: seq<SaveOp>, k: nat)
  {
    forall i :: 0 <= i < |ops| ==> IsMarkup(ops[i]) && PageOf(ops[i]) < k
  }

  /** Markup calls in non-decreasing page order. */
  predicate PageOrdered(ops: seq<SaveOp>)
  {
    forall i, j :: 0 <= i < j < |ops| && IsMarkup(ops[i]) && IsMarkup(ops[j]) ==> PageOf(ops[i]) <= PageOf(ops[j])
  }

  /** Every call of one page's block is markup for that page. */
  lemma PageOpsOnPage(p: nat, strokes: seq<Stroke>, redacts: seq<Rect>, highlights: seq<Rect>)
    ensures var ops := PageOps(p, strokes, redacts, highlights);
              forall i :: 0 <= i < |ops| ==> IsMarkup(ops[i]) && PageOf(ops[i]) == p
  {
    var ops := PageOps(p, strokes, redacts, highlights);
    forall i | 0 <= i < |ops| ensures IsMarkup(ops[i]) && PageOf(ops[i]) == p {
      if 1 <= i <= |redacts| {
        assert ops[1 + (i - 1)] == RedactAnnot(p, redacts[i - 1]);
      } else if i > 1 + |redacts| {
        assert ops[2 + |redacts| + (i - 2 - |redacts|)] == HighlightAnnot(p, highlights[i - 2 - |redacts|]);
      }
    }
  }

  /** Calls for pages below p, in page order, followed by calls for page p
      only, are in page order and below p + 1. */
  lemma OrderedConcat(prev: seq<SaveOp>, page: seq<SaveOp>, p: nat)
    requires MarkupBelow(prev, p) && PageOrdered(prev)
    requires forall i :: 0 <= i < |page| ==> IsMarkup(page[i]) && PageOf(page[i]) == p
    ensures MarkupBelow(prev + page, p + 1) && PageOrdered(prev + page)
  {
    var ops := prev + page;
    forall i | 0 <= i < |ops| ensures IsMarkup(ops[i]) && PageOf(ops[i]) < p + 1 {
      if i < |prev| { assert ops[i] == prev[i]; } else { assert ops[i] == page[i - |prev|]; }
    }
    forall i, j | 0 <= i < j < |ops| && IsMarkup(ops[i]) && IsMarkup(ops[j])
      ensures PageOf(ops[i]) <= PageOf(ops[j])
    {
      if j < |prev| {
        assert ops[i] == prev[i] && ops[j] == prev[j];
      } else if i < |prev| {
        assert ops[i] == prev[i] && ops[j] == page[j - |prev|];
      } else {
        assert ops[i] == page[i - |prev|] && ops[j] == page[j - |prev|];
      }
    }
  }

  /** Only markup calls happen between the writes, for pages below k, in
      non-decreasing page order. */
  lemma {:induction false} AnnotationsOrdered(k: nat, fh: seq<seq<Stroke>>, rd: seq<seq<Rect>>, hl: seq<seq<Rect>>)
    requires k <= |fh| && k <= |rd| && k <= |hl|
    ensures MarkupBelow(AnnotationsUpTo(k, fh, rd, hl), k)
    ensures PageOrdered(AnnotationsUpTo(k, fh, rd, hl))
  {
    if k > 0 {
      AnnotationsOrdered(k - 1, fh, rd, hl);
      var prev := AnnotationsUpTo(k - 1, fh, rd, hl);
      var page := PageOps(k - 1, fh[k - 1], rd[k - 1], hl[k - 1]);
      PageOpsOnPage(k - 1, fh[k - 1], rd[k - 1], hl[k - 1]);
      assert prev + page == AnnotationsUpTo(k, fh, rd, hl);
      OrderedConcat(prev, page, k - 1);
    }
  }

  /** The calls that concern page p, in order. */
  function OnPage(ops: seq<SaveOp>, p: nat): seq<SaveOp>
  {
    if |ops| == 0 then []
    else (if IsMarkup(ops[0]) && PageOf(ops[0]) == p then [ops[0]] else []) + OnPage(ops[1..], p)
  }

  lemma {:induction false} OnPageAppend(a: seq<SaveOp>, b: seq<SaveOp>, p: nat)
    ensures OnPage(a + b, p) == OnPage(a, p) + OnPage(b, p)
    decreases |a|
  {
    if |a| == 0 {
      assert a + b == b;
    } else {
      var head := if IsMarkup(a[0]) && PageOf(a[0]) == p then [a[0]] else [];
      assert (a + b)[0] == a[0];
      assert (a + b)[1..] == a[1..] + b;
      assert OnPage(a + b, p) == head + OnPage(a[1..] + b, p);
      assert OnPage(a, p) == head + OnPage(a[1..], p);
      OnPageAppend(a[1..], b, p);
      assert head + (OnPage(a[1..], p) + OnPage(b, p)) == (head + OnPage(a[1..], p)) + OnPage(b, p);
    }
  }

  lemma {:induction false} OnPageAll(ops: seq<SaveOp>, p: nat)
    requires forall i :: 0 <= i < |ops| ==> IsMarkup(ops[i]) && PageOf(ops[i]) == p
    ensures OnPage(ops, p) == ops
    decreases |ops|
  {
    if |ops| > 0 {
      OnPageAll(ops[1..], p);
    }
  }

  lemma {:induction false} OnPageNone(ops: seq<SaveOp>, p: nat)
    requires forall i :: 0 <= i < |ops| ==> IsMarkup(ops[i]) && PageOf(ops[i]) != p
    ensures OnPage(ops, p) == []
    decreases |ops|
  {
    if |ops| > 0 {
      OnPageNone(ops[1..], p);
    }
  }

  /** Each page's markup is committed as one block: the calls for page p are
      exactly its ink, redactions, apply_redactions and highlights. */
  lemma {:induction false} AnnotationsPerPage(k: nat, fh: seq<seq<Stroke>>, rd: seq<seq<Rect>>, hl: seq<seq<Rect>>, p: nat)
    requires k <= |fh| && k <= |rd| && k <= |hl|
    ensures p < k ==> OnPage(AnnotationsUpTo(k, fh, rd, hl), p) == PageOps(p, fh[p], rd[p], hl[p])
    ensures p >= k ==> OnPage(AnnotationsUpTo(k, fh, rd, hl), p) == []
  {
    if k > 0 {
      AnnotationsPerPage(k - 1, fh, rd, hl, p);
      var prev := AnnotationsUpTo(k - 1, fh, rd, hl);
      var page := PageOps(k - 1, fh[k - 1], rd[k - 1], hl[k - 1]);
      PageOpsOnPage(k - 1, fh[k - 1], rd[k - 1], hl[k - 1]);
      OnPageAppend(prev, page, p);
      if p == k - 1 {
        OnPageAll(page, p);
      } else {
        OnPageNone(page, p);
        assert OnPage(prev, p) + [] == OnPage(prev, p);
      }
    }
  }

  /** With one markup slot per page, the annotation pass completes. */
  lemma AnnotationsInSync(pages: nat, fh: seq<seq<Stroke>>, rd: seq<seq<Rect>>, hl: seq<seq<Rect>>)
    requires |fh| == pages && |rd| == pages && |hl| == pages
    ensures Annotations(pages, fh, rd, hl) == MarkupPass(AnnotationsUpTo(pages, fh, rd, hl), true)
  {
  }

  /** A save ends without a file name only when it is not forced and the
      first answer is cancelled or empty: it then returns None and does
      nothing. A forced save never returns None; while no answer names a
      file it is still prompting and has done nothing yet. */
  lemma SaveWithoutName(answers: seq<Option<string>>, forcedSave: bool, meta: map<string, Option<string>>,
                        compressBasic: bool, compressMax: bool, password: Option<string>,
                        pages: nat, fh: seq<seq<Stroke>>, rd: seq<seq<Rect>>, hl: seq<seq<Rect>>,
                        today: string)
    ensures var run := SavePlan(answers, forcedSave, meta, compressBasic, compressMax, password, pages, fh, rd, hl, today);
              (run.result == Returned(None) <==> !forcedSave && |answers| > 0 && !Named(answers[0])) &&
              (run.result == Returned(None) ==> run.ops == [] && run.metadata == meta)
    ensures var run := SavePlan(answers, forcedSave, meta, compressBasic, compressMax, password, pages, fh, rd, hl, today);
              (run.result.Prompting? <==>
                 if forcedSave then forall k :: 0 <= k < |answers| ==> !Named(answers[k]) else |answers| == 0) &&
              (run.result.Prompting? ==> run.ops == [] && run.metadata == meta)
  {
  }

  /** A completed save: it returns the normalised path, sets the metadata,
      writes plain, commits the markup, and writes last, encrypted iff the
      password is non-empty; there are exactly two writes. */
  lemma SaveCompleted(answers: seq<Option<string>>, forcedSave: bool, meta: map<string, Option<string>>,
                      compressBasic: bool, compressMax: bool, password: Option<string>,
                      pages: nat, fh: seq<seq<Stroke>>, rd: seq<seq<Rect>>, hl: seq<seq<Rect>>,
                      today: string)
    requires PromptAnswer(answers, forcedSave).Answered? && "title" in meta
    requires |fh| == pages && |rd| == pages && |hl| == pages
    ensures var run := SavePlan(answers, forcedSave, meta, compressBasic, compressMax, password, pages, fh, rd, hl, today);
            var path := NormaliseFilename(PromptAnswer(answers, forcedSave).name);
            var w := Compression(compressBasic, compressMax);
              run.result == Returned(Some(path)) &&
              |run.ops| >= 3 &&
              run.ops[0] == SetMetadata(run.metadata) &&
              run.ops[1] == Write(path, w.deflate, w.garbage, None) &&
              run.ops[|run.ops| - 1] == Write(path, w.deflate, w.garbage, FinalEncryption(password)) &&
              run.ops[2..|run.ops| - 1] == AnnotationsUpTo(pages, fh, rd, hl) &&
              (forall i :: 2 <= i < |run.ops| - 1 ==> !IsWrite(run.ops[i]))
  {
    var run := SavePlan(answers, forcedSave, meta, compressBasic, compressMax, password, pages, fh, rd, hl, today);
    var a := AnnotationsUpTo(pages, fh, rd, hl);
    AnnotationsOrdered(pages, fh, rd, hl);
    assert run.ops[2..|run.ops| - 1] == a;
    forall i | 2 <= i < |run.ops| - 1 ensures !IsWrite(run.ops[i]) {
      assert run.ops[i] == a[i - 2];
      assert IsMarkup(a[i - 2]);
    }
  }

  /** Saving again commits the same markup: the calls between the writes
      depend only on the markup lists, which save_pdf leaves as they are. */
  lemma ResaveSameMarkup(answers1: seq<Option<string>>, answers2: seq<Option<string>>, forcedSave: bool,
                         meta1: map<string, Option<string>>, meta2: map<string, Option<string>>,
                         compressBasic: bool, compressMax: bool, password: Option<string>,
                         pages: nat, fh: seq<seq<Stroke>>, rd: seq<seq<Rect>>, hl: seq<seq<Rect>>,
                         today1: string, today2: string)
    requires PromptAnswer(answers1, forcedSave).Answered? && PromptAnswer(answers2, forcedSave).Answered?
    requires "title" in meta1 && "title" in meta2
    requires |fh| == pages && |rd| == pages && |hl| == pages
    ensures var r1 := SavePlan(answers1, forcedSave, meta1, compressBasic, compressMax, password, pages, fh, rd, hl, today1);
            var r2 := SavePlan(answers2, forcedSave, meta2, compressBasic, compressMax, password, pages, fh, rd, hl, today2);
              |r1.ops| == |r2.ops| && r1.ops[2..|r1.ops| - 1] == r2.ops[2..|r2.ops| - 1]
  {
    SaveCompleted(answers1, forcedSave, meta1, compressBasic, compressMax, password, pages, fh, rd, hl, today1);
    SaveCompleted(answers2, forcedSave, meta2, compressBasic, compressMax, password, pages, fh, rd, hl, today2);
  }

  /** The filename prompt loop of save_pdf; running out of recorded
      answers stands for a dialog that is still open. */
  method AskFileName(answers: seq<Option<string>>, forcedSave: bool) returns (end: PromptEnd)
    ensures end == PromptAnswer(answers, forcedSave)
  {
    var answer: Option<string> := None;
    var asked := 0;
    while !Named(answer)
      invariant 0 <= asked <= |answers|
      invariant forcedSave ==> forall k :: 0 <= k < asked - 1 ==> !Named(answers[k])
      invariant forcedSave && asked > 0 ==> answer == answers[asked - 1]
      invariant asked == 0 ==> answer == None
      invariant !forcedSave ==> asked == 0 && answer == None
      decreases |answers| - asked, !Named(answer)
    {
      if asked == |answers| {
        return StillAsking;
      }
      answer := answers[asked];
      asked := asked + 1;
      if !forcedSave {
        if !Named(answer) {
          return Cancelled;
        } else {
          break;
        }
      }
    }
    assert forcedSave ==> FirstNamed(answers) == Some(asked - 1);
    end := Answered(answer.value);
  }

  /** The markup commit for page p: False when one of its lists is missing. */
  method CommitPage(p: nat, fh: seq<seq<Stroke>>, rd: seq<seq<Rect>>, hl: seq<seq<Rect>>)
    returns (ops: seq<SaveOp>, ok: bool)
    ensures ok <==> p < |fh| && p < |rd| && p < |hl|
    ensures ok ==> ops == PageOps(p, fh[p], rd[p], hl[p])
    ensures !ok ==> ops == FailingPageOps(p, fh, rd, hl)
  {
    ops := [];
    if p >= |fh| {
      return ops, false;
    }
    ops := [InkAnnot(p, fh[p])];
    if p >= |rd| {
      return ops, false;
    }
    var j := 0;
    while j < |rd[p]|
      invariant 0 <= j <= |rd[p]|
      invariant ops == [InkAnnot(p, fh[p])] + RedactOps(p, rd[p][..j])
    {
      assert RedactOps(p, rd[p][..j + 1]) == RedactOps(p, rd[p][..j]) + [RedactAnnot(p, rd[p][j])];
      ops := ops + [RedactAnnot(p, rd[p][j])];
      j := j + 1;
    }
    assert rd[p][..j] == rd[p];
    ops := ops + [ApplyRedactions(p)];
    if p >= |hl| {
      return ops, false;
    }
    var middle := ops;
    j := 0;
    while j < |hl[p]|
      invariant 0 <= j <= |hl[p]|
      invariant ops == middle + HighlightOps(p, hl[p][..j])
    {
      assert HighlightOps(p, hl[p][..j + 1]) == HighlightOps(p, hl[p][..j]) + [HighlightAnnot(p, hl[p][j])];
      ops := ops + [HighlightAnnot(p, hl[p][j])];
      j := j + 1;
    }
    assert hl[p][..j] == hl[p];
    ok := true;
  }

  /** The loop of save_pdf over the pages of the document. */
  method CommitMarkup(pages: nat, fh: seq<seq<Stroke>>, rd: seq<seq<Rect>>, hl: seq<seq<Rect>>)
    returns (pass: MarkupPass)
    ensures pass == Annotations(pages, fh, rd, hl)
  {
    var ops := [];
    var page := 0;
    while page < pages
      invariant 0 <= page <= pages && page <= |fh| && page <= |rd| && page <= |hl|
      invariant ops == AnnotationsUpTo(page, fh, rd, hl)
    {
      var pageOps, ok := CommitPage(page, fh, rd, hl);
      if !ok {
        return MarkupPass(ops + pageOps, false);
      }
      ops := ops + pageOps;
      page := page + 1;
    }
    pass := MarkupPass(ops, true);
  }

  /** save_pdf. The dialog answers, in order, stand for the input dialogs
      the user fills in; `today` is str(date.today()). Only the session's
      metadata changes; the markup lists, the password, the compression
      flags and mods_made are left as they are. */
  method SavePdf(pdf: PdfDocInstance, answers: seq<Option<string>>, forcedSave: bool, today: string)
    returns (result: SaveResult, ops: seq<SaveOp>)
    modifies pdf`customMetadata
    ensures var run := SavePlan(answers, forcedSave, old(pdf.customMetadata), pdf.compressBasic, pdf.compressMax,
                                pdf.password, |pdf.doc|, pdf.freehandPoints, pdf.redactPoints, pdf.highlightPoints, today);
              result == run.result && ops == run.ops && pdf.customMetadata == run.metadata
  {
    ops := [];
    var end := AskFileName(answers, forcedSave);
    if end.Cancelled? {
      return Returned(None), ops;
    } else if end.StillAsking? {
      return Prompting, ops;
    }
    var path := NormaliseFilename(end.name);
    result, ops := SaveTo(pdf, path, today);
  }

  /** save_pdf from the normalised file name on. */
  method SaveTo(pdf: PdfDocInstance, path: string, today: string)
    returns (result: SaveResult, ops: seq<SaveOp>)
    modifies pdf`customMetadata
    ensures var run := WritePlan(path, old(pdf.customMetadata), pdf.compressBasic, pdf.compressMax,
                                 pdf.password, |pdf.doc|, pdf.freehandPoints, pdf.redactPoints, pdf.highlightPoints, today);
              result == run.result && ops == run.ops && pdf.customMetadata == run.metadata
  {
    var basic, max, password := pdf.compressBasic, pdf.compressMax, pdf.password;
    var pages, fh, rd, hl := |pdf.doc|, pdf.freehandPoints, pdf.redactPoints, pdf.highlightPoints;
    ghost var run := WritePlan(path, pdf.customMetadata, basic, max, password, pages, fh, rd, hl, today);
    ops := [];
    var garbage := 0;
    var compress := false;
    if max {
      garbage := 4;
    }
    if basic || max {
      compress := true;
    }
    if "title" !in pdf.customMetadata {
      return Raised(KeyError), ops;
    }
    // The three updates of custom_metadata, made on a copy that is
    // stored back once.
    var meta := pdf.customMetadata;
    if meta["title"].None? {
      meta := meta["title" := Some(Title(Replace(Lower(path), ".pdf", "")))];
    }
    meta := meta["creationDate" := Some(today)];
    meta := meta["modDate" := Some(today)];
    assert meta == run.metadata;
    pdf.customMetadata := meta;
    ghost var w := Compression(basic, max);
    assert compress == w.deflate && garbage == w.garbage;
    ops := [SetMetadata(meta), Write(path, compress, garbage, None)];
    var pass := CommitMarkup(pages, fh, rd, hl);
    ops := ops + pass.ops;
    if !pass.ok {
      return Raised(IndexError), ops;
    }
    assert FinalEncryption(password).Some? <==> password.Some? && password.value != "";
    if password.Some? && password.value != "" {
      var pw := password.value;
      var encryption := Encryption(Aes256, pw, pw, {Accessibility, Print, Copy, Annotate});
      ops := ops + [Write(path, compress, garbage, Some(encryption))];
    } else {
      ops := ops + [Write(path, compress, garbage, None)];
    }
    result := Returned(Some(path));
  }
}
