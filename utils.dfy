/** utils.py: PDF_Doc_Instance, the editing session of one open document,
    and PDF_Queue, the insertion-ordered registry of open documents keyed by
    display name ("name", "name | 1", "name | 2", ...). */
module Utils {
  import opened Wrappers
  import opened Strings
  import opened Document

  /** The exceptions the registry and the sessions raise, and NeverReturns
      for a library call that loops forever. */
  datatype Error = KeyError | ValueError | IndexError | TypeError | NotAnInstance | NeverReturns

  type Point = (real, real)

  type Stroke = seq<Point>

  /** A rectangle given by two corners, (x0, y0, x1, y1). */
  datatype Rect = Rect(x0: real, y0: real, x1: real, y1: real)

  // ---------------------------------------------------------------------
  // Python list operations on the markup lists

  /** The position `list.insert(i, x)` inserts at: a negative index counts
      from the end, and the result is clipped to [0, len]. */
  function InsertPosition(n: nat, i: int): (k: nat)
    ensures k <= n
    ensures 0 <= i <= n ==> k == i
    ensures n + i >= 0 && i < 0 ==> k == n + i
    ensures i > n ==> k == n
    ensures n + i < 0 ==> k == 0
  {
    if i < 0 then (if n + i < 0 then 0 else n + i) else Min(i, n)
  }

  /** Python `l.insert(i, x)`. */
  function ListInsert<T>(s: seq<T>, i: int, x: T): seq<T>
  {
    var k := InsertPosition(|s|, i);
    s[..k] + [x] + s[k..]
  }

  /** The position `l[i]` and `del l[i]` refer to, or None for IndexError. */
  function ListIndex(n: nat, i: int): (k: Option<nat>)
    ensures k.Some? <==> n + i >= 0 && i < n
    ensures k.Some? ==> k.value < n && (k.value == i || k.value == n + i)
  {
    if 0 <= i < n then Some(i) else if n + i >= 0 && i < 0 then Some(n + i) else None
  }

  /** Python `del l[i]`, or None for IndexError. */
  function ListDelete<T>(s: seq<T>, i: int): Option<seq<T>>
  {
    match ListIndex(|s|, i)
    case None => None
    case Some(k) => Some(s[..k] + s[k + 1..])
  }

  /** `insert` adds exactly one element at its position and keeps the others
      in order. */
  lemma ListInsertProperties<T>(s: seq<T>, i: int, x: T)
    ensures var r := ListInsert(s, i, x); var k := InsertPosition(|s|, i);
              |r| == |s| + 1 && r[k] == x && r[..k] + r[k + 1..] == s
  {
    var k := InsertPosition(|s|, i);
    var r := ListInsert(s, i, x);
    assert r[..k] == s[..k];
    assert r[k + 1..] == s[k..];
  }

  /** `del` succeeds iff the index is in range, and then removes exactly the
      element at its position. */
  lemma ListDeleteProperties<T>(s: seq<T>, i: int)
    ensures ListDelete(s, i).Some? <==> |s| + i >= 0 && i < |s|
    ensures ListDelete(s, i).Some? ==>
              var r := ListDelete(s, i).value; var k := ListIndex(|s|, i).value;
              |r| == |s| - 1 && r[..k] + [s[k]] + r[k..] == s
  {
    if ListDelete(s, i).Some? {
      var k := ListIndex(|s|, i).value;
      var r := ListDelete(s, i).value;
      assert r[..k] == s[..k];
      assert r[k..] == s[k + 1..];
      assert s == s[..k] + [s[k]] + s[k + 1..];
    }
  }

  // ---------------------------------------------------------------------
  // The name of a session

  /** `os.path.split(path)[-1]`: what follows the last '/'. */
  function BaseName(path: string): string
    decreases |path|
  {
    if |path| == 0 || path[|path| - 1] == '/' then ""
    else BaseName(path[..|path| - 1]) + [path[|path| - 1]]
  }

  /** The base name is the longest suffix free of '/': the character before
      it, if any, is a '/'. */
  lemma {:induction false} BaseNameSuffix(path: string)
    ensures var r := BaseName(path);
              '/' !in r && EndsWith(path, r) && (|r| < |path| ==> path[|path| - |r| - 1] == '/')
    decreases |path|
  {
    if |path| > 0 && path[|path| - 1] != '/' {
      var r0 := BaseName(path[..|path| - 1]);
      assert BaseName(path) == r0 + [path[|path| - 1]];
      BaseNameSuffix(path[..|path| - 1]);
      BaseNameStep(path, r0);
    }
  }

  /** One more character that is not '/' extends the base name. */
  lemma BaseNameStep(path: string, r0: string)
    requires |path| > 0 && path[|path| - 1] != '/'
    requires '/' !in r0 && EndsWith(path[..|path| - 1], r0)
    requires |r0| < |path| - 1 ==> path[..|path| - 1][|path| - 1 - |r0| - 1] == '/'
    ensures var r := r0 + [path[|path| - 1]];
              '/' !in r && EndsWith(path, r) && (|r| < |path| ==> path[|path| - |r| - 1] == '/')
  {
    var n := |path|;
    var r := r0 + [path[n - 1]];
    assert path[n - |r|..] == path[..n - 1][n - 1 - |r0|..] + [path[n - 1]];
    if |r| < n {
      assert path[n - |r| - 1] == path[..n - 1][n - 1 - |r0| - 1];
    }
  }

  /** A path without '/' is its own base name. */
  lemma BaseNameWithoutSlash(path: string)
    requires '/' !in path
    ensures BaseName(path) == path
  {
    BaseNameSuffix(path);
    var r := BaseName(path);
    assert forall k :: 0 <= k < |path| ==> path[k] != '/';
    assert |r| == |path|;
    assert path[|path| - |r|..] == r;
  }

  // ---------------------------------------------------------------------
  // PDF_Doc_Instance

  /** The metadata a new session starts with. */
  const InitialMetadata: map<string, Option<string>> :=
    map["creator" := Some("PyPdfApp"), "producer" := Some("PyPdfApp"), "title" := None]

  /** `[[] for _ in range(n)]`: n empty per-page lists. */
  function EmptySlots<T>(n: nat): (r: seq<seq<T>>)
    ensures |r| == n && forall i :: 0 <= i < n ==> r[i] == []
  {
    seq(n, _ => [])
  }

  /** The editing session of one open document. The three markup lists hold,
      per page, the freehand strokes, the redaction rectangles and the
      highlight rectangles that save_pdf turns into annotations. */
  class PdfDocInstance {
    const savePath: string
    var doc: Doc
    var password: Option<string>
    const name: string
    var compressBasic: bool
    var compressMax: bool
    var pageI: int
    var customMetadata: map<string, Option<string>>
    var freehandPoints: seq<seq<Stroke>>
    var redactPoints: seq<seq<Rect>>
    var highlightPoints: seq<seq<Rect>>
    var activeStroke: Stroke
    var modsMade: bool

    /** The three markup lists have one slot per page index alike. */
    predicate Parallel()
      reads this
    {
      |freehandPoints| == |redactPoints| && |redactPoints| == |highlightPoints|
    }

    /** The markup lists have exactly one slot per page of the document. */
    predicate InSync()
      reads this
    {
      Parallel() && |freehandPoints| == |doc|
    }

    constructor (filePath: string, doc: Doc, password: Option<string>)
      ensures savePath == filePath && this.doc == doc && this.password == password
      ensures name == BaseName(filePath)
      ensures !compressBasic && !compressMax && pageI == 0 && !modsMade
      ensures customMetadata == InitialMetadata
      ensures freehandPoints == EmptySlots(|doc|) && redactPoints == EmptySlots(|doc|)
      ensures highlightPoints == EmptySlots(|doc|)
      ensures activeStroke == []
      ensures InSync()
    {
      savePath := filePath;
      this.doc := doc;
      this.password := password;
      name := BaseName(filePath);
      compressBasic := false;
      compressMax := false;
      pageI := 0;
      customMetadata := InitialMetadata;
      freehandPoints := EmptySlots(|doc|);
      redactPoints := EmptySlots(|doc|);
      highlightPoints := EmptySlots(|doc|);
      activeStroke := [];
      modsMade := false;
      new;
      assert InSync();
    }

    /** add_page_data: an empty slot is inserted at `atIndex` in each list. */
    method AddPageData(atIndex: int)
      modifies this`freehandPoints, this`redactPoints, this`highlightPoints
      ensures freehandPoints == ListInsert(old(freehandPoints), atIndex, [])
      ensures redactPoints == ListInsert(old(redactPoints), atIndex, [])
      ensures highlightPoints == ListInsert(old(highlightPoints), atIndex, [])
      ensures old(Parallel()) ==> Parallel() && |freehandPoints| == old(|freehandPoints|) + 1
    {
      freehandPoints := ListInsert(freehandPoints, atIndex, []);
      redactPoints := ListInsert(redactPoints, atIndex, []);
      highlightPoints := ListInsert(highlightPoints, atIndex, []);
    }

    /** remove_page_data: the slot at `atIndex` is deleted from each list in
        turn; an IndexError stops at the list that raised it. */
    method RemovePageData(atIndex: int) returns (r: Outcome<Error>)
      modifies this`freehandPoints, this`redactPoints, this`highlightPoints
      ensures var f := ListDelete(old(freehandPoints), atIndex);
              var d := ListDelete(old(redactPoints), atIndex);
              var h := ListDelete(old(highlightPoints), atIndex);
              freehandPoints == f.GetOr(old(freehandPoints)) &&
              redactPoints == (if f.Some? then d.GetOr(old(redactPoints)) else old(redactPoints)) &&
              highlightPoints == (if f.Some? && d.Some? then h.GetOr(old(highlightPoints)) else old(highlightPoints)) &&
              r == (if f.Some? && d.Some? && h.Some? then Pass else Fail(IndexError))
      ensures old(Parallel()) ==> Parallel()
      ensures old(Parallel()) && r == Pass ==> |freehandPoints| == old(|freehandPoints|) - 1
    {
      match ListDelete(freehandPoints, atIndex) {
        case None => return Fail(IndexError);
        case Some(f) => freehandPoints := f;
      }
      match ListDelete(redactPoints, atIndex) {
        case None => return Fail(IndexError);
        case Some(d) => redactPoints := d;
      }
      match ListDelete(highlightPoints, atIndex) {
        case None => return Fail(IndexError);
        case Some(h) => highlightPoints := h;
      }
      r := Pass;
    }
  }

  // ---------------------------------------------------------------------
  // Display keys

  /** The display key of the j-th document open under `name`: the bare
      name for j = 0 and "name | j" otherwise. */
  function KeyOf(name: string, j: nat): string
  {
    if j == 0 then name else name + " | " + NatToString(j)
  }

  lemma SplitNumbered(name: string, d: string)
    requires NoBar(name) && NoBar(d)
    ensures Split(name + " | " + d, " | ") == [name, d]
  {
    var rest := " | " + d;
    var s := name + rest;
    assert s == name + " | " + d;
    FirstSeparator(name, rest, " | ");
    assert s[..|name|] == name;
    assert s[|name| + 3..] == d;
    SplitWithoutBar(d, " | ", 1);
  }

  lemma SplitNumberedShort(name: string, d: string)
    requires NoBar(name) && NoBar(d)
    ensures Split(name + " | " + d, " |") == [name, " " + d]
  {
    var rest := " | " + d;
    var s := name + rest;
    assert s == name + " | " + d;
    FirstSeparator(name, rest, " |");
    assert s[..|name|] == name;
    assert s[|name| + 2..] == " " + d;
    assert NoBar(" " + d);
    SplitWithoutBar(" " + d, " |", 1);
  }

  /** How `split(" | ")` and `split(" |")` take a display key apart when the
      name holds no '|'. */
  lemma SplitKeyOf(name: string, j: nat)
    requires NoBar(name)
    ensures Split(KeyOf(name, j), " | ") == if j == 0 then [name] else [name, NatToString(j)]
    ensures Split(KeyOf(name, j), " |") == if j == 0 then [name] else [name, " " + NatToString(j)]
  {
    if j == 0 {
      SplitWithoutBar(name, " | ", 1);
      SplitWithoutBar(name, " |", 1);
    } else {
      DigitsHaveNoBar(NatToString(j));
      SplitNumbered(name, NatToString(j));
      SplitNumberedShort(name, NatToString(j));
    }
  }

  /** The name and number remove_pdf reads from a key: what precedes the
      first " | ", and the last piece, or "0" when there is no " | ". */
  function KeyParts(key: string): (string, string)
  {
    var parts := Split(key, " | ");
    (parts[0], if |parts| == 1 then "0" else Last(parts))
  }

  lemma KeyPartsOfKey(name: string, j: nat)
    requires NoBar(name)
    ensures KeyParts(KeyOf(name, j)) == (name, NatToString(j))
  {
    SplitKeyOf(name, j);
  }

  /** Distinct names without '|' and distinct numbers give distinct keys. */
  lemma KeyOfInjective(n1: string, j1: nat, n2: string, j2: nat)
    requires NoBar(n1) && NoBar(n2)
    ensures KeyOf(n1, j1) == KeyOf(n2, j2) ==> n1 == n2 && j1 == j2
  {
    KeyPartsOfKey(n1, j1);
    KeyPartsOfKey(n2, j2);
    DigitsOfNat(j1);
    DigitsOfNat(j2);
  }

  /** Within one name, the numbered keys are distinct (for any name). */
  lemma NumberedKeyInjective(name: string, i: nat, j: nat)
    requires i >= 1 && j >= 1 && KeyOf(name, i) == KeyOf(name, j)
    ensures i == j
  {
    assert KeyOf(name, i)[|name| + 3..] == NatToString(i);
    assert KeyOf(name, j)[|name| + 3..] == NatToString(j);
    NatToStringInjective(i, j);
  }

  /** The index remove_pdf reads from the removed key: the last piece of
      `split(" |")` as an int, or 0 when there is a single piece; None when
      int() raises ValueError. */
  function RemovedIndex(key: string): Option<int>
  {
    var parts := Split(key, " |");
    if |parts| > 1 then ParseInt(Last(parts)) else Some(0)
  }

  lemma RemovedIndexOfKey(name: string, j: nat)
    requires NoBar(name)
    ensures RemovedIndex(KeyOf(name, j)) == Some(j)
  {
    SplitKeyOf(name, j);
    ParseFormatted(j);
  }

  /** The keys `name | 1` .. `name | j`. */
  function NumberedKeys(name: string, j: nat): set<string>
  {
    set i: nat | 1 <= i <= j :: KeyOf(name, i)
  }

  lemma {:induction false} NumberedKeysCount(name: string, j: nat)
    ensures |NumberedKeys(name, j)| == j
    decreases j
  {
    if j > 0 {
      NumberedKeysCount(name, j - 1);
      assert NumberedKeys(name, j) == NumberedKeys(name, j - 1) + {KeyOf(name, j)};
      if KeyOf(name, j) in NumberedKeys(name, j - 1) {
        var i: nat :| 1 <= i <= j - 1 && KeyOf(name, i) == KeyOf(name, j);
        NumberedKeyInjective(name, i, j);
      }
    }
  }

  lemma {:induction false} ElementsCount(s: seq<string>)
    ensures |set x | x in s| <= |s|
    decreases |s|
  {
    if |s| > 0 {
      ElementsCount(s[1..]);
      var whole := set x | x in s;
      var tail := set x | x in s[1..];
      assert whole == tail + {s[0]};
      if s[0] in tail {
        assert whole == tail;
      } else {
        assert |whole| == |tail| + 1;
      }
    }
  }

  /** A sequence of keys holding `name | 1` .. `name | j` has at least j
      elements: the counter in add_pdf cannot run past the queue's size. */
  lemma NumberedKeysBound(keys: seq<string>, name: string, j: nat)
    requires forall i: nat :: 1 <= i <= j ==> KeyOf(name, i) in keys
    ensures j <= |keys|
  {
    NumberedKeysCount(name, j);
    ElementsCount(keys);
    SubsetCount(NumberedKeys(name, j), set x | x in keys);
  }

  lemma {:induction false} SubsetCount(a: set<string>, b: set<string>)
    requires a <= b
    ensures |a| <= |b|
    decreases |a|
  {
    if a != {} {
      var x :| x in a;
      SubsetCount(a - {x}, b - {x});
    }
  }

  // ---------------------------------------------------------------------
  // The registry as an insertion-ordered dictionary

  /** One item of the queue dictionary: display key and session. */
  datatype Entry = Entry(key: string, pdf: PdfDocInstance)

  /** The argument of add_pdf, by its run-time type. */
  datatype Item = Instance(inst: PdfDocInstance) | Other

  function KeysOf(q: seq<Entry>): (keys: seq<string>)
    ensures |keys| == |q| && forall i :: 0 <= i < |q| ==> keys[i] == q[i].key
  {
    seq(|q|, i requires 0 <= i < |q| => q[i].key)
  }

  /** What every Python dict guarantees: no key twice. */
  predicate DistinctKeys(q: seq<Entry>)
  {
    forall i, j :: 0 <= i < j < |q| ==> q[i].key != q[j].key
  }

  /** The first position at or after k holding `key`. */
  function IndexOfKeyFrom(q: seq<Entry>, key: string, k: nat): (r: Option<nat>)
    requires k <= |q|
    ensures r.Some? ==> k <= r.value < |q| && q[r.value].key == key
    ensures forall i :: k <= i < |q| && (r.None? || i < r.value) ==> q[i].key != key
    decreases |q| - k
  {
    if k == |q| then None
    else if q[k].key == key then Some(k)
    else IndexOfKeyFrom(q, key, k + 1)
  }

  /** The position of `key`, or None (KeyError). */
  function IndexOfKey(q: seq<Entry>, key: string): (r: Option<nat>)
    ensures r.Some? ==> r.value < |q| && q[r.value].key == key
    ensures r.None? <==> key !in KeysOf(q)
    ensures r.Some? && DistinctKeys(q) ==> forall i :: 0 <= i < |q| && q[i].key == key ==> i == r.value
  {
    var r := IndexOfKeyFrom(q, key, 0);
    var keys := KeysOf(q);
    assert r.Some? ==> keys[r.value] == key;
    assert key in keys ==> exists i :: 0 <= i < |q| && keys[i] == key;
    r
  }

  /** Dictionary assignment `d[key] = pdf`: an existing key keeps its
      position and gets the new value, a new key goes at the end. */
  function Put(q: seq<Entry>, key: string, pdf: PdfDocInstance): seq<Entry>
  {
    match IndexOfKey(q, key)
    case Some(i) => q[i := Entry(key, pdf)]
    case None => q + [Entry(key, pdf)]
  }

  /** Assignment keeps the keys distinct; a new key is appended, and an
      existing one keeps its place. */
  lemma PutProperties(q: seq<Entry>, key: string, pdf: PdfDocInstance)
    ensures DistinctKeys(q) ==> DistinctKeys(Put(q, key, pdf))
    ensures key !in KeysOf(q) ==> Put(q, key, pdf) == q + [Entry(key, pdf)]
    ensures key in KeysOf(q) ==> KeysOf(Put(q, key, pdf)) == KeysOf(q)
    ensures Entry(key, pdf) in Put(q, key, pdf)
  {
    if key in KeysOf(q) {
      assert KeysOf(Put(q, key, pdf)) == KeysOf(q);
    }
  }

  /** The effect of one item of the old queue on the rebuilt one in
      remove_pdf: its new key, None when it is the removed document, or
      ValueError when int() cannot read its number. */
  function Renamed(e: Entry, name: string, removedI: int): Result<Option<string>, Error>
  {
    var (head, number) := KeyParts(e.key);
    if head != name then Ok(Some(e.key))
    else
      match ParseInt(number)
      case None => Err(ValueError)
      case Some(n) =>
        if n > removedI then
          Ok(Some(if n - 1 < 1 then head else head + " | " + NatToString(n - 1)))
        else if n == removedI then Ok(None)
        else Ok(Some(e.key))
  }

  /** The loop of remove_pdf over the rest `q` of the old queue, with
      `acc` the updated queue built so far. */
  function Rebuild(q: seq<Entry>, name: string, removedI: int, acc: seq<Entry>): Result<seq<Entry>, Error>
    decreases |q|
  {
    if |q| == 0 then Ok(acc)
    else
      match Renamed(q[0], name, removedI)
      case Err(e) => Err(e)
      case Ok(None) => Rebuild(q[1..], name, removedI, acc)
      case Ok(Some(k)) => Rebuild(q[1..], name, removedI, Put(acc, k, q[0].pdf))
  }

  /** The loop of remove_pdf: the queue rebuilt item by item, stopping at
      the first ValueError. */
  method RebuildQueue(q: seq<Entry>, name: string, removedI: int) returns (r: Result<seq<Entry>, Error>)
    ensures r == Rebuild(q, name, removedI, [])
  {
    var updated: seq<Entry> := [];
    var k := 0;
    while k < |q|
      invariant 0 <= k <= |q|
      invariant Rebuild(q[k..], name, removedI, updated) == Rebuild(q, name, removedI, [])
    {
      assert q[k..][0] == q[k] && q[k..][1..] == q[k + 1..];
      match Renamed(q[k], name, removedI) {
        case Err(e) =>
          return Err(e);
        case Ok(None) =>
        case Ok(Some(newKey)) =>
          updated := Put(updated, newKey, q[k].pdf);
      }
      k := k + 1;
    }
    r := Ok(updated);
  }

  /** The queue remove_pdf(key) leaves, or the exception it raises. */
  function RemovalResult(q: seq<Entry>, key: string): Result<seq<Entry>, Error>
  {
    match IndexOfKey(q, key)
    case None => Err(KeyError)
    case Some(i) =>
      match RemovedIndex(key)
      case None => Err(ValueError)
      case Some(r) => Rebuild(q, q[i].pdf.name, r, [])
  }

  /** The sessions a queue refers to. */
  function Sessions(q: seq<Entry>): set<PdfDocInstance>
  {
    set i | 0 <= i < |q| :: q[i].pdf
  }

  /** get_unsaved: the keys of the modified sessions, in queue order. */
  function UnsavedKeys(q: seq<Entry>): seq<string>
    reads Sessions(q)
    decreases |q|
  {
    if |q| == 0 then []
    else
      assert Sessions(q[1..]) <= Sessions(q) by {
        forall i | 0 <= i < |q[1..]| ensures q[1..][i].pdf in Sessions(q) {
          assert q[1..][i] == q[i + 1];
        }
      }
      (if q[0].pdf.modsMade then [q[0].key] else []) + UnsavedKeys(q[1..])
  }

  /** get_unsaved lists exactly the keys of modified sessions. */
  lemma {:induction false} UnsavedKeysExact(q: seq<Entry>, k: string)
    ensures k in UnsavedKeys(q) <==> exists i :: 0 <= i < |q| && q[i].key == k && q[i].pdf.modsMade
    ensures |UnsavedKeys(q)| <= |q|
    decreases |q|
  {
    if |q| > 0 {
      UnsavedKeysExact(q[1..], k);
      if exists i :: 1 <= i < |q| && q[i].key == k && q[i].pdf.modsMade {
        var i :| 1 <= i < |q| && q[i].key == k && q[i].pdf.modsMade;
        assert q[1..][i - 1] == q[i];
      }
      if exists i :: 0 <= i < |q[1..]| && q[1..][i].key == k && q[1..][i].pdf.modsMade {
        var i :| 0 <= i < |q[1..]| && q[1..][i].key == k && q[1..][i].pdf.modsMade;
        assert q[i + 1] == q[1..][i];
      }
    }
  }

  /** PDF_Queue: the open documents by display key, in insertion order.
      Two keys may refer to the same session object. */
  class PdfQueue {
    var queue: seq<Entry>

    predicate Valid()
      reads this
    {
      DistinctKeys(queue)
    }

    constructor ()
      ensures queue == [] && Valid()
    {
      queue := [];
    }

    /** is_empty */
    function IsEmpty(): (r: bool)
      reads this
      ensures r <==> KeysOf(queue) == []
    {
      |queue| == 0
    }

    /** __getitem__ */
    function Get(key: string): (r: Result<PdfDocInstance, Error>)
      reads this
      ensures r.Ok? <==> key in KeysOf(queue)
      ensures r.Ok? ==> exists i :: 0 <= i < |queue| && queue[i] == Entry(key, r.value)
      ensures r.Err? ==> r.error == KeyError
    {
      match IndexOfKey(queue, key)
      case None => Err(KeyError)
      case Some(i) => Ok(queue[i].pdf)
    }

    /** add_pdf: the bare name when it is not yet a key, otherwise
        "name | n" for the smallest n >= 1 that is not a key. */
    method AddPdf(item: Item) returns (r: Result<string, Error>)
      modifies this`queue
      ensures !item.Instance? ==> r == Err(NotAnInstance) && queue == old(queue)
      ensures item.Instance? ==>
                r.Ok? && r.value !in KeysOf(old(queue)) &&
                queue == old(queue) + [Entry(r.value, item.inst)]
      ensures item.Instance? && item.inst.name !in KeysOf(old(queue)) ==> r == Ok(item.inst.name)
      ensures item.Instance? && item.inst.name in KeysOf(old(queue)) ==>
                exists j: nat :: j >= 1 && r == Ok(KeyOf(item.inst.name, j)) &&
                  forall i: nat :: 1 <= i < j ==> KeyOf(item.inst.name, i) in KeysOf(old(queue))
      ensures old(Valid()) ==> Valid()
    {
      if !item.Instance? {
        return Err(NotAnInstance);
      }
      var inst := item.inst;
      if inst.name !in KeysOf(queue) {
        PutProperties(queue, inst.name, inst);
        queue := Put(queue, inst.name, inst);
        return Ok(inst.name);
      }
      var j: nat := 1;
      while KeyOf(inst.name, j) in KeysOf(queue)
        invariant j >= 1 && queue == old(queue)
        invariant forall i: nat :: 1 <= i < j ==> KeyOf(inst.name, i) in KeysOf(queue)
        decreases |queue| + 1 - j
      {
        NumberedKeysBound(KeysOf(queue), inst.name, j);
        j := j + 1;
      }
      var key := KeyOf(inst.name, j);
      assert key !in KeysOf(queue);
      PutProperties(queue, key, inst);
      queue := Put(queue, key, inst);
      r := Ok(key);
    }

    /** remove_pdf: the session under `key` leaves the queue, and the other
        sessions of the same name are renumbered. Nothing changes when an
        exception is raised. */
    method RemovePdf(key: string) returns (r: Outcome<Error>)
      modifies this`queue
      ensures RemovalResult(old(queue), key).Ok? ==> r == Pass && queue == RemovalResult(old(queue), key).value
      ensures RemovalResult(old(queue), key).Err? ==>
                r == Fail(RemovalResult(old(queue), key).error) && queue == old(queue)
    {
      var pos := IndexOfKey(queue, key);
      if pos.None? {
        return Fail(KeyError);
      }
      var nameToCheck := queue[pos.value].pdf.name;
      var removedI := RemovedIndex(key);
      if removedI.None? {
        return Fail(ValueError);
      }
      var rebuilt := RebuildQueue(queue, nameToCheck, removedI.value);
      if rebuilt.Err? {
        return Fail(rebuilt.error);
      }
      queue := rebuilt.value;
      r := Pass;
    }

    /** set_unsaved: the session under `key` is marked modified. */
    method SetUnsaved(key: string) returns (r: Outcome<Error>)
      modifies Sessions(queue)`modsMade
      ensures key !in KeysOf(queue) ==> r == Fail(KeyError) && unchanged(Sessions(queue)`modsMade)
      ensures key in KeysOf(queue) ==> r == Pass && Get(key).value.modsMade
      ensures forall s :: s in Sessions(queue) && (Get(key).Err? || s != Get(key).value) ==> s.modsMade == old(s.modsMade)
    {
      match IndexOfKey(queue, key) {
        case None =>
          return Fail(KeyError);
        case Some(i) =>
          queue[i].pdf.modsMade := true;
          r := Pass;
      }
    }

    /** set_saved: the session under `key` is marked saved. */
    method SetSaved(key: string) returns (r: Outcome<Error>)
      modifies Sessions(queue)`modsMade
      ensures key !in KeysOf(queue) ==> r == Fail(KeyError) && unchanged(Sessions(queue)`modsMade)
      ensures key in KeysOf(queue) ==> r == Pass && !Get(key).value.modsMade
      ensures forall s :: s in Sessions(queue) && (Get(key).Err? || s != Get(key).value) ==> s.modsMade == old(s.modsMade)
    {
      match IndexOfKey(queue, key) {
        case None =>
          return Fail(KeyError);
        case Some(i) =>
          queue[i].pdf.modsMade := false;
          r := Pass;
      }
    }

    /** get_keys: one label per entry in queue order, "*" before the key of
        a modified session. */
    method GetKeys() returns (keys: seq<string>)
      ensures |keys| == |queue|
      ensures forall i :: 0 <= i < |queue| ==>
                keys[i] == if queue[i].pdf.modsMade then "*" + queue[i].key else queue[i].key
    {
      keys := [];
      var i := 0;
      while i < |queue|
        invariant 0 <= i <= |queue| && |keys| == i
        invariant forall j :: 0 <= j < i ==>
                    keys[j] == if queue[j].pdf.modsMade then "*" + queue[j].key else queue[j].key
      {
        if queue[i].pdf.modsMade {
          keys := keys + ["*" + queue[i].key];
        } else {
          keys := keys + [queue[i].key];
        }
        i := i + 1;
      }
    }

    /** get_unsaved */
    method GetUnsaved() returns (keys: seq<string>)
      ensures keys == UnsavedKeys(queue)
    {
      keys := [];
      var i := 0;
      while i < |queue|
        invariant 0 <= i <= |queue|
        invariant keys + UnsavedKeys(queue[i..]) == UnsavedKeys(queue)
      {
        assert queue[i..][1..] == queue[i + 1..];
        if queue[i].pdf.modsMade {
          keys := keys + [queue[i].key];
        }
        i := i + 1;
      }
      assert queue[i..] == [];
    }
  }

  // ---------------------------------------------------------------------
  // remove_pdf on a registry that add_pdf built

  /** Every key is KeyOf(name, idx[i]) for its session's name, and no name
      holds '|': the form add_pdf gives keys. */
  predicate Canonical(q: seq<Entry>, idx: seq<nat>)
  {
    |idx| == |q| &&
    forall i :: 0 <= i < |q| ==> NoBar(q[i].pdf.name) && q[i].key == KeyOf(q[i].pdf.name, idx[i])
  }

  /** The entry numbered r under `name`, the one being removed. */
  predicate IsRemoved(e: Entry, j: nat, name: string, r: nat)
  {
    e.pdf.name == name && j == r
  }

  /** The number an entry has after the one numbered r under `name` is
      removed: later siblings move down by one. */
  function Renumber(e: Entry, j: nat, name: string, r: nat): nat
  {
    if e.pdf.name == name && j > r then j - 1 else j
  }

  /** The queue remove_pdf is meant to leave: the removed entry is dropped
      and the later siblings are renumbered. */
  function Expected(q: seq<Entry>, idx: seq<nat>, name: string, r: nat): seq<Entry>
    requires |idx| == |q|
    decreases |q|
  {
    if |q| == 0 then []
    else
      var rest := Expected(q[1..], idx[1..], name, r);
      if IsRemoved(q[0], idx[0], name, r) then rest
      else [Entry(KeyOf(q[0].pdf.name, Renumber(q[0], idx[0], name, r)), q[0].pdf)] + rest
  }

  /** One entry of a canonical queue, as remove_pdf's loop handles it. */
  lemma RenamedCanonical(e: Entry, j: nat, name: string, r: nat)
    requires NoBar(e.pdf.name) && e.key == KeyOf(e.pdf.name, j)
    ensures Renamed(e, name, r) ==
              if IsRemoved(e, j, name, r) then Ok(None)
              else Ok(Some(KeyOf(e.pdf.name, Renumber(e, j, name, r))))
  {
    KeyPartsOfKey(e.pdf.name, j);
    ParseFormatted(j);
  }

  lemma CanonicalTail(q: seq<Entry>, idx: seq<nat>)
    requires Canonical(q, idx) && |q| > 0
    ensures Canonical(q[1..], idx[1..])
  {
    forall i | 0 <= i < |q| - 1
      ensures NoBar(q[1..][i].pdf.name) && q[1..][i].key == KeyOf(q[1..][i].pdf.name, idx[1..][i])
    {
      assert q[1..][i] == q[i + 1] && idx[1..][i] == idx[i + 1];
    }
  }

  /** Two kept entries of a canonical queue with different keys keep
      different keys. */
  lemma KeptKeysDiffer(e1: Entry, j1: nat, e2: Entry, j2: nat, name: string, r: nat)
    requires NoBar(e1.pdf.name) && e1.key == KeyOf(e1.pdf.name, j1)
    requires NoBar(e2.pdf.name) && e2.key == KeyOf(e2.pdf.name, j2)
    requires !IsRemoved(e1, j1, name, r) && !IsRemoved(e2, j2, name, r)
    ensures e1.key != e2.key ==>
              KeyOf(e1.pdf.name, Renumber(e1, j1, name, r)) != KeyOf(e2.pdf.name, Renumber(e2, j2, name, r))
  {
    KeyOfInjective(e1.pdf.name, Renumber(e1, j1, name, r), e2.pdf.name, Renumber(e2, j2, name, r));
  }

  lemma {:induction false} ExpectedMember(q: seq<Entry>, idx: seq<nat>, name: string, r: nat, k: string)
    requires |idx| == |q|
    ensures k in KeysOf(Expected(q, idx, name, r)) ==>
              exists b :: 0 <= b < |q| && !IsRemoved(q[b], idx[b], name, r) &&
                k == KeyOf(q[b].pdf.name, Renumber(q[b], idx[b], name, r))
    decreases |q|
  {
    if |q| > 0 {
      ExpectedMember(q[1..], idx[1..], name, r, k);
      var rest := Expected(q[1..], idx[1..], name, r);
      if k in KeysOf(rest) {
        var b :| 0 <= b < |q| - 1 && !IsRemoved(q[1..][b], idx[1..][b], name, r) &&
          k == KeyOf(q[1..][b].pdf.name, Renumber(q[1..][b], idx[1..][b], name, r));
        assert q[1..][b] == q[b + 1] && idx[1..][b] == idx[b + 1];
      }
      if !IsRemoved(q[0], idx[0], name, r) {
        assert KeysOf(Expected(q, idx, name, r)) ==
               [KeyOf(q[0].pdf.name, Renumber(q[0], idx[0], name, r))] + KeysOf(rest);
      }
    }
  }

  /** The expected queue has distinct keys again. */
  lemma {:induction false} ExpectedDistinct(q: seq<Entry>, idx: seq<nat>, name: string, r: nat)
    requires Canonical(q, idx) && DistinctKeys(q)
    ensures DistinctKeys(Expected(q, idx, name, r))
    decreases |q|
  {
    if |q| > 0 {
      CanonicalTail(q, idx);
      ExpectedDistinct(q[1..], idx[1..], name, r);
      var rest := Expected(q[1..], idx[1..], name, r);
      if !IsRemoved(q[0], idx[0], name, r) {
        var k0 := KeyOf(q[0].pdf.name, Renumber(q[0], idx[0], name, r));
        ExpectedMember(q[1..], idx[1..], name, r, k0);
        forall b | 0 <= b < |q| - 1 && !IsRemoved(q[1..][b], idx[1..][b], name, r)
          ensures k0 != KeyOf(q[1..][b].pdf.name, Renumber(q[1..][b], idx[1..][b], name, r))
        {
          assert q[1..][b] == q[b + 1] && idx[1..][b] == idx[b + 1];
          KeptKeysDiffer(q[0], idx[0], q[b + 1], idx[b + 1], name, r);
        }
        assert k0 !in KeysOf(rest);
        var e := Entry(k0, q[0].pdf);
        forall i, j | 0 <= i < j < |[e] + rest|
          ensures ([e] + rest)[i].key != ([e] + rest)[j].key
        {
          if i > 0 {
            assert ([e] + rest)[i] == rest[i - 1] && ([e] + rest)[j] == rest[j - 1];
          } else {
            assert ([e] + rest)[j].key == KeysOf(rest)[j - 1];
          }
        }
      }
    }
  }

  /** remove_pdf's loop builds the expected queue behind `acc` when no new
      key collides. */
  lemma {:induction false} RebuildAppends(q: seq<Entry>, idx: seq<nat>, name: string, r: nat, acc: seq<Entry>)
    requires Canonical(q, idx) && DistinctKeys(acc + Expected(q, idx, name, r))
    ensures Rebuild(q, name, r, acc) == Ok(acc + Expected(q, idx, name, r))
    decreases |q|
  {
    if |q| == 0 {
      assert acc + [] == acc;
    } else {
      RenamedCanonical(q[0], idx[0], name, r);
      CanonicalTail(q, idx);
      var rest := Expected(q[1..], idx[1..], name, r);
      if IsRemoved(q[0], idx[0], name, r) {
        RebuildAppends(q[1..], idx[1..], name, r, acc);
      } else {
        var k0 := KeyOf(q[0].pdf.name, Renumber(q[0], idx[0], name, r));
        var e := Entry(k0, q[0].pdf);
        var all := acc + Expected(q, idx, name, r);
        assert all == (acc + [e]) + rest;
        forall i | 0 <= i < |acc| ensures acc[i].key != k0 {
          assert all[i] == acc[i] && all[|acc|] == e;
        }
        assert k0 !in KeysOf(acc);
        PutProperties(acc, k0, q[0].pdf);
        RebuildAppends(q[1..], idx[1..], name, r, acc + [e]);
      }
    }
  }

  /** Without the removed entry, the expected queue renames in place. */
  lemma {:induction false} ExpectedNoneRemoved(q: seq<Entry>, idx: seq<nat>, name: string, r: nat)
    requires |idx| == |q|
    requires forall b :: 0 <= b < |q| ==> !IsRemoved(q[b], idx[b], name, r)
    ensures var res := Expected(q, idx, name, r);
              |res| == |q| &&
              forall b :: 0 <= b < |q| ==> res[b] == Entry(KeyOf(q[b].pdf.name, Renumber(q[b], idx[b], name, r)), q[b].pdf)
    decreases |q|
  {
    if |q| > 0 {
      forall b | 0 <= b < |q| - 1 ensures !IsRemoved(q[1..][b], idx[1..][b], name, r) {
        assert q[1..][b] == q[b + 1] && idx[1..][b] == idx[b + 1];
      }
      ExpectedNoneRemoved(q[1..], idx[1..], name, r);
      var rest := Expected(q[1..], idx[1..], name, r);
      forall b | 1 <= b < |q|
        ensures Expected(q, idx, name, r)[b] == Entry(KeyOf(q[b].pdf.name, Renumber(q[b], idx[b], name, r)), q[b].pdf)
      {
        assert q[1..][b - 1] == q[b] && idx[1..][b - 1] == idx[b];
      }
    }
  }

  /** With exactly one removed entry, at i, the others keep their order. */
  lemma {:induction false} ExpectedOneRemoved(q: seq<Entry>, idx: seq<nat>, name: string, r: nat, i: nat)
    requires |idx| == |q| && i < |q| && IsRemoved(q[i], idx[i], name, r)
    requires forall b :: 0 <= b < |q| && b != i ==> !IsRemoved(q[b], idx[b], name, r)
    ensures var res := Expected(q, idx, name, r);
              |res| == |q| - 1 &&
              forall b :: 0 <= b < |q| && b != i ==>
                res[if b < i then b else b - 1] ==
                  Entry(KeyOf(q[b].pdf.name, Renumber(q[b], idx[b], name, r)), q[b].pdf)
    decreases |q|
  {
    if i == 0 {
      forall b | 0 <= b < |q| - 1 ensures !IsRemoved(q[1..][b], idx[1..][b], name, r) {
        assert q[1..][b] == q[b + 1] && idx[1..][b] == idx[b + 1];
      }
      ExpectedNoneRemoved(q[1..], idx[1..], name, r);
      forall b | 1 <= b < |q|
        ensures Expected(q, idx, name, r)[b - 1] == Entry(KeyOf(q[b].pdf.name, Renumber(q[b], idx[b], name, r)), q[b].pdf)
      {
        assert q[1..][b - 1] == q[b] && idx[1..][b - 1] == idx[b];
      }
    } else {
      forall b | 0 <= b < |q| - 1 && b != i - 1 ensures !IsRemoved(q[1..][b], idx[1..][b], name, r) {
        assert q[1..][b] == q[b + 1] && idx[1..][b] == idx[b + 1];
      }
      assert q[1..][i - 1] == q[i] && idx[1..][i - 1] == idx[i];
      ExpectedOneRemoved(q[1..], idx[1..], name, r, i - 1);
      forall b | 1 <= b < |q| && b != i
        ensures Expected(q, idx, name, r)[if b < i then b else b - 1] ==
                Entry(KeyOf(q[b].pdf.name, Renumber(q[b], idx[b], name, r)), q[b].pdf)
      {
        assert q[1..][b - 1] == q[b] && idx[1..][b - 1] == idx[b];
      }
    }
  }

  /** remove_pdf on a registry in the form add_pdf builds: it succeeds and
      drops exactly the entry under `key`; entries of other names, and
      siblings numbered below it, keep their keys; siblings numbered above
      it move down by one, number 1 becoming the bare name; the order of
      the remaining entries is kept and their keys stay distinct. */
  lemma RemovePdfRenumbers(q: seq<Entry>, idx: seq<nat>, key: string)
    requires Canonical(q, idx) && DistinctKeys(q) && key in KeysOf(q)
    ensures RemovalResult(q, key).Ok?
    ensures var i := IndexOfKey(q, key).value;
            var name := q[i].pdf.name;
            var r := idx[i];
            var res := RemovalResult(q, key).value;
              |res| == |q| - 1 && DistinctKeys(res) &&
              (forall b :: 0 <= b < |q| && b != i && q[b].pdf.name != name ==>
                 res[if b < i then b else b - 1] == q[b]) &&
              (forall b :: 0 <= b < |q| && b != i && q[b].pdf.name == name && idx[b] < r ==>
                 res[if b < i then b else b - 1] == q[b]) &&
              (forall b :: 0 <= b < |q| && b != i && q[b].pdf.name == name && idx[b] > r ==>
                 res[if b < i then b else b - 1] == Entry(KeyOf(name, idx[b] - 1), q[b].pdf))
  {
    var i := IndexOfKey(q, key).value;
    var name := q[i].pdf.name;
    var r := idx[i];
    RemovedIndexOfKey(name, r);
    ExpectedDistinct(q, idx, name, r);
    assert [] + Expected(q, idx, name, r) == Expected(q, idx, name, r);
    RebuildAppends(q, idx, name, r, []);
    ExpectedOneRemoved(q, idx, name, r, i);
  }

  /** The keys of the entries whose session has `name`. */
  function NameKeys(q: seq<Entry>, name: string): set<string>
  {
    set b | 0 <= b < |q| && q[b].pdf.name == name :: q[b].key
  }

  lemma NameKeysHas(q: seq<Entry>, name: string, b: nat)
    requires b < |q| && q[b].pdf.name == name
    ensures q[b].key in NameKeys(q, name)
  {
  }

  /** The dense key set name, name | 1, ..., name | (c - 1). */
  function DenseKeys(name: string, c: nat): set<string>
  {
    set j: nat | j < c :: KeyOf(name, j)
  }

  /** The facts the two halves of the density proof share. */
  predicate RemovalSetting(q: seq<Entry>, idx: seq<nat>, i: nat, c: nat)
  {
    Canonical(q, idx) && DistinctKeys(q) && i < |q| && idx[i] < c &&
    NameKeys(q, q[i].pdf.name) == DenseKeys(q[i].pdf.name, c)
  }

  /** `res` is `q` without entry i, its siblings renumbered. */
  predicate ShiftedOut(q: seq<Entry>, idx: seq<nat>, i: nat, res: seq<Entry>)
    requires |idx| == |q| && i < |q|
  {
    |res| == |q| - 1 &&
    forall b :: 0 <= b < |q| && b != i ==>
      res[if b < i then b else b - 1] ==
        Entry(KeyOf(q[b].pdf.name, Renumber(q[b], idx[b], q[i].pdf.name, idx[i])), q[b].pdf)
  }

  /** One key of `name` after the removal is among the first c - 1. */
  lemma DenseShrinksAt(q: seq<Entry>, idx: seq<nat>, i: nat, c: nat, res: seq<Entry>, b': nat)
    requires RemovalSetting(q, idx, i, c) && ShiftedOut(q, idx, i, res)
    requires b' < |res| && res[b'].pdf.name == q[i].pdf.name
    ensures res[b'].key in DenseKeys(q[i].pdf.name, c - 1)
  {
    var name := q[i].pdf.name;
    var r := idx[i];
    var b := if b' < i then b' else b' + 1;
    assert res[if b < i then b else b - 1] == res[b'];
    NameKeysHas(q, name, b);
    var t: nat :| t < c && KeyOf(name, t) == q[b].key;
    KeyOfInjective(name, t, name, idx[b]);
    assert q[b].key != q[i].key;
    var nb := if idx[b] > r then idx[b] - 1 else idx[b];
    assert res[b'].key == KeyOf(name, nb) && nb < c - 1;
  }

  lemma DenseShrinks(q: seq<Entry>, idx: seq<nat>, i: nat, c: nat, res: seq<Entry>)
    requires RemovalSetting(q, idx, i, c) && ShiftedOut(q, idx, i, res)
    ensures NameKeys(res, q[i].pdf.name) <= DenseKeys(q[i].pdf.name, c - 1)
  {
    var name := q[i].pdf.name;
    forall k | k in NameKeys(res, name)
      ensures k in DenseKeys(name, c - 1)
    {
      var b' :| 0 <= b' < |res| && res[b'].pdf.name == name && res[b'].key == k;
      DenseShrinksAt(q, idx, i, c, res, b');
    }
  }

  /** One of the first c - 1 keys of `name` is there after the removal. */
  lemma DenseCoveredAt(q: seq<Entry>, idx: seq<nat>, i: nat, c: nat, res: seq<Entry>, j: nat)
    requires RemovalSetting(q, idx, i, c) && ShiftedOut(q, idx, i, res)
    requires j < c - 1
    ensures KeyOf(q[i].pdf.name, j) in NameKeys(res, q[i].pdf.name)
  {
    var name := q[i].pdf.name;
    var r := idx[i];
    var t: nat := if j < r then j else j + 1;
    assert KeyOf(name, t) in DenseKeys(name, c);
    assert KeyOf(name, t) in NameKeys(q, name);
    var b :| 0 <= b < |q| && q[b].pdf.name == name && q[b].key == KeyOf(name, t);
    KeyOfInjective(name, t, name, idx[b]);
    assert idx[b] == t && b != i;
    var b' := if b < i then b else b - 1;
    assert res[b'] == Entry(KeyOf(name, Renumber(q[b], idx[b], name, r)), q[b].pdf);
    NameKeysHas(res, name, b');
  }

  lemma DenseCovered(q: seq<Entry>, idx: seq<nat>, i: nat, c: nat, res: seq<Entry>)
    requires RemovalSetting(q, idx, i, c) && ShiftedOut(q, idx, i, res)
    ensures DenseKeys(q[i].pdf.name, c - 1) <= NameKeys(res, q[i].pdf.name)
  {
    var name := q[i].pdf.name;
    forall k | k in DenseKeys(name, c - 1)
      ensures k in NameKeys(res, name)
    {
      var j: nat :| j < c - 1 && k == KeyOf(name, j);
      DenseCoveredAt(q, idx, i, c, res, j);
    }
  }

  /** Removal keeps the numbering dense: if a name's keys are exactly the
      first c keys, afterwards they are exactly the first c - 1. */
  lemma RemovePdfKeepsDense(q: seq<Entry>, idx: seq<nat>, key: string, c: nat)
    requires Canonical(q, idx) && DistinctKeys(q) && key in KeysOf(q)
    requires NameKeys(q, q[IndexOfKey(q, key).value].pdf.name) == DenseKeys(q[IndexOfKey(q, key).value].pdf.name, c)
    ensures RemovalResult(q, key).Ok?
    ensures c >= 1
    ensures NameKeys(RemovalResult(q, key).value, q[IndexOfKey(q, key).value].pdf.name) ==
            DenseKeys(q[IndexOfKey(q, key).value].pdf.name, c - 1)
  {
    var i := IndexOfKey(q, key).value;
    var name := q[i].pdf.name;
    var r := idx[i];
    RemovePdfRenumbers(q, idx, key);
    assert q[i].key in NameKeys(q, name);
    var ri: nat :| ri < c && KeyOf(name, ri) == q[i].key;
    KeyOfInjective(name, ri, name, r);
    RemovedIndexOfKey(name, r);
    ExpectedDistinct(q, idx, name, r);
    assert [] + Expected(q, idx, name, r) == Expected(q, idx, name, r);
    RebuildAppends(q, idx, name, r, []);
    ExpectedOneRemoved(q, idx, name, r, i);
    var res := Expected(q, idx, name, r);
    DenseShrinks(q, idx, i, c, res);
    DenseCovered(q, idx, i, c, res);
  }
}
