/** utility-apps/tamper_check.py: the installation check. The MD5 digests
    of the local `.py` files are compared with the digests published for
    the current release; missing, modified and extra files are listed in
    sorted key order, and nothing is compared when the versions differ. */
module TamperCheck {
  import opened Wrappers
  import opened Strings

  /** One directory entry: its file name and its text. */
  datatype DirEntry = DirEntry(name: string, content: string)

  /** The digests generate_all_py_file_hashes builds from a directory
      listing: each `.py` file's name mapped to `md5` of its text (a later
      entry of the same name wins, as with a dict). */
  function PyFileHashes(listing: seq<DirEntry>, md5: string -> string): map<string, string>
  {
    if |listing| == 0 then map[]
    else
      var m := PyFileHashes(listing[..|listing| - 1], md5);
      var e := listing[|listing| - 1];
      if EndsWith(e.name, ".py") then m[e.name := md5(e.content)] else m
  }

  /** Exactly the `.py` names of the listing are keys. */
  lemma {:induction false} PyFileHashesKeys(listing: seq<DirEntry>, md5: string -> string, k: string)
    ensures k in PyFileHashes(listing, md5) <==>
              EndsWith(k, ".py") && exists i :: 0 <= i < |listing| && listing[i].name == k
    decreases |listing|
  {
    if |listing| > 0 {
      var init := listing[..|listing| - 1];
      PyFileHashesKeys(init, md5, k);
      if exists i :: 0 <= i < |init| && init[i].name == k {
        var i :| 0 <= i < |init| && init[i].name == k;
        assert listing[i].name == k;
      }
      if exists i :: 0 <= i < |listing| && listing[i].name == k {
        var i :| 0 <= i < |listing| && listing[i].name == k;
        if i < |init| {
          assert init[i].name == k;
        }
      }
    }
  }

  /** With distinct names, each `.py` file maps to the digest of its text. */
  lemma {:induction false} PyFileHashesValue(listing: seq<DirEntry>, md5: string -> string, i: nat)
    requires forall a, b :: 0 <= a < b < |listing| ==> listing[a].name != listing[b].name
    requires i < |listing| && EndsWith(listing[i].name, ".py")
    ensures listing[i].name in PyFileHashes(listing, md5)
    ensures PyFileHashes(listing, md5)[listing[i].name] == md5(listing[i].content)
    decreases |listing|
  {
    if i < |listing| - 1 {
      var init := listing[..|listing| - 1];
      assert init[i] == listing[i];
      PyFileHashesValue(init, md5, i);
    }
  }

  /** generate_all_py_file_hashes, over the directory listing. */
  method GenerateAllPyFileHashes(listing: seq<DirEntry>, md5: string -> string) returns (hashes: map<string, string>)
    ensures hashes == PyFileHashes(listing, md5)
  {
    hashes := map[];
    var i := 0;
    while i < |listing|
      invariant 0 <= i <= |listing|
      invariant hashes == PyFileHashes(listing[..i], md5)
    {
      assert listing[..i + 1][..i] == listing[..i];
      if EndsWith(listing[i].name, ".py") {
        hashes := hashes[listing[i].name := md5(listing[i].content)];
      }
      i := i + 1;
    }
    assert listing[..i] == listing;
  }

  /** Strictly increasing in the order of Python's `<` on str. */
  predicate StrictlySorted(s: seq<string>)
  {
    forall i, j :: 0 <= i < j < |s| ==> LexLess(s[i], s[j])
  }

  /** `x` put into its place in a sorted sequence. */
  function InsertSorted(s: seq<string>, x: string): (r: seq<string>)
    requires StrictlySorted(s) && x !in s
    ensures StrictlySorted(r) && |r| == |s| + 1
    ensures forall y :: y in r <==> y in s || y == x
    decreases |s|
  {
    if |s| == 0 then [x]
    else if LexLess(x, s[0]) then
      assert forall j :: 0 <= j < |s| ==> LexLess(x, s[j]) by {
        forall j | 0 <= j < |s| ensures LexLess(x, s[j]) {
          if j > 0 { LexTransitive(x, s[0], s[j]); }
        }
      }
      [x] + s
    else
      LexTotal(x, s[0]);
      var rest := InsertSorted(s[1..], x);
      assert forall j :: 0 <= j < |rest| ==> LexLess(s[0], rest[j]) by {
        forall j | 0 <= j < |rest| ensures LexLess(s[0], rest[j]) {
          if rest[j] != x {
            assert rest[j] in s[1..];
            var k :| 0 <= k < |s[1..]| && s[1..][k] == rest[j];
            assert s[k + 1] == rest[j];
          }
        }
      }
      [s[0]] + rest
  }

  /** `list(d.keys())` followed by `sort()`. */
  method SortKeys(keys: set<string>) returns (s: seq<string>)
    ensures StrictlySorted(s) && |s| == |keys|
    ensures forall x :: x in s <==> x in keys
  {
    s := [];
    var rest := keys;
    while rest != {}
      invariant StrictlySorted(s) && rest <= keys
      invariant forall x :: x in s <==> x in keys && x !in rest
      invariant |s| + |rest| == |keys|
      decreases |rest|
    {
      var x :| x in rest;
      s := InsertSorted(s, x);
      rest := rest - {x};
    }
  }

  /** Two sorted listings of the same keys are the same list; so the
      comparison of the sorted key lists compares the key sets. */
  lemma {:induction false} SortedUnique(a: seq<string>, b: seq<string>)
    requires StrictlySorted(a) && StrictlySorted(b)
    requires forall x :: x in a <==> x in b
    ensures a == b
    decreases |a|
  {
    assert |a| > 0 ==> a[0] in b;
    assert |b| > 0 ==> b[0] in a;
    if |a| > 0 {
      assert b[0] in a && a[0] in b;
      var i :| 0 <= i < |a| && a[i] == b[0];
      var j :| 0 <= j < |b| && b[j] == a[0];
      LexIrreflexive(a[0]);
      if i > 0 && j > 0 {
        LexAsymmetric(a[0], b[0]);
      }
      assert a[0] == b[0];
      forall x ensures x in a[1..] <==> x in b[1..] {
        if x in a[1..] {
          var k :| 0 <= k < |a[1..]| && a[1..][k] == x;
          assert LexLess(a[0], a[k + 1]);
          LexIrreflexive(x);
          assert x in b;
          var m :| 0 <= m < |b| && b[m] == x;
          assert m != 0;
          assert b[1..][m - 1] == x;
        }
        if x in b[1..] {
          var k :| 0 <= k < |b[1..]| && b[1..][k] == x;
          assert LexLess(b[0], b[k + 1]);
          LexIrreflexive(x);
          assert x in a;
          var m :| 0 <= m < |a| && a[m] == x;
          assert m != 0;
          assert a[1..][m - 1] == x;
        }
      }
      SortedUnique(a[1..], b[1..]);
      assert a == [a[0]] + a[1..] && b == [b[0]] + b[1..];
    }
  }

  /** One line of the tampering warning. Extra files are reported with the
      wording "is authorized.". */
  datatype TamperLine = Missing(key: string) | Modified(key: string) | Extra(key: string)

  function LineText(l: TamperLine): string
  {
    match l
    case Missing(k) => "File \"" + k + "\" is missing."
    case Modified(k) => "File \"" + k + "\" has been modified."
    case Extra(k) => "File \"" + k + "\" is authorized."
  }

  /** The lines of the loop over the published keys. */
  function SourceLines(keys: seq<string>, source: map<string, string>, instance: map<string, string>): seq<TamperLine>
    requires forall k :: k in keys ==> k in source
  {
    if |keys| == 0 then []
    else
      var k := keys[|keys| - 1];
      SourceLines(keys[..|keys| - 1], source, instance) +
        (if k !in instance then [Missing(k)] else if source[k] != instance[k] then [Modified(k)] else [])
  }

  /** The lines of the loop over the local keys. */
  function ExtraLines(keys: seq<string>, source: map<string, string>): seq<TamperLine>
  {
    if |keys| == 0 then []
    else
      var k := keys[|keys| - 1];
      ExtraLines(keys[..|keys| - 1], source) + (if k !in source then [Extra(k)] else [])
  }

  lemma {:induction false} SourceLinesMember(keys: seq<string>, source: map<string, string>, instance: map<string, string>, k: string)
    requires forall x :: x in keys ==> x in source
    ensures Missing(k) in SourceLines(keys, source, instance) <==> k in keys && k !in instance
    ensures Modified(k) in SourceLines(keys, source, instance) <==> k in keys && k in instance && source[k] != instance[k]
    ensures Extra(k) !in SourceLines(keys, source, instance)
    decreases |keys|
  {
    if |keys| > 0 {
      var init := keys[..|keys| - 1];
      assert forall x :: x in keys <==> x in init || x == keys[|keys| - 1];
      SourceLinesMember(init, source, instance, k);
    }
  }

  lemma {:induction false} ExtraLinesMember(keys: seq<string>, source: map<string, string>, k: string)
    ensures Extra(k) in ExtraLines(keys, source) <==> k in keys && k !in source
    ensures Missing(k) !in ExtraLines(keys, source) && Modified(k) !in ExtraLines(keys, source)
    decreases |keys|
  {
    if |keys| > 0 {
      var init := keys[..|keys| - 1];
      assert forall x :: x in keys <==> x in init || x == keys[|keys| - 1];
      ExtraLinesMember(init, source, k);
    }
  }

  /** What main reports. */
  datatype Report = NoConnection | UpdateNeeded | Tampered(lines: seq<TamperLine>) | Untampered

  /** The release data fetched from the settings URL; None for a failed
      request. A missing field is None. */
  datatype Remote = Remote(version: Option<string>, sourceHashes: Option<map<string, string>>)

  datatype TamperError = KeyError

  /** The tampering warning's lines for published digests `source` and
      local digests `instance`, whose keys in sorted order are ss and si. */
  function TamperLines(ss: seq<string>, si: seq<string>, source: map<string, string>, instance: map<string, string>): seq<TamperLine>
    requires forall k :: k in ss ==> k in source
  {
    SourceLines(ss, source, instance) + ExtraLines(si, source)
  }

  /** The warning names exactly the missing, the modified and the extra
      files, and is empty only when the digests agree. */
  lemma TamperLinesExact(ss: seq<string>, si: seq<string>, source: map<string, string>, instance: map<string, string>, k: string)
    requires forall x :: x in ss <==> x in source
    requires forall x :: x in si <==> x in instance
    ensures var lines := TamperLines(ss, si, source, instance);
              (Missing(k) in lines <==> k in source && k !in instance) &&
              (Modified(k) in lines <==> k in source && k in instance && source[k] != instance[k]) &&
              (Extra(k) in lines <==> k in instance && k !in source)
  {
    SourceLinesMember(ss, source, instance, k);
    ExtraLinesMember(si, source, k);
  }

  lemma TamperLinesEmpty(ss: seq<string>, si: seq<string>, source: map<string, string>, instance: map<string, string>)
    requires forall x :: x in ss <==> x in source
    requires forall x :: x in si <==> x in instance
    ensures TamperLines(ss, si, source, instance) == [] <==> source == instance
  {
    var lines := TamperLines(ss, si, source, instance);
    if source != instance {
      var k: string;
      if source.Keys != instance.Keys {
        k :| (k in source && k !in instance) || (k in instance && k !in source);
      } else {
        k :| k in source && source[k] != instance[k];
      }
      TamperLinesExact(ss, si, source, instance, k);
    } else {
      forall k | k in source ensures Missing(k) !in lines && Modified(k) !in lines {
        TamperLinesExact(ss, si, source, instance, k);
      }
      ExtraLinesEmpty(si, source);
      SourceLinesEmpty(ss, source, instance);
    }
  }

  lemma {:induction false} ExtraLinesEmpty(keys: seq<string>, source: map<string, string>)
    requires forall x :: x in keys ==> x in source
    ensures ExtraLines(keys, source) == []
    decreases |keys|
  {
    if |keys| > 0 {
      ExtraLinesEmpty(keys[..|keys| - 1], source);
    }
  }

  lemma {:induction false} SourceLinesEmpty(keys: seq<string>, source: map<string, string>, instance: map<string, string>)
    requires forall x :: x in keys ==> x in source && x in instance && source[x] == instance[x]
    ensures SourceLines(keys, source, instance) == []
    decreases |keys|
  {
    if |keys| > 0 {
      SourceLinesEmpty(keys[..|keys| - 1], source, instance);
    }
  }

  /** The keys of the lines strictly increase. */
  predicate KeysIncreasing(lines: seq<TamperLine>)
  {
    forall i, j :: 0 <= i < j < |lines| ==> LexLess(lines[i].key, lines[j].key)
  }

  lemma {:induction false} SourceLinesSorted(keys: seq<string>, source: map<string, string>, instance: map<string, string>)
    requires forall x :: x in keys ==> x in source
    requires StrictlySorted(keys)
    ensures KeysIncreasing(SourceLines(keys, source, instance))
    ensures forall l :: l in SourceLines(keys, source, instance) ==> l.key in keys
    decreases |keys|
  {
    if |keys| > 0 {
      var init := keys[..|keys| - 1];
      var last := keys[|keys| - 1];
      SourceLinesSorted(init, source, instance);
      forall l | l in SourceLines(init, source, instance) ensures LexLess(l.key, last) {
        var i :| 0 <= i < |init| && init[i] == l.key;
        assert keys[i] == l.key;
      }
    }
  }

  lemma {:induction false} ExtraLinesSorted(keys: seq<string>, source: map<string, string>)
    requires StrictlySorted(keys)
    ensures KeysIncreasing(ExtraLines(keys, source))
    ensures forall l :: l in ExtraLines(keys, source) ==> l.key in keys
    decreases |keys|
  {
    if |keys| > 0 {
      var init := keys[..|keys| - 1];
      var last := keys[|keys| - 1];
      ExtraLinesSorted(init, source);
      forall l | l in ExtraLines(init, source) ensures LexLess(l.key, last) {
        var i :| 0 <= i < |init| && init[i] == l.key;
        assert keys[i] == l.key;
      }
    }
  }

  /** The warning (TamperLines, the concatenation of the two parts) lists
      the published keys' lines first and the extra files after them, each
      part in sorted key order. */
  lemma TamperLinesOrder(ss: seq<string>, si: seq<string>, source: map<string, string>, instance: map<string, string>)
    requires forall x :: x in ss <==> x in source
    requires StrictlySorted(ss) && StrictlySorted(si)
    ensures KeysIncreasing(SourceLines(ss, source, instance)) && KeysIncreasing(ExtraLines(si, source))
    ensures forall l :: l in SourceLines(ss, source, instance) ==> !l.Extra?
    ensures forall l :: l in ExtraLines(si, source) ==> l.Extra?
  {
    SourceLinesSorted(ss, source, instance);
    ExtraLinesSorted(si, source);
    forall l | l in SourceLines(ss, source, instance) ensures !l.Extra? {
      SourceLinesMember(ss, source, instance, l.key);
    }
    forall l | l in ExtraLines(si, source) ensures l.Extra? {
      ExtraLinesMember(si, source, l.key);
    }
  }

  /** When the key sets agree, every line is a modified line. */
  lemma TamperLinesSameKeys(ss: seq<string>, si: seq<string>, source: map<string, string>, instance: map<string, string>)
    requires forall x :: x in ss <==> x in source
    requires forall x :: x in si <==> x in instance
    requires source.Keys == instance.Keys
    ensures forall l :: l in TamperLines(ss, si, source, instance) ==> l.Modified?
  {
    forall l | l in TamperLines(ss, si, source, instance) ensures l.Modified? {
      TamperLinesExact(ss, si, source, instance, l.key);
    }
  }

  /** The loop over the published keys: a missing line for a key the
      installation lacks (looked for only when the key lists differ) and a
      modified line for a digest that differs. */
  method ListSourceLines(ss: seq<string>, si: seq<string>, keysDiffer: bool, source: map<string, string>, instance: map<string, string>)
    returns (lines: seq<TamperLine>)
    requires forall x :: x in ss <==> x in source
    requires forall x :: x in si <==> x in instance
    requires !keysDiffer ==> ss == si
    ensures lines == SourceLines(ss, source, instance)
  {
    lines := [];
    var i := 0;
    while i < |ss|
      invariant 0 <= i <= |ss|
      invariant lines == SourceLines(ss[..i], source, instance)
    {
      assert ss[..i + 1][..i] == ss[..i];
      var key := ss[i];
      if keysDiffer && key !in si {
        lines := lines + [Missing(key)];
      } else if source[key] != instance[key] {
        lines := lines + [Modified(key)];
      }
      i := i + 1;
    }
    assert ss[..i] == ss;
  }

  /** The loop over the local keys: an extra line for each key that is
      not published. */
  method ListExtraLines(ss: seq<string>, si: seq<string>, source: map<string, string>)
    returns (lines: seq<TamperLine>)
    requires forall x :: x in ss <==> x in source
    ensures lines == ExtraLines(si, source)
  {
    lines := [];
    var i := 0;
    while i < |si|
      invariant 0 <= i <= |si|
      invariant lines == ExtraLines(si[..i], source)
    {
      assert si[..i + 1][..i] == si[..i];
      var key := si[i];
      if key !in ss {
        lines := lines + [Extra(key)];
      }
      i := i + 1;
    }
    assert si[..i] == si;
  }

  /** The tampering check in main, with the local settings' version, the
      fetched release data, the directory listing of the installation and
      the digest function as inputs. The sorted key lists it compares are
      returned with the report. */
  method TamperMain(localVersion: Option<string>, remote: Option<Remote>, listing: seq<DirEntry>, md5: string -> string)
    returns (r: Result<Report, TamperError>, ss: seq<string>, si: seq<string>)
    ensures remote.None? || remote.value.sourceHashes.None? ==> r == Ok(NoConnection)
    ensures remote.Some? && remote.value.sourceHashes.Some? ==>
              var rm := remote.value;
              (r == Err(KeyError) <==> localVersion.None? || rm.version.None?) &&
              (localVersion.Some? && rm.version.Some? && localVersion != rm.version ==> r == Ok(UpdateNeeded)) &&
              (localVersion.Some? && localVersion == rm.version ==>
                 var source := rm.sourceHashes.value;
                 var instance := PyFileHashes(listing, md5);
                 (source == instance ==> r == Ok(Untampered)) &&
                 (source != instance ==>
                    StrictlySorted(ss) && (forall x :: x in ss <==> x in source) &&
                    StrictlySorted(si) && (forall x :: x in si <==> x in instance) &&
                    r == Ok(Tampered(TamperLines(ss, si, source, instance)))))
  {
    ss, si := [], [];
    if remote.None? || remote.value.sourceHashes.None? {
      return Ok(NoConnection), ss, si;
    }
    var source := remote.value.sourceHashes.value;
    if localVersion.None? || remote.value.version.None? {
      return Err(KeyError), ss, si;
    }
    if localVersion.value != remote.value.version.value {
      return Ok(UpdateNeeded), ss, si;
    }
    var instance := GenerateAllPyFileHashes(listing, md5);
    if source == instance {
      return Ok(Untampered), ss, si;
    }
    ss := SortKeys(source.Keys);
    si := SortKeys(instance.Keys);
    var keysDiffer := ss != si;
    var lines := ListSourceLines(ss, si, keysDiffer, source, instance);
    if keysDiffer {
      var extra := ListExtraLines(ss, si, source);
      lines := lines + extra;
    } else {
      ExtraLinesEmpty(si, source);
      assert lines == lines + ExtraLines(si, source);
    }
    r := Ok(Tampered(lines));
  }
}
