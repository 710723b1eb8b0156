/** The parts of Python's `str` type that the application relies on:
    find, split, replace, lower, title, endswith, int() on base-10
    text, formatting of a non-negative int, and the `<` ordering that
    `list.sort` uses. Case mapping and whitespace are modelled for the
    ASCII range only. */
module Strings {
  import opened Wrappers

  /** `pat` occurs in `s` starting at index `i`. */
  predicate OccursAt(s: string, pat: string, i: nat)
  {
    i + |pat| <= |s| && s[i..i + |pat|] == pat
  }

  /** The leftmost index at or after k at which `pat` occurs. */
  function FindFrom(s: string, pat: string, k: nat): (r: Option<nat>)
    ensures r.Some? ==> k <= r.value && OccursAt(s, pat, r.value)
    ensures forall j: nat :: k <= j && (r.None? || j < r.value) ==> !OccursAt(s, pat, j)
    decreases |s| - k
  {
    if k + |pat| > |s| then None
    else if s[k..k + |pat|] == pat then Some(k)
    else FindFrom(s, pat, k + 1)
  }

  /** Python `s.find(pat)`: the leftmost index at which `pat` occurs. */
  function Find(s: string, pat: string): (r: Option<nat>)
    ensures r.Some? ==> OccursAt(s, pat, r.value)
    ensures forall j: nat :: (r.None? || j < r.value) ==> !OccursAt(s, pat, j)
  {
    FindFrom(s, pat, 0)
  }

  /** Python `s.split(sep)`: the pieces between the non-overlapping
      occurrences of `sep`, found from the left. */
  function Split(s: string, sep: string): (parts: seq<string>)
    requires |sep| > 0
    ensures |parts| >= 1
    decreases |s|
  {
    match Find(s, sep)
    case None => [s]
    case Some(i) => [s[..i]] + Split(s[i + |sep|..], sep)
  }

  /** If `pat` occurs at p and nowhere before, find returns p. */
  lemma FindAt(s: string, pat: string, p: nat)
    requires OccursAt(s, pat, p)
    requires forall q: nat :: q < p ==> !OccursAt(s, pat, q)
    ensures Find(s, pat) == Some(p)
  {
    assert OccursAt(s, pat, p);
  }

  /** A pattern whose first character is nowhere in `s` is not found. */
  lemma FindMissingFirst(s: string, pat: string)
    requires |pat| > 0 && forall i :: 0 <= i < |s| ==> s[i] != pat[0]
    ensures Find(s, pat).None?
  {
    forall j: nat ensures !OccursAt(s, pat, j) {
      if j + |pat| <= |s| {
        assert s[j..j + |pat|][0] == s[j];
      }
    }
  }

  /** No '|' anywhere in `s`. */
  predicate NoBar(s: string)
  {
    forall i :: 0 <= i < |s| ==> s[i] != '|'
  }

  lemma DigitsHaveNoBar(d: string)
    requires AllDigits(d)
    ensures NoBar(d)
  {
    forall k | 0 <= k < |d|
      ensures d[k] != '|'
    {
      assert IsDigit(d[k]);
    }
  }

  /** A string without '|' does not split on a separator holding '|'. */
  lemma SplitWithoutBar(s: string, sep: string, k: nat)
    requires k < |sep| && sep[k] == '|' && NoBar(s)
    ensures Split(s, sep) == [s]
  {
    forall i: nat | i + |sep| <= |s|
      ensures !OccursAt(s, sep, i)
    {
      assert s[i..i + |sep|][k] == s[i + k];
    }
  }

  /** In `name + rest`, with no '|' in name, a separator like " | " or " |"
      that starts `rest` is the first one. */
  lemma FirstSeparator(name: string, rest: string, sep: string)
    requires NoBar(name)
    requires 2 <= |sep| <= |rest| && sep[1] == '|' && rest[0] != '|' && rest[..|sep|] == sep
    ensures Find(name + rest, sep) == Some(|name|)
  {
    var s := name + rest;
    var n := |name|;
    forall q: nat | q < n
      ensures !OccursAt(s, sep, q)
    {
      if q + 1 < n {
        assert s[q + 1] == name[q + 1];
      } else {
        assert s[q + 1] == rest[0];
      }
      assert s[q..q + |sep|][1] == s[q + 1];
    }
    assert s[n..n + |sep|] == rest[..|sep|];
    FindAt(s, sep, n);
  }

  function Last<T>(s: seq<T>): T
    requires |s| > 0
  {
    s[|s| - 1]
  }

  /** Python `s.replace(pat, with)`: scanning from the left, an occurrence
      of `pat` is replaced by `with` and scanning resumes after it, so the
      occurrences replaced are the leftmost non-overlapping ones. */
  function Replace(s: string, pat: string, with: string): string
    requires |pat| > 0
    decreases |s|
  {
    if |s| < |pat| then s
    else if s[..|pat|] == pat then with + Replace(s[|pat|..], pat, with)
    else [s[0]] + Replace(s[1..], pat, with)
  }

  /** Without an occurrence of `pat`, a replacement changes nothing. */
  lemma {:induction false} ReplaceAbsent(s: string, pat: string, with: string)
    requires |pat| > 0 && forall j: nat :: !OccursAt(s, pat, j)
    ensures Replace(s, pat, with) == s
    decreases |s|
  {
    if |s| >= |pat| {
      assert !OccursAt(s, pat, 0);
      assert s[0..|pat|] == s[..|pat|];
      forall j: nat ensures !OccursAt(s[1..], pat, j) {
        assert !OccursAt(s, pat, j + 1);
        if j + |pat| <= |s| - 1 {
          assert s[1..][j..j + |pat|] == s[j + 1..j + 1 + |pat|];
        }
      }
      ReplaceAbsent(s[1..], pat, with);
      assert s == [s[0]] + s[1..];
    }
  }

  /** When no occurrence of `pat` starts inside `s`, replacing in `s + t`
      leaves `s` as it is and works on `t` alone. */
  lemma {:induction false} ReplaceBeforeTail(s: string, t: string, pat: string, with: string)
    requires |pat| > 0
    requires forall j: nat :: j < |s| ==> !OccursAt(s + t, pat, j)
    ensures Replace(s + t, pat, with) == s + Replace(t, pat, with)
    decreases |s|
  {
    if |s| == 0 {
      assert s + t == t;
    } else if |s + t| < |pat| {
      assert Replace(t, pat, with) == t;
    } else {
      assert !OccursAt(s + t, pat, 0);
      assert (s + t)[0..|pat|] == (s + t)[..|pat|];
      assert (s + t)[1..] == s[1..] + t;
      forall j: nat | j < |s[1..]| ensures !OccursAt(s[1..] + t, pat, j) {
        assert !OccursAt(s + t, pat, j + 1);
        if j + |pat| <= |s[1..] + t| {
          assert (s[1..] + t)[j..j + |pat|] == (s + t)[j + 1..j + 1 + |pat|];
        }
      }
      ReplaceBeforeTail(s[1..], t, pat, with);
      assert s == [s[0]] + s[1..];
    }
  }

  /** The same, for a text in which find reports no occurrence. */
  lemma ReplaceNotFound(s: string, pat: string, with: string)
    requires |pat| > 0
    ensures Find(s, pat).None? ==> Replace(s, pat, with) == s
  {
    if Find(s, pat).None? {
      ReplaceAbsent(s, pat, with);
    }
  }

  lemma InConcat(a: string, b: string, x: char)
    requires x in a + b
    ensures x in a || x in b
  {
    var k :| 0 <= k < |a + b| && (a + b)[k] == x;
    if k < |a| {
      assert a[k] == x;
    } else {
      assert b[k - |a|] == x;
    }
  }

  lemma InSlice(s: string, lo: nat, x: char)
    requires lo <= |s| && x in s[lo..]
    ensures x in s
  {
    var k :| 0 <= k < |s| - lo && s[lo..][k] == x;
    assert s[lo + k] == x;
  }

  /** A character of a replacement comes from the input or from `with`. */
  lemma {:induction false} ReplaceCharFrom(s: string, pat: string, with: string, c: char)
    requires |pat| > 0 && c in Replace(s, pat, with)
    ensures c in s || c in with
    decreases |s|
  {
    if |s| < |pat| {
    } else if s[..|pat|] == pat {
      var tail := Replace(s[|pat|..], pat, with);
      InConcat(with, tail, c);
      if c in tail {
        ReplaceCharFrom(s[|pat|..], pat, with, c);
        if c in s[|pat|..] {
          InSlice(s, |pat|, c);
        }
      }
    } else {
      var tail := Replace(s[1..], pat, with);
      InConcat([s[0]], tail, c);
      if c in tail {
        ReplaceCharFrom(s[1..], pat, with, c);
        if c in s[1..] {
          InSlice(s, 1, c);
        }
      }
    }
  }

  /** Every character of a replacement comes from the input or from `with`. */
  lemma ReplaceChars(s: string, pat: string, with: string)
    requires |pat| > 0
    ensures forall c :: c in Replace(s, pat, with) ==> c in s || c in with
  {
    forall c | c in Replace(s, pat, with) ensures c in s || c in with {
      ReplaceCharFrom(s, pat, with, c);
    }
  }

  function MapChar(s: string, c: char, d: char): (r: string)
    ensures |r| == |s|
    ensures forall i :: 0 <= i < |s| ==> r[i] == if s[i] == c then d else s[i]
  {
    seq(|s|, i requires 0 <= i < |s| => if s[i] == c then d else s[i])
  }

  /** Replacing a one-character pattern maps that character everywhere. */
  lemma {:induction false} ReplaceOneChar(s: string, c: char, d: char)
    ensures Replace(s, [c], [d]) == MapChar(s, c, d)
    decreases |s|
  {
    if |s| > 0 {
      ReplaceOneChar(s[1..], c, d);
      var head := if s[0] == c then d else s[0];
      assert s[..1] == [s[0]];
      assert Replace(s, [c], [d]) == [head] + MapChar(s[1..], c, d);
      assert [head] + MapChar(s[1..], c, d) == MapChar(s, c, d);
    }
  }

  predicate StartsWith(s: string, prefix: string)
  {
    |prefix| <= |s| && s[..|prefix|] == prefix
  }

  predicate EndsWith(s: string, suffix: string)
  {
    |suffix| <= |s| && s[|s| - |suffix|..] == suffix
  }

  // ---------------------------------------------------------------------
  // ASCII case mapping: str.lower() and str.title()

  predicate IsUpper(c: char) { 'A' <= c <= 'Z' }

  predicate IsLowerLetter(c: char) { 'a' <= c <= 'z' }

  predicate IsCased(c: char) { IsUpper(c) || IsLowerLetter(c) }

  function LowerChar(c: char): char
  {
    if IsUpper(c) then (c as int + 32) as char else c
  }

  function UpperChar(c: char): char
  {
    if IsLowerLetter(c) then (c as int - 32) as char else c
  }

  /** No upper-case letter anywhere in `s`. */
  predicate IsLowerCase(s: string)
  {
    forall i :: 0 <= i < |s| ==> !IsUpper(s[i])
  }

  /** Python `s.lower()`. */
  function Lower(s: string): (r: string)
    ensures |r| == |s| && IsLowerCase(r)
    ensures forall i :: 0 <= i < |s| && !IsUpper(s[i]) ==> r[i] == s[i]
  {
    seq(|s|, i requires 0 <= i < |s| => LowerChar(s[i]))
  }

  lemma LowerConcat(a: string, b: string)
    ensures Lower(a + b) == Lower(a) + Lower(b)
  {
  }

  function TitleFrom(s: string, previousCased: bool): string
    decreases |s|
  {
    if |s| == 0 then ""
    else
      var c := if previousCased then LowerChar(s[0]) else UpperChar(s[0]);
      [c] + TitleFrom(s[1..], IsCased(s[0]))
  }

  /** Python `s.title()`: a letter is upper-cased when the character before
      it is not a letter, and lower-cased otherwise. */
  function Title(s: string): string
  {
    TitleFrom(s, false)
  }

  /** TitleFrom character by character: the first character is cased by
      the flag, and every later one by the character before it. */
  lemma {:induction false} TitleFromAt(s: string, previousCased: bool)
    ensures |TitleFrom(s, previousCased)| == |s|
    ensures forall k :: 0 <= k < |s| ==>
              TitleFrom(s, previousCased)[k] ==
                (if (if k == 0 then previousCased else IsCased(s[k - 1])) then LowerChar(s[k]) else UpperChar(s[k]))
    decreases |s|
  {
    if |s| > 0 {
      TitleFromAt(s[1..], IsCased(s[0]));
    }
  }

  /** `title()` keeps the length and changes each character on its own: a
      letter after a letter becomes lower-case, and any other character is
      upper-cased. Characters that are not ASCII letters are kept. */
  lemma TitleCases(s: string)
    ensures |Title(s)| == |s|
    ensures forall k :: 0 <= k < |s| ==>
              Title(s)[k] == (if k > 0 && IsCased(s[k - 1]) then LowerChar(s[k]) else UpperChar(s[k]))
    ensures forall k :: 0 <= k < |s| && !IsCased(s[k]) ==> Title(s)[k] == s[k]
  {
    TitleFromAt(s, false);
    forall k | 0 <= k < |s| && !IsCased(s[k])
      ensures Title(s)[k] == s[k]
    {
      assert TitleFrom(s, false)[k] ==
        (if (if k == 0 then false else IsCased(s[k - 1])) then LowerChar(s[k]) else UpperChar(s[k]));
    }
  }

  // ---------------------------------------------------------------------
  // Decimal formatting and Python int()

  predicate IsDigit(c: char) { '0' <= c <= '9' }

  predicate AllDigits(s: string)
  {
    forall i :: 0 <= i < |s| ==> IsDigit(s[i])
  }

  function DigitChar(d: nat): (c: char)
    requires d < 10
    ensures IsDigit(c)
  {
    ('0' as int + d) as char
  }

  function DigitValue(c: char): nat
    requires IsDigit(c)
  {
    c as int - '0' as int
  }

  /** Python `str(n)` for a non-negative int. */
  function NatToString(n: nat): (s: string)
    ensures |s| >= 1 && AllDigits(s)
    decreases n
  {
    if n < 10 then [DigitChar(n)] else NatToString(n / 10) + [DigitChar(n % 10)]
  }

  function DigitsValue(s: string): nat
    requires AllDigits(s)
    decreases |s|
  {
    if |s| == 0 then 0 else DigitsValue(s[..|s| - 1]) * 10 + DigitValue(s[|s| - 1])
  }

  /** Reading back decimal text gives the number that was formatted. */
  lemma {:induction false} DigitsOfNat(n: nat)
    ensures DigitsValue(NatToString(n)) == n
    decreases n
  {
    if n >= 10 {
      var s := NatToString(n);
      assert s[..|s| - 1] == NatToString(n / 10);
      DigitsOfNat(n / 10);
    }
  }

  /** Formatting is injective: different numbers give different text. */
  lemma NatToStringInjective(a: nat, b: nat)
    requires NatToString(a) == NatToString(b)
    ensures a == b
  {
    DigitsOfNat(a);
    DigitsOfNat(b);
  }

  /** The characters Python's int() skips around a number (ASCII range). */
  predicate IsSpace(c: char)
  {
    c == ' ' || 9 <= c as int <= 13 || 28 <= c as int <= 31
  }

  function StripLeft(s: string): string
    decreases |s|
  {
    if |s| > 0 && IsSpace(s[0]) then StripLeft(s[1..]) else s
  }

  function StripRight(s: string): string
    decreases |s|
  {
    if |s| > 0 && IsSpace(s[|s| - 1]) then StripRight(s[..|s| - 1]) else s
  }

  /** The digit text int() accepts: decimal digits, with single
      underscores allowed between two of them ("1_000"). */
  predicate GroupedDigits(s: string)
    decreases |s|
  {
    |s| > 0 && IsDigit(s[0]) &&
    (|s| == 1 || (if s[1] == '_' then GroupedDigits(s[2..]) else GroupedDigits(s[1..])))
  }

  /** Grouped digit text holds only digits and underscores, and starts and
      ends with a digit. */
  lemma {:induction false} GroupedChars(s: string)
    requires GroupedDigits(s)
    ensures forall k :: 0 <= k < |s| ==> IsDigit(s[k]) || s[k] == '_'
    ensures IsDigit(s[0]) && IsDigit(s[|s| - 1])
    decreases |s|
  {
    if |s| > 1 {
      var t := if s[1] == '_' then s[2..] else s[1..];
      GroupedChars(t);
      forall k | 0 <= k < |s| ensures IsDigit(s[k]) || s[k] == '_' {
        if k > 0 && !(k == 1 && s[1] == '_') {
          assert s[k] == t[k - |s| + |t|];
        }
      }
      assert s[|s| - 1] == t[|t| - 1];
    }
  }

  /** Plain digit text is grouped digit text. */
  lemma {:induction false} DigitsAreGrouped(s: string)
    requires |s| > 0 && AllDigits(s)
    ensures GroupedDigits(s)
    decreases |s|
  {
    if |s| > 1 {
      DigitsAreGrouped(s[1..]);
    }
  }

  /** s with its underscores dropped. */
  function DropUnderscores(s: string): (r: string)
    ensures forall k :: 0 <= k < |r| ==> r[k] != '_' && r[k] in s
    ensures '_' !in s ==> r == s
    decreases |s|
  {
    if |s| == 0 then ""
    else (if s[0] == '_' then "" else [s[0]]) + DropUnderscores(s[1..])
  }

  /** Dropping the underscores of grouped digit text leaves only digits. */
  lemma DropLeavesDigits(s: string)
    requires GroupedDigits(s)
    ensures AllDigits(DropUnderscores(s))
  {
    GroupedChars(s);
    var d := DropUnderscores(s);
    forall k | 0 <= k < |d| ensures IsDigit(d[k]) {
      var j :| 0 <= j < |s| && s[j] == d[k];
    }
  }

  /** The value of grouped digit text, read without its underscores. */
  function GroupedValue(s: string): nat
    requires GroupedDigits(s)
  {
    DropLeavesDigits(s);
    DigitsValue(DropUnderscores(s))
  }

  /** Python `int(s)`: optional surrounding whitespace, an optional sign and
      decimal digits with single underscores between them; anything else
      raises ValueError (None). */
  function ParseInt(s: string): Option<int>
  {
    var t := StripRight(StripLeft(s));
    if |t| > 0 && (t[0] == '+' || t[0] == '-') then
      var body := t[1..];
      if GroupedDigits(body) then
        var v: int := GroupedValue(body);
        Some(if t[0] == '-' then -v else v)
      else None
    else if GroupedDigits(t) then Some(GroupedValue(t) as int)
    else None
  }

  /** Text without surrounding whitespace or a sign is read as grouped
      digits, or refused. */
  lemma ParseUnsigned(t: string)
    requires |t| > 0 && !IsSpace(t[0]) && !IsSpace(t[|t| - 1]) && t[0] != '+' && t[0] != '-'
    ensures ParseInt(t) == if GroupedDigits(t) then Some(GroupedValue(t) as int) else None
  {
    assert StripLeft(t) == t;
    assert StripRight(t) == t;
  }

  /** Plain digit text, also after one blank, reads as its digits. */
  lemma ParseDigits(d: string)
    requires |d| > 0 && AllDigits(d)
    ensures ParseInt(d) == Some(DigitsValue(d) as int)
    ensures ParseInt(" " + d) == Some(DigitsValue(d) as int)
  {
    DigitsAreGrouped(d);
    assert IsDigit(d[0]) && IsDigit(d[|d| - 1]);
    ParseUnsigned(d);
    assert (" " + d)[1..] == d;
    assert StripLeft(" " + d) == StripLeft(d);
  }

  /** int(str(n)) == n, also with the blank that `split(" |")` leaves. */
  lemma ParseFormatted(n: nat)
    ensures ParseInt(NatToString(n)) == Some(n)
    ensures ParseInt(" " + NatToString(n)) == Some(n)
  {
    DigitsOfNat(n);
    ParseDigits(NatToString(n));
  }

  /** int() reads "1_0" as 10. */
  lemma ParseUnderscore(ten: string)
    requires ten == "1_0"
    ensures ParseInt(ten) == Some(10)
  {
    ParseUnsigned(ten);
    assert GroupedDigits(ten[2..]);
    assert GroupedDigits(ten);
    assert DropUnderscores(ten) == "10";
    var one := "10"[..1];
    assert one == "1" && one[..0] == "";
    assert DigitsValue(one) == 1;
    assert DigitsValue("10") == 10;
    assert GroupedValue(ten) == 10;
  }

  /** int() refuses a doubled, a leading and a trailing underscore. */
  lemma ParseBadUnderscores(doubled: string, leading: string, trailing: string)
    requires doubled == "1__0" && leading == "_1" && trailing == "1_"
    ensures ParseInt(doubled).None? && ParseInt(leading).None? && ParseInt(trailing).None?
  {
    ParseUnsigned(doubled);
    assert !GroupedDigits(doubled[2..]);
    ParseUnsigned(leading);
    ParseUnsigned(trailing);
    assert !GroupedDigits(trailing[2..]);
  }

  // ---------------------------------------------------------------------
  // The ordering of Python strings (code point by code point)

  predicate LexLess(a: string, b: string)
    decreases |a|
  {
    |b| > 0 && (|a| == 0 || a[0] < b[0] || (a[0] == b[0] && LexLess(a[1..], b[1..])))
  }

  lemma {:induction false} LexIrreflexive(a: string)
    ensures !LexLess(a, a)
    decreases |a|
  {
    if |a| > 0 { LexIrreflexive(a[1..]); }
  }

  lemma {:induction false} LexTransitive(a: string, b: string, c: string)
    requires LexLess(a, b) && LexLess(b, c)
    ensures LexLess(a, c)
    decreases |a|
  {
    if |a| > 0 && a[0] == b[0] && b[0] == c[0] {
      LexTransitive(a[1..], b[1..], c[1..]);
    }
  }

  lemma {:induction false} LexTotal(a: string, b: string)
    requires a != b
    ensures LexLess(a, b) || LexLess(b, a)
    decreases |a|
  {
    if |a| > 0 && |b| > 0 && a[0] == b[0] {
      assert a == [a[0]] + a[1..] && b == [b[0]] + b[1..];
      LexTotal(a[1..], b[1..]);
    }
  }

  lemma LexAsymmetric(a: string, b: string)
    requires LexLess(a, b)
    ensures !LexLess(b, a)
  {
    if LexLess(b, a) {
      LexTransitive(a, b, a);
      LexIrreflexive(a);
    }
  }
}
