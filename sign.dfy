/** sign.py: the detached signature of a PDF file. A key pair is
    generated and its private half stored under a name derived from the
    user name; signing writes a 128-byte artifact holding the signature of
    the file's hash and then the signature of the signer name's hash;
    verification checks the size, then the name signature, then the data
    signature. The curve, the hash and the key protection are a `Scheme` of
    uninterpreted functions, constrained where a proof needs it by the
    predicates Correct, FixedLength and Binding. */
module Sign {
  import opened Wrappers
  import opened Strings

  newtype byte = x: int | 0 <= x < 256

  type Bytes = seq<byte>

  /** The local files and the resources reachable over HTTP(S). */
  datatype Store = Store(files: map<string, Bytes>, web: map<string, Bytes>)

  /** OSError (a missing file or an unreachable URL), ValueError (a key that
      does not import, an empty passphrase, a location urlparse refuses),
      UnicodeEncodeError, and the RequestException requests.post raises
      when the server does not answer. */
  datatype SignError = OSError | ValueError | UnicodeEncodeError | RequestException

  datatype PrivateKey = PrivateKey(secret: nat)

  datatype PublicKey = PublicKey(point: nat)

  /** The password-based protection of the exported private key. */
  datatype Protection = Protection(scheme: string, iterations: nat)

  const KeyProtection: Protection := Protection("PBKDF2WithHMAC-SHA512AndAES256-CBC", 131072)

  /** ECDSA over P-256 in the randomised FIPS 186-3 mode, SHA-256 and DER
      key export. `sign` takes the signer's nonce choice as its last
      argument. */
  datatype Scheme = Scheme(
    hash: Bytes -> Bytes,
    pub: PrivateKey -> PublicKey,
    exportPrivate: (PrivateKey, Bytes, Protection) -> Bytes,
    importPrivate: (Bytes, Bytes) -> Option<PrivateKey>,
    exportPublic: PrivateKey -> Bytes,
    importPublic: Bytes -> Option<PublicKey>,
    sign: (PrivateKey, Bytes, nat) -> Bytes,
    verify: (PublicKey, Bytes, Bytes) -> bool)

  /** A signature verifies under the signer's public key, and exported keys
      import back with the same passphrase. */
  ghost predicate Correct(s: Scheme)
  {
    (forall k, d, r :: s.verify(s.pub(k), d, s.sign(k, d, r))) &&
    (forall k, p, prot :: s.importPrivate(s.exportPrivate(k, p, prot), p) == Some(k)) &&
    (forall k :: s.importPublic(s.exportPublic(k)) == Some(s.pub(k)))
  }

  /** A P-256 signature is 64 bytes. */
  ghost predicate FixedLength(s: Scheme)
  {
    forall k, d, r :: |s.sign(k, d, r)| == 64
  }

  /** The idealisation under which a changed input is detected: the hash
      has no collisions, a signature of one digest never verifies for
      another, and a wrong passphrase does not unlock a key. (Correct,
      Binding and FixedLength cannot hold together: the infinitely many
      digests would need distinct 64-byte signatures. No lemma assumes all
      three.) */
  ghost predicate Binding(s: Scheme)
  {
    (forall a, b :: a != b ==> s.hash(a) != s.hash(b)) &&
    (forall k, d1, d2, r :: d1 != d2 ==> !s.verify(s.pub(k), d1, s.sign(k, d2, r))) &&
    (forall k, p1, p2, prot :: p1 != p2 ==> s.importPrivate(s.exportPrivate(k, p1, prot), p2) == None)
  }

  // ---------------------------------------------------------------------
  // Text encodings

  /** The UTF-8 encoding of one code point. */
  function Utf8Char(c: char): (b: Bytes)
    ensures 1 <= |b| <= 4
    ensures (c as int < 0x80) <==> |b| == 1
    ensures |b| == 1 ==> b[0] as int == c as int
  {
    var n := c as int;
    if n < 0x80 then [n as byte]
    else if n < 0x800 then [(0xC0 + n / 64) as byte, (0x80 + n % 64) as byte]
    else if n < 0x10000 then [(0xE0 + n / 4096) as byte, (0x80 + (n / 64) % 64) as byte, (0x80 + n % 64) as byte]
    else [(0xF0 + n / 262144) as byte, (0x80 + (n / 4096) % 64) as byte, (0x80 + (n / 64) % 64) as byte, (0x80 + n % 64) as byte]
  }

  /** str.encode("utf-8") */
  function Utf8(s: string): (b: Bytes)
    ensures |b| >= |s|
  {
    if |s| == 0 then [] else Utf8Char(s[0]) + Utf8(s[1..])
  }

  predicate IsAscii(s: string)
  {
    forall i :: 0 <= i < |s| ==> s[i] as int < 0x80
  }

  /** str.encode("latin-1"), which PyCryptodome applies to a str passphrase:
      None stands for UnicodeEncodeError. */
  function Latin1(s: string): (r: Option<Bytes>)
    ensures r.Some? <==> forall i :: 0 <= i < |s| ==> s[i] as int < 0x100
    ensures r.Some? ==> |r.value| == |s| && forall i :: 0 <= i < |s| ==> r.value[i] as int == s[i] as int
  {
    if forall i :: 0 <= i < |s| ==> s[i] as int < 0x100 then
      Some(seq(|s|, i requires 0 <= i < |s| => s[i] as int as byte))
    else None
  }

  /** On ASCII text the two encodings agree. */
  lemma {:induction false} AsciiEncodingsAgree(s: string)
    requires IsAscii(s)
    ensures Latin1(s) == Some(Utf8(s))
    decreases |s|
  {
    if |s| > 0 {
      assert IsAscii(s[1..]) by {
        forall i | 0 <= i < |s| - 1 ensures s[1..][i] as int < 0x80 {
          assert s[1..][i] == s[i + 1];
        }
      }
      AsciiEncodingsAgree(s[1..]);
      var l := Latin1(s).value;
      assert l == [l[0]] + l[1..];
      assert l[1..] == Latin1(s[1..]).value;
    }
  }

  /** Distinct ASCII names have distinct encodings. */
  lemma AsciiEncodingInjective(a: string, b: string)
    requires IsAscii(a) && IsAscii(b) && a != b
    ensures Utf8(a) != Utf8(b)
  {
    AsciiEncodingsAgree(a);
    AsciiEncodingsAgree(b);
    if |a| == |b| {
      var i :| 0 <= i < |a| && a[i] != b[i];
      assert Latin1(a).value[i] != Latin1(b).value[i];
    }
  }

  // ---------------------------------------------------------------------
  // Files and URLs

  /** store_bins: the file holds bin1 followed by bin2. */
  function StoreBins(files: map<string, Bytes>, fileName: string, bin1: Bytes, bin2: Bytes): (f: map<string, Bytes>)
    ensures f.Keys == files.Keys + {fileName}
    ensures f[fileName] == bin1 + bin2
    ensures forall p :: p in files && p != fileName ==> f[p] == files[p]
  {
    files[fileName := bin1 + bin2]
  }

  /** read_bins: two reads of at most 64 bytes each. */
  function ReadBins(files: map<string, Bytes>, fileName: string): (r: Result<(Bytes, Bytes), SignError>)
    ensures r.Ok? <==> fileName in files
    ensures r.Ok? ==>
              var d := files[fileName];
              |r.value.0| == Min(64, |d|) && |r.value.1| == Min(64, |d| - |r.value.0|) &&
              r.value.0 + r.value.1 == d[..Min(128, |d|)]
  {
    if fileName !in files then Err(OSError)
    else
      var d := files[fileName];
      Ok((d[..Min(64, |d|)], d[Min(64, |d|)..Min(128, |d|)]))
  }

  /** Two 64-byte chunks come back as they were stored. */
  lemma StoreReadRoundTrip(files: map<string, Bytes>, fileName: string, bin1: Bytes, bin2: Bytes)
    requires |bin1| == 64 && |bin2| == 64
    ensures ReadBins(StoreBins(files, fileName, bin1, bin2), fileName) == Ok((bin1, bin2))
  {
    var d := bin1 + bin2;
    assert d[..64] == bin1 && d[64..128] == bin2;
  }

  /** The characters urlsplit strips from the front of a URL. */
  predicate IsC0OrSpace(c: char) { c as int <= 0x20 }

  function StripC0Left(s: string): (r: string)
    ensures |r| <= |s| && r == s[|s| - |r|..]
    ensures |r| > 0 ==> !IsC0OrSpace(r[0])
  {
    if |s| > 0 && IsC0OrSpace(s[0]) then StripC0Left(s[1..]) else s
  }

  /** Tab, carriage return and line feed, which urlsplit removes everywhere. */
  predicate IsUnsafeUrlChar(c: char) { c == '\t' || c == '\r' || c == '\n' }

  function RemoveUnsafe(s: string): (r: string)
    ensures forall i :: 0 <= i < |r| ==> !IsUnsafeUrlChar(r[i])
  {
    if |s| == 0 then ""
    else (if IsUnsafeUrlChar(s[0]) then "" else [s[0]]) + RemoveUnsafe(s[1..])
  }

  predicate IsSchemeChar(c: char) { IsCased(c) || IsDigit(c) || c == '+' || c == '-' || c == '.' }

  /** The text urlsplit looks for a scheme in. */
  function CleanUrl(url: string): string
  {
    RemoveUnsafe(StripC0Left(url))
  }

  /** The position of the ':' that ends the scheme urlsplit takes: the
      first ':', when the text before it starts with a letter and holds only
      scheme characters. */
  function SchemeEnd(u: string): (r: Option<nat>)
    ensures r.Some? ==> 0 < r.value < |u| && u[r.value] == ':'
  {
    if |u| > 0 && IsCased(u[0]) then SchemeColonFrom(u, 1) else None
  }

  /** The scan for that ':' from position i on: scheme characters up to a
      ':', or None at another character or at the end. */
  function SchemeColonFrom(u: string, i: nat): (r: Option<nat>)
    ensures r.Some? ==> i <= r.value < |u| && u[r.value] == ':'
    decreases |u| - i
  {
    if i >= |u| then None
    else if u[i] == ':' then Some(i)
    else if IsSchemeChar(u[i]) then SchemeColonFrom(u, i + 1)
    else None
  }

  /** urllib.parse.urlparse(url).scheme: the text before that ':',
      lower-cased, or empty. */
  function UrlScheme(url: string): string
  {
    var u := CleanUrl(url);
    match SchemeEnd(u)
    case None => ""
    case Some(i) => Lower(u[..i])
  }

  predicate IsNetlocEnd(c: char) { c == '/' || c == '?' || c == '#' }

  /** The text before the first '/', '?' or '#'. */
  function UntilNetlocEnd(s: string): (r: string)
    ensures |r| <= |s| && r == s[..|r|]
    ensures forall k :: 0 <= k < |r| ==> !IsNetlocEnd(r[k])
    ensures |r| < |s| ==> IsNetlocEnd(s[|r|])
  {
    if |s| == 0 || IsNetlocEnd(s[0]) then "" else [s[0]] + UntilNetlocEnd(s[1..])
  }

  /** urlsplit's netloc: when what follows the scheme starts with "//",
      the text after those two characters up to the next '/', '?' or '#';
      otherwise empty. */
  function Netloc(url: string): string
  {
    var u := CleanUrl(url);
    var rest := match SchemeEnd(u) case None => u case Some(i) => u[i + 1..];
    if |rest| >= 2 && rest[..2] == "//" then UntilNetlocEnd(rest[2..]) else ""
  }

  /** A netloc holding one square bracket without the other, which
      urlsplit refuses with ValueError("Invalid IPv6 URL"). */
  predicate UnmatchedBracket(netloc: string)
  {
    ('[' in netloc) != (']' in netloc)
  }

  /** The scheme is http or https. */
  predicate HttpScheme(url: string)
  {
    UrlScheme(url) == "http" || UrlScheme(url) == "https"
  }

  /** is_url: True for an http(s) scheme; urlparse raises ValueError for a
      netloc with an unmatched bracket. */
  function IsUrl(url: string): Result<bool, SignError>
  {
    if UnmatchedBracket(Netloc(url)) then Err(ValueError) else Ok(HttpScheme(url))
  }

  lemma LowerCharOf(c: char, d: char)
    requires IsLowerLetter(d) || d == ':'
    ensures LowerChar(c) == d <==> c == d || (IsLowerLetter(d) && c as int == d as int - 32)
  {
  }

  /** A lower-cased prefix read back character by character. */
  lemma LowerPrefixAt(u: string, w: string, k: nat)
    requires |w| <= |u| && Lower(u[..|w|]) == w && k < |w|
    ensures LowerChar(u[k]) == w[k]
  {
    assert Lower(u[..|w|])[k] == LowerChar(u[..|w|][k]);
  }

  /** The scan from i stops at the ':' at m when only scheme characters
      come between. */
  lemma {:induction false} ColonAt(u: string, i: nat, m: nat)
    requires i <= m < |u| && u[m] == ':'
    requires forall k :: i <= k < m ==> IsCased(u[k]) && u[k] != ':'
    ensures SchemeColonFrom(u, i) == Some(m)
    decreases m - i
  {
    if i < m {
      ColonAt(u, i + 1, m);
    }
  }

  lemma LowerOfPrefix(u: string, m: nat, n: nat)
    requires m <= n <= |u|
    ensures Lower(u[..m]) == Lower(u[..n])[..m]
  {
  }

  /** A lower-case word followed by ':' at the start of u, in any letter
      case, is the scheme urlsplit finds. */
  lemma SchemeFromPrefix(u: string, word: string)
    requires 1 <= |word| < |u| && forall k :: 0 <= k < |word| ==> IsLowerLetter(word[k])
    requires Lower(u[..|word| + 1]) == word + ":"
    ensures SchemeEnd(u) == Some(|word|)
    ensures Lower(u[..|word|]) == word
  {
    var w := word + ":";
    var n := |w|;
    forall k | 0 <= k < n - 1 ensures IsCased(u[k]) && u[k] != ':' {
      LowerPrefixAt(u, w, k);
      LowerCharOf(u[k], word[k]);
    }
    LowerPrefixAt(u, w, n - 1);
    LowerCharOf(u[n - 1], ':');
    ColonAt(u, 1, n - 1);
    LowerOfPrefix(u, n - 1, n);
    assert w[..n - 1] == word;
  }

  lemma UrlFromPrefix(url: string)
    ensures var u := CleanUrl(url);
              (|u| >= 5 && Lower(u[..5]) == "http:" ==> UrlScheme(url) == "http") &&
              (|u| >= 6 && Lower(u[..6]) == "https:" ==> UrlScheme(url) == "https")
  {
    var u := CleanUrl(url);
    if |u| >= 5 && Lower(u[..5]) == "http:" {
      SchemeFromPrefix(u, "http");
    }
    if |u| >= 6 && Lower(u[..6]) == "https:" {
      SchemeFromPrefix(u, "https");
    }
  }

  lemma PrefixFromUrl(url: string)
    ensures var u := CleanUrl(url);
              HttpScheme(url) ==> (|u| >= 5 && Lower(u[..5]) == "http:") || (|u| >= 6 && Lower(u[..6]) == "https:")
  {
    var u := CleanUrl(url);
    if HttpScheme(url) {
      var i := SchemeEnd(u).value;
      var w := Lower(u[..i]);
      assert w == UrlScheme(url);
      var v := Lower(u[..i + 1]);
      forall k | 0 <= k < i ensures v[k] == w[k] {
        assert v[k] == LowerChar(u[k]) == w[k];
      }
      assert v[i] == ':';
      assert v == w + ":";
    }
  }

  /** is_url raises ValueError exactly for a netloc with an unmatched
      bracket; otherwise it holds iff the cleaned text starts with "http:"
      or "https:" in any letter case. */
  lemma IsUrlIff(url: string)
    ensures IsUrl(url).Err? <==> UnmatchedBracket(Netloc(url))
    ensures IsUrl(url).Err? ==> IsUrl(url).error == ValueError
    ensures IsUrl(url).Ok? ==>
              (IsUrl(url).value <==>
                 var u := CleanUrl(url);
                 (|u| >= 5 && Lower(u[..5]) == "http:") || (|u| >= 6 && Lower(u[..6]) == "https:"))
  {
    UrlFromPrefix(url);
    PrefixFromUrl(url);
  }

  /** Text without tab, carriage return or line feed is not changed by the
      removal of those characters. */
  lemma {:induction false} RemoveUnsafeKeeps(s: string)
    requires forall k :: 0 <= k < |s| ==> !IsUnsafeUrlChar(s[k])
    ensures RemoveUnsafe(s) == s
    decreases |s|
  {
    if |s| > 0 {
      RemoveUnsafeKeeps(s[1..]);
      assert s == [s[0]] + s[1..];
    }
  }

  /** An http URL whose host part holds an open bracket and no closing
      one, such as "http://[::1", makes is_url raise. */
  lemma IsUrlOpenBracket(host: string)
    requires '[' in host && ']' !in host
    requires forall k :: 0 <= k < |host| ==> !IsNetlocEnd(host[k]) && !IsUnsafeUrlChar(host[k])
    ensures IsUrl("http://" + host) == Err(ValueError)
  {
    var url := "http://" + host;
    assert url[0] == 'h';
    assert StripC0Left(url) == url;
    assert forall k :: 0 <= k < |url| ==> !IsUnsafeUrlChar(url[k]) by {
      forall k | 0 <= k < |url| ensures !IsUnsafeUrlChar(url[k]) {
        if k >= 7 { assert url[k] == host[k - 7]; }
      }
    }
    RemoveUnsafeKeeps(url);
    var u := CleanUrl(url);
    assert u == url;
    assert u[..5] == "http:";
    SchemeFromPrefix(u, "http");
    var rest := u[5..];
    assert rest[..2] == "//";
    assert rest[2..] == host;
    forall k | 0 <= k < |host| ensures !IsNetlocEnd(host[k]) { }
    UntilNetlocWhole(host);
    assert Netloc(url) == host;
  }

  /** Text without '/', '?' or '#' is a netloc up to its end. */
  lemma {:induction false} UntilNetlocWhole(s: string)
    requires forall k :: 0 <= k < |s| ==> !IsNetlocEnd(s[k])
    ensures UntilNetlocEnd(s) == s
    decreases |s|
  {
    if |s| > 0 {
      UntilNetlocWhole(s[1..]);
      assert s == [s[0]] + s[1..];
    }
  }

  /** load_resource: a URL is fetched, anything else read as a file; the
      ValueError of is_url propagates. */
  function LoadResource(store: Store, location: string): (r: Result<Bytes, SignError>)
    ensures IsUrl(location).Err? ==> r == Err(ValueError)
    ensures IsUrl(location) == Ok(true) ==>
              (r.Ok? <==> location in store.web) && (r.Ok? ==> r.value == store.web[location])
    ensures IsUrl(location) == Ok(false) ==>
              (r.Ok? <==> location in store.files) && (r.Ok? ==> r.value == store.files[location])
  {
    match IsUrl(location)
    case Err(e) => Err(e)
    case Ok(web) =>
      if web then
        if location in store.web then Ok(store.web[location]) else Err(OSError)
      else if location in store.files then Ok(store.files[location]) else Err(OSError)
  }

  /** How the server answers the POST: with a success status, with another
      status, or not at all (requests raises ConnectionError, or Timeout
      after its 10-second limit). */
  datatype PostAnswer = Accepted | Refused | Unanswered

  datatype Posted = Posted(store: Store, message: string)

  /** post_resource: a URL is posted to, anything else written as a file. */
  function PostResource(store: Store, location: string, data: Bytes, answer: PostAnswer): (r: Result<Posted, SignError>)
    ensures IsUrl(location).Err? ==> r == Err(ValueError)
    ensures IsUrl(location) == Ok(true) ==>
              (answer == Unanswered ==> r == Err(RequestException)) &&
              (answer == Refused ==> r == Ok(Posted(store, "Upload failed."))) &&
              (answer == Accepted ==>
                 r == Ok(Posted(store.(web := store.web[location := data]), "Uploaded successfully.")))
    ensures IsUrl(location) == Ok(false) ==>
              r == Ok(Posted(store.(files := store.files[location := data]), "Uploaded successfully."))
  {
    match IsUrl(location)
    case Err(e) => Err(e)
    case Ok(web) =>
      if web then
        match answer
        case Unanswered => Err(RequestException)
        case Refused => Ok(Posted(store, "Upload failed."))
        case Accepted => Ok(Posted(store.(web := store.web[location := data]), "Uploaded successfully."))
      else Ok(Posted(store.(files := store.files[location := data]), "Uploaded successfully."))
  }

  /** After a successful post_resource, load_resource reads the posted
      data back, except after a refused POST, which leaves the resource as
      it was. */
  lemma PostThenLoad(store: Store, location: string, data: Bytes, answer: PostAnswer)
    requires PostResource(store, location, data, answer).Ok?
    ensures LoadResource(PostResource(store, location, data, answer).value.store, location) ==
              if IsUrl(location) == Ok(true) && answer != Accepted then LoadResource(store, location) else Ok(data)
  {
  }

  // ---------------------------------------------------------------------
  // Key generation, signing and verification

  /** The result of an operation that may have changed the store. */
  datatype Effect<T> = Effect(store: Store, result: Result<T, SignError>)

  /** f"{uname.replace(' ','_')}_private_key.pem" */
  function PrivateKeyFileName(uname: string): (f: string)
    ensures |f| == |uname| + 16 && EndsWith(f, "_private_key.pem")
    ensures forall i :: 0 <= i < |uname| ==> f[i] == if uname[i] == ' ' then '_' else uname[i]
    ensures forall i :: 0 <= i < |uname| ==> f[i] != ' '
  {
    ReplaceOneChar(uname, ' ', '_');
    var f := Replace(uname, " ", "_") + "_private_key.pem";
    assert f[|f| - 16..] == "_private_key.pem";
    f
  }

  /** gen_signature_keys, for the freshly generated key `key`: the private
      key file is created (and so created empty) before the key is exported
      with the passphrase's Latin-1 bytes, which fails for a character past
      U+00FF and for an empty passphrase; then the public key is posted. */
  function GenSignatureKeys(s: Scheme, store: Store, key: PrivateKey, newPubkeyPath: string,
                            uname: string, pwd: string, answer: PostAnswer): Effect<(string, string)>
  {
    var privName := PrivateKeyFileName(uname);
    var created := store.(files := store.files[privName := []]);
    match Latin1(pwd)
    case None => Effect(created, Err(UnicodeEncodeError))
    case Some(p) =>
      if p == [] then Effect(created, Err(ValueError))
      else
        var written := created.(files := created.files[privName := s.exportPrivate(key, p, KeyProtection)]);
        match PostResource(written, newPubkeyPath, s.exportPublic(key), answer)
        case Err(e) => Effect(written, Err(e))
        case Ok(posted) => Effect(posted.store, Ok((newPubkeyPath, privName)))
  }

  /** What gen_signature_keys evidently intends: the key protected with the
      same UTF-8 bytes that sign_pdf unlocks it with. */
  function GenSignatureKeysUtf8(s: Scheme, store: Store, key: PrivateKey, newPubkeyPath: string,
                                uname: string, pwd: string, answer: PostAnswer): Effect<(string, string)>
  {
    var privName := PrivateKeyFileName(uname);
    var created := store.(files := store.files[privName := []]);
    if Utf8(pwd) == [] then Effect(created, Err(ValueError))
    else
      var written := created.(files := created.files[privName := s.exportPrivate(key, Utf8(pwd), KeyProtection)]);
      match PostResource(written, newPubkeyPath, s.exportPublic(key), answer)
      case Err(e) => Effect(written, Err(e))
      case Ok(posted) => Effect(posted.store, Ok((newPubkeyPath, privName)))
  }

  /** A public-key location that is refused by is_url, or a URL the POST
      gets no answer from, makes key generation raise after the private key
      file was written. */
  lemma GenPostRaises(s: Scheme, store: Store, key: PrivateKey, pubkeyPath: string, uname: string,
                      pwd: string, answer: PostAnswer)
    requires Latin1(pwd).Some? && Latin1(pwd).value != []
    requires IsUrl(pubkeyPath).Err? || (IsUrl(pubkeyPath) == Ok(true) && answer == Unanswered)
    ensures var g := GenSignatureKeys(s, store, key, pubkeyPath, uname, pwd, answer);
              g.result.Err? &&
              g.store.files == store.files[PrivateKeyFileName(uname) := s.exportPrivate(key, Latin1(pwd).value, KeyProtection)] &&
              g.store.web == store.web
  {
    var privName := PrivateKeyFileName(uname);
    var protectedKey := s.exportPrivate(key, Latin1(pwd).value, KeyProtection);
    var created := store.(files := store.files[privName := []]);
    var written := created.(files := created.files[privName := protectedKey]);
    assert written.files == store.files[privName := protectedKey];
    assert PostResource(written, pubkeyPath, s.exportPublic(key), answer).Err?;
  }

  function SignedMessage(uname: string, signaturePath: string): string
  {
    "PDF signature by " + uname + " was stored in file \"" + signaturePath + "\" successfully."
  }

  /** sign_pdf; r1 and r2 are the nonce choices of the two signatures. */
  function SignPdf(s: Scheme, store: Store, signaturePath: string, pdfPath: string, uname: string,
                   pwd: string, privkeyPath: string, r1: nat, r2: nat): Effect<string>
  {
    if pdfPath !in store.files || privkeyPath !in store.files then Effect(store, Err(OSError))
    else match s.importPrivate(store.files[privkeyPath], Utf8(pwd))
      case None => Effect(store, Err(ValueError))
      case Some(key) =>
        var dataSignature := s.sign(key, s.hash(store.files[pdfPath]), r1);
        var nameSignature := s.sign(key, s.hash(Utf8(uname)), r2);
        Effect(store.(files := StoreBins(store.files, signaturePath, dataSignature, nameSignature)),
               Ok(SignedMessage(uname, signaturePath)))
  }

  /** verify_pdf_signature returns a message or a list of warnings. */
  datatype VerifyOutput = Message(text: string) | Warnings(items: seq<string>)

  const TamperWarning := "Warning: Signature file has been tampered with."
  const ValidMessage := "PDF signature is valid."
  const DataHashWarning := "WARNING: Data hash invalid - PDF file does not match or signature has been tampered with!"
  const SignerHashWarning :=
    "WARNING: Signer hash invalid - Signature has been tampered with or signer name is incorrect in the filename!"

  /** The signature checks verify_pdf_signature runs, in order. */
  datatype Check = NameCheck | DataCheck

  datatype Verification = Verification(result: Result<VerifyOutput, SignError>, checked: seq<Check>)

  /** verify_pdf_signature */
  function VerifyPdfSignature(s: Scheme, store: Store, signaturePath: string, pdfPath: string,
                              pubkeyPath: string, name: string): Verification
  {
    if signaturePath !in store.files then Verification(Err(OSError), [])
    else if |store.files[signaturePath]| != 128 then Verification(Ok(Message(TamperWarning)), [])
    else if pdfPath !in store.files then Verification(Err(OSError), [])
    else
      var (dataSignature, nameSignature) := ReadBins(store.files, signaturePath).value;
      match LoadResource(store, pubkeyPath)
      case Err(e) => Verification(Err(e), [])
      case Ok(keyBytes) =>
        match s.importPublic(keyBytes)
        case None => Verification(Err(ValueError), [])
        case Some(key) =>
          if !s.verify(key, s.hash(Utf8(name)), nameSignature) then
            Verification(Ok(Warnings([SignerHashWarning])), [NameCheck])
          else if !s.verify(key, s.hash(store.files[pdfPath]), dataSignature) then
            Verification(Ok(Warnings([DataHashWarning])), [NameCheck, DataCheck])
          else Verification(Ok(Message(ValidMessage)), [NameCheck, DataCheck])
  }

  /** An artifact that is not 128 bytes is reported as tampered before the
      PDF or the key is read, and no signature is checked. */
  lemma VerifyRejectsSize(s: Scheme, store: Store, signaturePath: string, pdfPath: string, pubkeyPath: string, name: string)
    requires signaturePath in store.files && |store.files[signaturePath]| != 128
    ensures VerifyPdfSignature(s, store, signaturePath, pdfPath, pubkeyPath, name) == Verification(Ok(Message(TamperWarning)), [])
  {
  }

  /** The decision on a 128-byte artifact whose public key loads: the name
      signature (bytes 64..128) is checked first; valid iff both verify;
      a failed name check gives exactly the signer warning and skips the
      data check; a failed data check gives exactly the data warning. */
  lemma VerifyDecision(s: Scheme, store: Store, signaturePath: string, pdfPath: string, pubkeyPath: string,
                       name: string, key: PublicKey)
    requires signaturePath in store.files && |store.files[signaturePath]| == 128 && pdfPath in store.files
    requires LoadResource(store, pubkeyPath).Ok? && s.importPublic(LoadResource(store, pubkeyPath).value) == Some(key)
    ensures var v := VerifyPdfSignature(s, store, signaturePath, pdfPath, pubkeyPath, name);
            var art := store.files[signaturePath];
            var nameOk := s.verify(key, s.hash(Utf8(name)), art[64..]);
            var dataOk := s.verify(key, s.hash(store.files[pdfPath]), art[..64]);
              (v.result == Ok(Message(ValidMessage)) <==> nameOk && dataOk) &&
              |v.checked| >= 1 && v.checked[0] == NameCheck &&
              (!nameOk ==> v.result == Ok(Warnings([SignerHashWarning])) && v.checked == [NameCheck]) &&
              (nameOk && !dataOk ==> v.result == Ok(Warnings([DataHashWarning])) && v.checked == [NameCheck, DataCheck])
  {
    var art := store.files[signaturePath];
    assert art[..Min(128, |art|)] == art;
  }

  /** The artifact sign_pdf writes: data signature, then name signature. */
  lemma SignLayout(s: Scheme, store: Store, signaturePath: string, pdfPath: string, uname: string,
                   pwd: string, privkeyPath: string, r1: nat, r2: nat)
    requires FixedLength(s)
    requires SignPdf(s, store, signaturePath, pdfPath, uname, pwd, privkeyPath, r1, r2).result.Ok?
    ensures var e := SignPdf(s, store, signaturePath, pdfPath, uname, pwd, privkeyPath, r1, r2);
            var key := s.importPrivate(store.files[privkeyPath], Utf8(pwd)).value;
              e.result == Ok(SignedMessage(uname, signaturePath)) &&
              e.store.web == store.web &&
              e.store.files == store.files[signaturePath := e.store.files[signaturePath]] &&
              |e.store.files[signaturePath]| == 128 &&
              ReadBins(e.store.files, signaturePath) ==
                Ok((s.sign(key, s.hash(store.files[pdfPath]), r1), s.sign(key, s.hash(Utf8(uname)), r2)))
  {
    var key := s.importPrivate(store.files[privkeyPath], Utf8(pwd)).value;
    StoreReadRoundTrip(store.files, signaturePath, s.sign(key, s.hash(store.files[pdfPath]), r1), s.sign(key, s.hash(Utf8(uname)), r2));
  }

  /** Signing and then verifying with the same name, the unchanged PDF and
      the matching public key reports a valid signature. */
  lemma SignThenVerify(s: Scheme, store: Store, signaturePath: string, pdfPath: string, uname: string,
                       pwd: string, privkeyPath: string, r1: nat, r2: nat, pubkeyPath: string, key: PrivateKey)
    requires Correct(s) && FixedLength(s)
    requires pdfPath in store.files && privkeyPath in store.files
    requires s.importPrivate(store.files[privkeyPath], Utf8(pwd)) == Some(key)
    requires signaturePath != pdfPath
    requires IsUrl(pubkeyPath) == Ok(true) || pubkeyPath != signaturePath
    requires LoadResource(store, pubkeyPath) == Ok(s.exportPublic(key))
    ensures var e := SignPdf(s, store, signaturePath, pdfPath, uname, pwd, privkeyPath, r1, r2);
              e.result.Ok? &&
              VerifyPdfSignature(s, e.store, signaturePath, pdfPath, pubkeyPath, uname).result == Ok(Message(ValidMessage))
  {
    var e := SignPdf(s, store, signaturePath, pdfPath, uname, pwd, privkeyPath, r1, r2);
    SignLayout(s, store, signaturePath, pdfPath, uname, pwd, privkeyPath, r1, r2);
    var art := e.store.files[signaturePath];
    var dataSig := s.sign(key, s.hash(store.files[pdfPath]), r1);
    var nameSig := s.sign(key, s.hash(Utf8(uname)), r2);
    assert art == dataSig + nameSig;
    assert art[..64] == dataSig && art[64..] == nameSig;
    assert LoadResource(e.store, pubkeyPath) == Ok(s.exportPublic(key));
    VerifyDecision(s, e.store, signaturePath, pdfPath, pubkeyPath, uname, s.pub(key));
  }

  /** Verifying under another name (as encoded) reports the signer warning,
      and the data signature is not checked. */
  lemma VerifyWrongName(s: Scheme, store: Store, signaturePath: string, pdfPath: string, uname: string,
                        pwd: string, privkeyPath: string, r1: nat, r2: nat, pubkeyPath: string,
                        key: PrivateKey, name: string)
    requires Correct(s) && Binding(s)
    requires pdfPath in store.files && privkeyPath in store.files
    requires s.importPrivate(store.files[privkeyPath], Utf8(pwd)) == Some(key)
    requires |s.sign(key, s.hash(store.files[pdfPath]), r1)| == 64 && |s.sign(key, s.hash(Utf8(uname)), r2)| == 64
    requires signaturePath != pdfPath
    requires IsUrl(pubkeyPath) == Ok(true) || pubkeyPath != signaturePath
    requires LoadResource(store, pubkeyPath) == Ok(s.exportPublic(key))
    requires Utf8(name) != Utf8(uname)
    ensures var e := SignPdf(s, store, signaturePath, pdfPath, uname, pwd, privkeyPath, r1, r2);
              VerifyPdfSignature(s, e.store, signaturePath, pdfPath, pubkeyPath, name) ==
                Verification(Ok(Warnings([SignerHashWarning])), [NameCheck])
  {
    var e := SignPdf(s, store, signaturePath, pdfPath, uname, pwd, privkeyPath, r1, r2);
    var dataSig := s.sign(key, s.hash(store.files[pdfPath]), r1);
    var nameSig := s.sign(key, s.hash(Utf8(uname)), r2);
    var art := e.store.files[signaturePath];
    assert art == dataSig + nameSig;
    assert art[..64] == dataSig && art[64..] == nameSig;
    assert s.hash(Utf8(name)) != s.hash(Utf8(uname));
    assert LoadResource(e.store, pubkeyPath) == Ok(s.exportPublic(key));
    VerifyDecision(s, e.store, signaturePath, pdfPath, pubkeyPath, name, s.pub(key));
  }

  /** For ASCII names the distinct encodings VerifyWrongName asks for
      follow from the names being distinct. */
  lemma VerifyWrongAsciiName(s: Scheme, store: Store, signaturePath: string, pdfPath: string, uname: string,
                             pwd: string, privkeyPath: string, r1: nat, r2: nat, pubkeyPath: string,
                             key: PrivateKey, name: string)
    requires Correct(s) && Binding(s)
    requires pdfPath in store.files && privkeyPath in store.files
    requires s.importPrivate(store.files[privkeyPath], Utf8(pwd)) == Some(key)
    requires |s.sign(key, s.hash(store.files[pdfPath]), r1)| == 64 && |s.sign(key, s.hash(Utf8(uname)), r2)| == 64
    requires signaturePath != pdfPath
    requires IsUrl(pubkeyPath) == Ok(true) || pubkeyPath != signaturePath
    requires LoadResource(store, pubkeyPath) == Ok(s.exportPublic(key))
    requires IsAscii(name) && IsAscii(uname) && name != uname
    ensures var e := SignPdf(s, store, signaturePath, pdfPath, uname, pwd, privkeyPath, r1, r2);
              VerifyPdfSignature(s, e.store, signaturePath, pdfPath, pubkeyPath, name) ==
                Verification(Ok(Warnings([SignerHashWarning])), [NameCheck])
  {
    AsciiEncodingInjective(name, uname);
    VerifyWrongName(s, store, signaturePath, pdfPath, uname, pwd, privkeyPath, r1, r2, pubkeyPath, key, name);
  }

  /** Verifying after the PDF's bytes changed reports the data warning. */
  lemma VerifyChangedPdf(s: Scheme, store: Store, signaturePath: string, pdfPath: string, uname: string,
                         pwd: string, privkeyPath: string, r1: nat, r2: nat, pubkeyPath: string,
                         key: PrivateKey, changed: Bytes)
    requires Correct(s) && Binding(s)
    requires pdfPath in store.files && privkeyPath in store.files
    requires s.importPrivate(store.files[privkeyPath], Utf8(pwd)) == Some(key)
    requires |s.sign(key, s.hash(store.files[pdfPath]), r1)| == 64 && |s.sign(key, s.hash(Utf8(uname)), r2)| == 64
    requires signaturePath != pdfPath
    requires IsUrl(pubkeyPath) == Ok(false) ==> pubkeyPath != signaturePath && pubkeyPath != pdfPath
    requires LoadResource(store, pubkeyPath) == Ok(s.exportPublic(key))
    requires changed != store.files[pdfPath]
    ensures var e := SignPdf(s, store, signaturePath, pdfPath, uname, pwd, privkeyPath, r1, r2);
            var tampered := e.store.(files := e.store.files[pdfPath := changed]);
              VerifyPdfSignature(s, tampered, signaturePath, pdfPath, pubkeyPath, uname) ==
                Verification(Ok(Warnings([DataHashWarning])), [NameCheck, DataCheck])
  {
    var e := SignPdf(s, store, signaturePath, pdfPath, uname, pwd, privkeyPath, r1, r2);
    var tampered := e.store.(files := e.store.files[pdfPath := changed]);
    var dataSig := s.sign(key, s.hash(store.files[pdfPath]), r1);
    var nameSig := s.sign(key, s.hash(Utf8(uname)), r2);
    var art := tampered.files[signaturePath];
    assert art == dataSig + nameSig;
    assert art[..64] == dataSig && art[64..] == nameSig;
    assert s.hash(changed) != s.hash(store.files[pdfPath]);
    assert LoadResource(tampered, pubkeyPath) == Ok(s.exportPublic(key));
    VerifyDecision(s, tampered, signaturePath, pdfPath, pubkeyPath, uname, s.pub(key));
  }

  /** As written, for an ASCII passphrase: generating keys, signing with
      the stored private key and verifying against the posted public key
      reports a valid signature. */
  lemma GenSignVerifyAscii(s: Scheme, store: Store, key: PrivateKey, pubkeyPath: string, uname: string,
                           pwd: string, answer: PostAnswer, signaturePath: string, pdfPath: string, r1: nat, r2: nat)
    requires Correct(s) && FixedLength(s)
    requires IsAscii(pwd) && pwd != ""
    requires IsUrl(pubkeyPath).Ok? && (IsUrl(pubkeyPath) == Ok(true) ==> answer == Accepted)
    requires pdfPath in store.files
    requires pdfPath != PrivateKeyFileName(uname) && pdfPath != signaturePath
    requires IsUrl(pubkeyPath) == Ok(false) ==> pubkeyPath != PrivateKeyFileName(uname) && pubkeyPath != pdfPath && pubkeyPath != signaturePath
    ensures var g := GenSignatureKeys(s, store, key, pubkeyPath, uname, pwd, answer);
              g.result == Ok((pubkeyPath, PrivateKeyFileName(uname))) &&
              var e := SignPdf(s, g.store, signaturePath, pdfPath, uname, pwd, PrivateKeyFileName(uname), r1, r2);
                e.result.Ok? &&
                VerifyPdfSignature(s, e.store, signaturePath, pdfPath, pubkeyPath, uname).result == Ok(Message(ValidMessage))
  {
    AsciiEncodingsAgree(pwd);
    assert |Utf8(pwd)| >= |pwd| > 0;
    var g := GenSignatureKeys(s, store, key, pubkeyPath, uname, pwd, answer);
    GenStored(s, store, key, pubkeyPath, uname, pwd, answer, pdfPath);
    SignThenVerify(s, g.store, signaturePath, pdfPath, uname, pwd, PrivateKeyFileName(uname), r1, r2, pubkeyPath, key);
  }

  /** What key generation as written leaves behind when the passphrase
      encodes and the public key location takes the key: the given paths,
      the key file protected with the Latin-1 passphrase, the public key
      where a later load finds it unless the POST was refused, and the
      other files as they were. */
  lemma GenStored(s: Scheme, store: Store, key: PrivateKey, pubkeyPath: string, uname: string,
                  pwd: string, answer: PostAnswer, pdfPath: string)
    requires Latin1(pwd).Some? && Latin1(pwd).value != []
    requires IsUrl(pubkeyPath).Ok? && (IsUrl(pubkeyPath) == Ok(true) ==> answer != Unanswered)
    requires pdfPath in store.files
    requires IsUrl(pubkeyPath) == Ok(false) ==> pubkeyPath != PrivateKeyFileName(uname)
    ensures var g := GenSignatureKeys(s, store, key, pubkeyPath, uname, pwd, answer);
              g.result == Ok((pubkeyPath, PrivateKeyFileName(uname))) &&
              PrivateKeyFileName(uname) in g.store.files &&
              g.store.files[PrivateKeyFileName(uname)] == s.exportPrivate(key, Latin1(pwd).value, KeyProtection) &&
              pdfPath in g.store.files
    ensures var g := GenSignatureKeys(s, store, key, pubkeyPath, uname, pwd, answer);
              IsUrl(pubkeyPath) == Ok(false) || answer == Accepted ==>
                LoadResource(g.store, pubkeyPath) == Ok(s.exportPublic(key))
    ensures var g := GenSignatureKeys(s, store, key, pubkeyPath, uname, pwd, answer);
              pdfPath != PrivateKeyFileName(uname) && (IsUrl(pubkeyPath) == Ok(false) ==> pubkeyPath != pdfPath) ==>
                g.store.files[pdfPath] == store.files[pdfPath]
  {
    var privName := PrivateKeyFileName(uname);
    var created := store.(files := store.files[privName := []]);
    var written := created.(files := created.files[privName := s.exportPrivate(key, Latin1(pwd).value, KeyProtection)]);
    var posted := PostResource(written, pubkeyPath, s.exportPublic(key), answer);
    assert posted.Ok?;
    PostThenLoad(written, pubkeyPath, s.exportPublic(key), answer);
  }

  /** "\u00e9" is the byte 0xE9 in Latin-1 and the bytes 0xC3 0xA9 in
      UTF-8. */
  lemma EacuteEncodings()
    ensures Latin1("\U{E9}") == Some([0xE9]) && Utf8("\U{E9}") == [0xC3, 0xA9]
  {
    var pwd := "\U{E9}";
    assert Latin1(pwd).value == [0xE9];
    assert Utf8Char(pwd[0]) == [0xC3, 0xA9];
    assert Utf8(pwd) == [0xC3, 0xA9] + Utf8(pwd[1..]);
  }

  /** Key generation with the passphrase "\u00e9" succeeds and stores the
      key protected with the single Latin-1 byte 0xE9. */
  lemma GenNonAsciiStore(s: Scheme, store: Store, key: PrivateKey, pubkeyPath: string, uname: string,
                         answer: PostAnswer, pdfPath: string)
    requires pdfPath in store.files
    requires IsUrl(pubkeyPath).Ok? && (IsUrl(pubkeyPath) == Ok(true) ==> answer != Unanswered)
    requires IsUrl(pubkeyPath) == Ok(false) ==> pubkeyPath != PrivateKeyFileName(uname)
    ensures var g := GenSignatureKeys(s, store, key, pubkeyPath, uname, "\U{E9}", answer);
              g.result == Ok((pubkeyPath, PrivateKeyFileName(uname))) &&
              pdfPath in g.store.files && PrivateKeyFileName(uname) in g.store.files &&
              g.store.files[PrivateKeyFileName(uname)] == s.exportPrivate(key, [0xE9], KeyProtection)
  {
    EacuteEncodings();
    GenStored(s, store, key, pubkeyPath, uname, "\U{E9}", answer, pdfPath);
  }

  /** As written, a passphrase holding U+00E9 protects the key with the byte
      0xE9 while sign_pdf unlocks it with 0xC3 0xA9, so signing after a
      successful key generation fails. */
  lemma GenThenSignNonAscii(s: Scheme, store: Store, key: PrivateKey, pubkeyPath: string, uname: string,
                            answer: PostAnswer, signaturePath: string, pdfPath: string, r1: nat, r2: nat)
    requires Binding(s)
    requires pdfPath in store.files
    requires IsUrl(pubkeyPath).Ok? && (IsUrl(pubkeyPath) == Ok(true) ==> answer != Unanswered)
    requires IsUrl(pubkeyPath) == Ok(false) ==> pubkeyPath != PrivateKeyFileName(uname)
    ensures var pwd := "\U{E9}";
            var g := GenSignatureKeys(s, store, key, pubkeyPath, uname, pwd, answer);
              Latin1(pwd) == Some([0xE9]) && Utf8(pwd) == [0xC3, 0xA9] &&
              g.result == Ok((pubkeyPath, PrivateKeyFileName(uname))) &&
              SignPdf(s, g.store, signaturePath, pdfPath, uname, pwd, PrivateKeyFileName(uname), r1, r2).result == Err(ValueError)
  {
    var pwd := "\U{E9}";
    EacuteEncodings();
    GenNonAsciiStore(s, store, key, pubkeyPath, uname, answer, pdfPath);
    var g := GenSignatureKeys(s, store, key, pubkeyPath, uname, pwd, answer);
    SignWrongPassphrase(s, g.store, signaturePath, pdfPath, uname, pwd, PrivateKeyFileName(uname), r1, r2, key, [0xE9]);
  }

  /** sign_pdf with a passphrase whose UTF-8 bytes differ from those the
      key file was protected with raises ValueError and changes nothing. */
  lemma SignWrongPassphrase(s: Scheme, store: Store, signaturePath: string, pdfPath: string, uname: string,
                            pwd: string, privkeyPath: string, r1: nat, r2: nat, key: PrivateKey, protectedWith: Bytes)
    requires Binding(s)
    requires pdfPath in store.files && privkeyPath in store.files
    requires store.files[privkeyPath] == s.exportPrivate(key, protectedWith, KeyProtection)
    requires Utf8(pwd) != protectedWith
    ensures SignPdf(s, store, signaturePath, pdfPath, uname, pwd, privkeyPath, r1, r2) == Effect(store, Err(ValueError))
  {
    assert s.importPrivate(s.exportPrivate(key, protectedWith, KeyProtection), Utf8(pwd)) == None;
  }

  /** As written, a passphrase character past U+00FF makes key generation
      raise after the private key file was created empty. */
  lemma GenRejectsWideChar(s: Scheme, store: Store, key: PrivateKey, pubkeyPath: string, uname: string, answer: PostAnswer)
    ensures var g := GenSignatureKeys(s, store, key, pubkeyPath, uname, "\U{20AC}", answer);
              g.result == Err(UnicodeEncodeError) && g.store.files[PrivateKeyFileName(uname)] == []
  {
    assert !("\U{20AC}"[0] as int < 0x100);
  }

  /** With the passphrase encoded the same way on both sides, generating,
      signing and verifying reports a valid signature for every non-empty
      passphrase. */
  lemma GenSignVerifyUtf8(s: Scheme, store: Store, key: PrivateKey, pubkeyPath: string, uname: string,
                          pwd: string, answer: PostAnswer, signaturePath: string, pdfPath: string, r1: nat, r2: nat)
    requires Correct(s) && FixedLength(s)
    requires pwd != ""
    requires IsUrl(pubkeyPath).Ok? && (IsUrl(pubkeyPath) == Ok(true) ==> answer == Accepted)
    requires pdfPath in store.files
    requires pdfPath != PrivateKeyFileName(uname) && pdfPath != signaturePath
    requires IsUrl(pubkeyPath) == Ok(false) ==> pubkeyPath != PrivateKeyFileName(uname) && pubkeyPath != pdfPath && pubkeyPath != signaturePath
    ensures var g := GenSignatureKeysUtf8(s, store, key, pubkeyPath, uname, pwd, answer);
              g.result == Ok((pubkeyPath, PrivateKeyFileName(uname))) &&
              var e := SignPdf(s, g.store, signaturePath, pdfPath, uname, pwd, PrivateKeyFileName(uname), r1, r2);
                e.result.Ok? &&
                VerifyPdfSignature(s, e.store, signaturePath, pdfPath, pubkeyPath, uname).result == Ok(Message(ValidMessage))
  {
    var g := GenSignatureKeysUtf8(s, store, key, pubkeyPath, uname, pwd, answer);
    GenUtf8Stored(s, store, key, pubkeyPath, uname, pwd, answer, pdfPath);
    SignThenVerify(s, g.store, signaturePath, pdfPath, uname, pwd, PrivateKeyFileName(uname), r1, r2, pubkeyPath, key);
  }

  /** What the intended key generation leaves behind when the public key
      is stored. */
  lemma GenUtf8Stored(s: Scheme, store: Store, key: PrivateKey, pubkeyPath: string, uname: string,
                      pwd: string, answer: PostAnswer, pdfPath: string)
    requires pwd != ""
    requires IsUrl(pubkeyPath).Ok? && (IsUrl(pubkeyPath) == Ok(true) ==> answer == Accepted)
    requires pdfPath in store.files && pdfPath != PrivateKeyFileName(uname)
    requires IsUrl(pubkeyPath) == Ok(false) ==> pubkeyPath != PrivateKeyFileName(uname) && pubkeyPath != pdfPath
    ensures var g := GenSignatureKeysUtf8(s, store, key, pubkeyPath, uname, pwd, answer);
              g.result == Ok((pubkeyPath, PrivateKeyFileName(uname))) &&
              LoadResource(g.store, pubkeyPath) == Ok(s.exportPublic(key)) &&
              PrivateKeyFileName(uname) in g.store.files &&
              g.store.files[PrivateKeyFileName(uname)] == s.exportPrivate(key, Utf8(pwd), KeyProtection) &&
              pdfPath in g.store.files && g.store.files[pdfPath] == store.files[pdfPath]
  {
    assert |Utf8(pwd)| >= |pwd| > 0;
    var privName := PrivateKeyFileName(uname);
    var created := store.(files := store.files[privName := []]);
    var written := created.(files := created.files[privName := s.exportPrivate(key, Utf8(pwd), KeyProtection)]);
    var posted := PostResource(written, pubkeyPath, s.exportPublic(key), answer);
    assert posted.Ok?;
    PostThenLoad(written, pubkeyPath, s.exportPublic(key), answer);
  }
}
