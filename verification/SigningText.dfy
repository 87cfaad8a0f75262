/** How a request becomes the text that is signed, and what a signature therefore binds:
    digests and keyed hashes are parameters, the text in between is written out. */
module SigningText {
  import opened Bytes
  import opened Text
  import opened SigV4
  import UriCodec
  import CanonicalQuery

  // ---------------------------------------------------------------- lines

  predicate OneLine(s: string) { '\n' !in s }

  function AsText(b: Bytes): string {
    seq(|b|, k requires 0 <= k < |b| => b[k] as char)
  }

  lemma AsTextInjective(a: Bytes, b: Bytes)
    requires AsText(a) == AsText(b)
    ensures a == b
  {
    assert |a| == |AsText(a)| == |AsText(b)| == |b|;
    forall k | 0 <= k < |a| ensures a[k] == b[k] {
      assert AsText(a)[k] == AsText(b)[k];
    }
  }

  /** Texts that begin with one line each, told apart by that line and the rest. */
  lemma FirstLine(a: string, x: string, b: string, y: string)
    requires OneLine(a) && OneLine(b) && a + ['\n'] + x == b + ['\n'] + y
    ensures a == b && x == y
  {
    SplitFirst(a, '\n', x);
    SplitFirst(b, '\n', y);
  }

  /** And texts that end with one line each. */
  lemma LastLine(x: string, a: string, y: string, b: string)
    requires OneLine(a) && OneLine(b) && x + ['\n'] + a == y + ['\n'] + b
    ensures a == b && x == y
  {
    var s := x + ['\n'] + a;
    assert s[|x|] == '\n' && s[|y|] == '\n';
    assert forall k :: |x| < k < |s| ==> s[k] == a[k - |x| - 1];
    assert forall k :: |y| < k < |s| ==> s[k] == b[k - |y| - 1];
    assert |x| == |y|;
    assert s[..|x|] == x && s[..|y|] == y && s[|x| + 1..] == a && s[|y| + 1..] == b;
  }

  // ---------------------------------------------------------------- the canonical request

  function HeadText(q: CanonicalRequest, rest: string): string {
    q.verb + ['\n'] + (AsText(q.uri) + ['\n'] + (AsText(q.query) + ['\n'] + rest))
  }

  function RequestText(q: CanonicalRequest): string {
    HeadText(q, q.headerBlock + ['\n'] + q.signedHeaders + ['\n'] + q.payloadHash)
  }

  /** Every field but the header block is one line. */
  predicate Printed(q: CanonicalRequest) {
    OneLine(q.verb) && OneLine(AsText(q.uri)) && OneLine(AsText(q.query)) && OneLine(q.signedHeaders) && OneLine(q.payloadHash)
  }

  /** The text of a canonical request determines all of its fields, whatever header values
      may hold. */
  lemma RequestTextInjective(q: CanonicalRequest, q': CanonicalRequest)
    requires Printed(q) && Printed(q') && RequestText(q) == RequestText(q')
    ensures q == q'
  {
    hide AsText, OneLine;
    var x, x' := q.headerBlock + ['\n'] + q.signedHeaders, q'.headerBlock + ['\n'] + q'.signedHeaders;
    var rest, rest' := x + ['\n'] + q.payloadHash, x' + ['\n'] + q'.payloadHash;
    var two, two' := AsText(q.query) + ['\n'] + rest, AsText(q'.query) + ['\n'] + rest';
    FirstLine(q.verb, AsText(q.uri) + ['\n'] + two, q'.verb, AsText(q'.uri) + ['\n'] + two');
    FirstLine(AsText(q.uri), two, AsText(q'.uri), two');
    FirstLine(AsText(q.query), rest, AsText(q'.query), rest');
    LastLine(x, q.payloadHash, x', q'.payloadHash);
    LastLine(q.headerBlock, q.signedHeaders, q'.headerBlock, q'.signedHeaders);
    AsTextInjective(q.uri, q'.uri);
    AsTextInjective(q.query, q'.query);
  }

  /** The lines of the text: verb, path and query, the header block with an empty line behind
      it, the signed names and the payload hash. */
  lemma RequestLines(q: CanonicalRequest)
    requires Printed(q)
    ensures Split(RequestText(q), '\n')
            == [q.verb, AsText(q.uri), AsText(q.query)] + Split(q.headerBlock, '\n') + [q.signedHeaders, q.payloadHash]
  {
    hide Split, AsText;
    var ends := q.signedHeaders + ['\n'] + q.payloadHash;
    var rest := q.headerBlock + ['\n'] + ends;
    assert rest == q.headerBlock + ['\n'] + q.signedHeaders + ['\n'] + q.payloadHash;
    SplitHead(q.signedHeaders, '\n', q.payloadHash);
    SplitPiece(q.payloadHash, '\n');
    SplitAround(q.headerBlock, '\n', ends);
    SplitHead(AsText(q.query), '\n', rest);
    SplitHead(AsText(q.uri), '\n', AsText(q.query) + ['\n'] + rest);
    SplitHead(q.verb, '\n', AsText(q.uri) + ['\n'] + (AsText(q.query) + ['\n'] + rest));
  }

  lemma {:induction false} SplitAround(a: string, sep: char, b: string)
    ensures Split(a + [sep] + b, sep) == Split(a, sep) + Split(b, sep)
  {
    var s, after := a + [sep] + b, Split(b, sep);
    if |a| == 0 {
      assert s[1..] == b;
    } else {
      SplitAround(a[1..], sep, b);
      assert s[1..] == a[1..] + [sep] + b && s[0] == a[0];
      FirstGrows(a[0], sep, Split(a[1..], sep), after);
    }
  }

  /** The pieces with one more character in front. */
  function Prepended(c: char, sep: char, parts: seq<string>): seq<string>
    requires |parts| > 0
  {
    if c == sep then [[]] + parts else [[c] + parts[0]] + parts[1..]
  }

  lemma FirstGrows(c: char, sep: char, parts: seq<string>, after: seq<string>)
    requires |parts| > 0
    ensures Prepended(c, sep, parts + after) == Prepended(c, sep, parts) + after
  {
    assert (parts + after)[0] == parts[0] && (parts + after)[1..] == parts[1..] + after;
  }

  // ---------------------------------------------------------------- requests as HTTP delivers them

  lemma AsTextLine(b: Bytes)
    requires 10 !in b
    ensures OneLine(AsText(b))
  {
    forall k | 0 <= k < |b| ensures AsText(b)[k] != '\n' {
      assert b[k] in b;
    }
  }

  lemma {:induction false} JoinFree<T>(parts: seq<seq<T>>, sep: T, x: T)
    requires x != sep && forall k :: 0 <= k < |parts| ==> x !in parts[k]
    ensures x !in Join(parts, sep)
  {
    if |parts| > 1 {
      JoinFree(parts[1..], sep, x);
    }
  }

  lemma UriIsLine(path: Bytes)
    ensures OneLine(AsText(UriCodec.CanonicalUri(path)))
  {
    var parts := UriCodec.EncodeAll(UriCodec.Segments(path));
    UriCodec.EncodedFree(UriCodec.Segments(path), 10);
    JoinFree(parts, UriCodec.SLASH, 10);
    AsTextLine(UriCodec.CanonicalUri(path));
  }

  lemma EncodingIsLine(b: Bytes)
    ensures 10 !in UriCodec.Encode(b)
  {
    if 10 in UriCodec.Encode(b) {
      UriCodec.EncodedBytes(b, 10);
    }
  }

  lemma QueryIsLine(query: Bytes, exclude: set<Bytes>)
    ensures OneLine(AsText(CanonicalQuery.Canonical(query, exclude)))
  {
    hide CanonicalQuery.Canonical, CanonicalQuery.QueryParams, UriCodec.Encode;
    var ps := CanonicalQuery.CanonicalArranges(query, exclude);
    var pieces := CanonicalQuery.PrintParams(CanonicalQuery.Each(CanonicalQuery.EncodeParam, ps));
    forall k | 0 <= k < |pieces| ensures 10 !in pieces[k] {
      CanonicalQuery.PrintedPiece(ps, k);
      EncodingIsLine(ps[k].name);
      EncodingIsLine(ps[k].value);
    }
    JoinFree(pieces, CanonicalQuery.AMP, 10);
    AsTextLine(CanonicalQuery.Canonical(query, exclude));
  }

  /** A method and a payload hash are single lines, and so is a list of header names. */
  lemma CanonicalIsPrinted(r: Request, names: seq<string>)
    requires OneLine(r.verb) && OneLine(r.payloadHash) && OneLine(Join(names, ';'))
    ensures Printed(CanonicalOf(r, names))
  {
    hide AsText, UriCodec.CanonicalUri, CanonicalQuery.Canonical, HeaderBlock, Join;
    UriIsLine(r.path);
    QueryIsLine(r.query, {});
  }

  lemma UnsignedIsLine()
    ensures OneLine(UNSIGNED_PAYLOAD)
  {
  }

  /** Pieces of a single line are single lines. */
  lemma {:induction false} SplitLines(s: string, sep: char, k: nat)
    requires OneLine(s) && k < |Split(s, sep)|
    ensures OneLine(Split(s, sep)[k])
  {
    if |s| > 0 {
      if s[0] == sep {
        if k > 0 {
          SplitLines(s[1..], sep, k - 1);
        }
      } else {
        SplitLines(s[1..], sep, k);
      }
    }
  }

  lemma {:induction false} SplitOnceLines(s: string, sep: char)
    requires OneLine(s) && SplitOnce(s, sep).Some?
    ensures OneLine(SplitOnce(s, sep).value.0) && OneLine(SplitOnce(s, sep).value.1)
  {
    if s[0] != sep {
      SplitOnceLines(s[1..], sep);
    }
  }

  lemma {:induction false} TrimStartLine(s: string)
    requires OneLine(s)
    ensures OneLine(TrimStart(s))
  {
    if |s| > 0 && IsSpace(s[0]) {
      TrimStartLine(s[1..]);
    }
  }

  lemma {:induction false} TrimEndLine(s: string)
    requires OneLine(s)
    ensures OneLine(TrimEnd(s))
  {
    if |s| > 0 && IsSpace(s[|s| - 1]) {
      TrimEndLine(s[..|s| - 1]);
    }
  }

  predicate LineIfAny(v: Option<string>) {
    v.Some? ==> OneLine(v.value)
  }

  lemma {:induction false} FieldsLines(fields: seq<string>)
    requires FieldsOf(fields).Some? && forall k :: 0 <= k < |fields| ==> OneLine(fields[k])
    ensures var f := FieldsOf(fields).value; LineIfAny(f.credential) && LineIfAny(f.signedHeaders) && LineIfAny(f.signature)
  {
    hide OneLine, Trim;
    if |fields| > 0 {
      var field := fields[|fields| - 1];
      FieldsLines(fields[..|fields| - 1]);
      SplitOnceLines(field, '=');
      TrimLine(SplitOnce(field, '=').value.1);
    }
  }

  lemma TrimLine(s: string)
    requires OneLine(s)
    ensures OneLine(Trim(s))
  {
    TrimStartLine(s);
    TrimEndLine(TrimStart(s));
  }

  lemma CredentialLines(text: string)
    requires OneLine(text) && ParseCredential(text).Some?
    ensures var scope := ParseCredential(text).value.scope; OneLine(ScopeText(scope))
  {
    hide SplitOnce;
    SplitOnceLines(text, '/');
    var s1 := SplitOnce(text, '/').value.1;
    SplitOnceLines(s1, '/');
    var s2 := SplitOnce(s1, '/').value.1;
    SplitOnceLines(s2, '/');
    SplitOnceLines(SplitOnce(s2, '/').value.1, '/');
  }

  lemma NamesLine(raw: string)
    requires OneLine(raw) && ValidateSignedHeaders(raw).Some?
    ensures OneLine(Join(ValidateSignedHeaders(raw).value, ';'))
  {
    JoinSplit(raw, ';');
  }

  /** What HTTP guarantees of a request: method, payload hash and header values are lines. */
  ghost predicate HttpLines(r: Request) {
    OneLine(r.verb) && OneLine(r.payloadHash) && forall h :: h in r.headers ==> OneLine(h.value)
  }

  lemma {:induction false} ValueLine(headers: seq<Header>, name: string)
    requires forall h :: h in headers ==> OneLine(h.value)
    ensures LineIfAny(ValueOf(headers, name))
  {
    hide OneLine, Lowercase;
    if |headers| > 0 {
      assert headers[0] in headers;
      ValueLine(headers[1..], name);
    }
  }

  /** The text that the verifier signs again for a request that came over HTTP is unambiguous. */
  lemma RecomputedIsPrinted(r: Request, auth: string, clients: seq<Client>, s: Signing)
    requires HttpLines(r) && OneLine(auth) && s in Recomputed(r, auth, clients)
    ensures PrintedSigning(s)
  {
    hide OneLine, FieldsOf, ParseCredential, ValidateSignedHeaders, ValueOf, ResolveClient, CanonicalOf, Join, ScopeText, Split, Printed;
    var text := auth[|ALGORITHM|..];
    DropLine(auth, |ALGORITHM|);
    forall k | 0 <= k < |Split(text, ',')| ensures OneLine(Split(text, ',')[k]) {
      SplitLines(text, ',', k);
    }
    FieldsLines(Split(text, ','));
    var f := FieldsOf(Split(text, ',')).value;
    CredentialLines(f.credential.value);
    NamesLine(f.signedHeaders.value);
    ValueLine(r.headers, "x-amz-date");
    CanonicalIsPrinted(r, ValidateSignedHeaders(f.signedHeaders.value).value);
  }

  /** For a presigned request the decoded credential, date and names have to be lines too. */
  lemma PresignedIsPrinted(lossy: Lossy, r: Request, clients: seq<Client>, s: Signing)
    requires OneLine(r.verb) && s in RecomputedPresigned(lossy, r, clients)
    requires var pairs := QueryPairs(lossy, r.query);
             LineIfAny(QueryValue(pairs, "X-Amz-Credential")) && LineIfAny(QueryValue(pairs, "X-Amz-Date")) && LineIfAny(QueryValue(pairs, "X-Amz-SignedHeaders"))
    ensures PrintedSigning(s)
  {
    hide OneLine, ParseCredential, ValidateSignedHeaders, ResolveClient, Join, ScopeText, QueryPairs, AsText, UriCodec.CanonicalUri,
         CanonicalQuery.Canonical, HeaderBlock;
    var pairs := QueryPairs(lossy, r.query);
    CredentialLines(QueryValue(pairs, "X-Amz-Credential").value);
    NamesLine(ReadPresigned(pairs).value.signedHeaders);
    UriIsLine(r.path);
    QueryIsLine(r.query, {SIGNATURE_PARAM});
    UnsignedIsLine();
  }

  lemma DropLine(s: string, n: nat)
    requires OneLine(s) && n <= |s|
    ensures OneLine(s[n..])
  {
  }

  // ---------------------------------------------------------------- signatures

  /** A digest and a keyed hash, and the hexadecimal form of the latter. */
  datatype Suite = Suite(digest: string -> string, mac: (string, string) -> string, hex: string -> string)

  ghost predicate HexLaw(suite: Suite) {
    (forall x :: Clean(suite.hex(x))) && forall x, y :: suite.hex(x) == suite.hex(y) ==> x == y
  }

  const KEY_PREFIX: string := "AWS4"
  const HASH_NAME: string := "AWS4-HMAC-SHA256"

  function DateKey(suite: Suite, secret: string, scope: Scope): string { suite.mac(KEY_PREFIX + secret, scope.date8) }

  function RegionKey(suite: Suite, secret: string, scope: Scope): string {
    suite.mac(DateKey(suite, secret, scope), scope.region)
  }

  function ServiceKey(suite: Suite, secret: string, scope: Scope): string {
    suite.mac(RegionKey(suite, secret, scope), scope.service)
  }

  /** The key that a secret yields for one day, region and service. */
  function SigningKey(suite: Suite, secret: string, scope: Scope): string {
    suite.mac(ServiceKey(suite, secret, scope), TERMINATOR)
  }

  function StringToSign(suite: Suite, date: string, scope: Scope, request: string): string {
    HASH_NAME + ['\n'] + (date + ['\n'] + (ScopeText(scope) + ['\n'] + suite.digest(request)))
  }

  /** Its lines: the algorithm, the timestamp, the scope and the digest. */
  lemma SigningLines(suite: Suite, date: string, scope: Scope, request: string)
    requires OneLine(date) && OneLine(ScopeText(scope)) && OneLine(suite.digest(request))
    ensures Split(StringToSign(suite, date, scope, request), '\n') == [HASH_NAME, date, ScopeText(scope), suite.digest(request)]
  {
    hide Split, ScopeText;
    var d := suite.digest(request);
    HashNameIsLine();
    SplitPiece(d, '\n');
    SplitHead(ScopeText(scope), '\n', d);
    SplitHead(date, '\n', ScopeText(scope) + ['\n'] + d);
    SplitHead(HASH_NAME, '\n', date + ['\n'] + (ScopeText(scope) + ['\n'] + d));
  }

  function SignerOf(suite: Suite): Signer {
    (secret: string, scope: Scope, date: string, q: CanonicalRequest) =>
      suite.hex(suite.mac(SigningKey(suite, secret, scope), StringToSign(suite, date, scope, RequestText(q))))
  }

  /** Such a signer prints what the verifier can parse. */
  lemma SuiteSigns(suite: Suite)
    requires HexLaw(suite)
    ensures HexSigner(SignerOf(suite))
  {
    hide Clean;
    forall secret, scope, date, q ensures Clean(SignerOf(suite)(secret, scope, date, q)) {
      assert Clean(suite.hex(suite.mac(SigningKey(suite, secret, scope), StringToSign(suite, date, scope, RequestText(q)))));
    }
  }

  /** The keyed hashes of one signing, in order: key and message of each. */
  function Macs(suite: Suite, s: Signing): seq<(string, string)> {
    [(KEY_PREFIX + s.secret, s.scope.date8), (DateKey(suite, s.secret, s.scope), s.scope.region),
     (RegionKey(suite, s.secret, s.scope), s.scope.service), (ServiceKey(suite, s.secret, s.scope), TERMINATOR),
     (SigningKey(suite, s.secret, s.scope), StringToSign(suite, s.date, s.scope, RequestText(s.request)))]
  }

  /** Neither the texts digested nor the pairs hashed at one step collide among these signings. */
  ghost predicate NoCollisions(suite: Suite, made: set<Signing>) {
    forall a, b :: a in made && b in made ==> NotColliding(suite, a, b)
  }

  ghost predicate NotColliding(suite: Suite, a: Signing, b: Signing) {
    && (suite.digest(RequestText(a.request)) == suite.digest(RequestText(b.request)) ==> RequestText(a.request) == RequestText(b.request))
    && forall i :: 0 <= i < 5 ==>
         var m, n := Macs(suite, a)[i], Macs(suite, b)[i];
         suite.mac(m.0, m.1) == suite.mac(n.0, n.1) ==> m == n
  }

  predicate PrintedSigning(s: Signing) {
    Printed(s.request) && OneLine(s.date) && OneLine(ScopeText(s.scope))
  }

  /** Equal keys come from the same secret, day, region and service. */
  lemma KeyIsBound(suite: Suite, a: Signing, b: Signing)
    requires NotColliding(suite, a, b) && SigningKey(suite, a.secret, a.scope) == SigningKey(suite, b.secret, b.scope)
    ensures a.secret == b.secret && a.scope == b.scope
  {
    hide StringToSign, RequestText;
    var m, n := Macs(suite, a), Macs(suite, b);
    assert m[3] == n[3] by { assert suite.mac(m[3].0, m[3].1) == suite.mac(n[3].0, n[3].1); }
    assert m[2] == n[2] by { assert suite.mac(m[2].0, m[2].1) == suite.mac(n[2].0, n[2].1); }
    assert m[1] == n[1] by { assert suite.mac(m[1].0, m[1].1) == suite.mac(n[1].0, n[1].1); }
    assert m[0] == n[0] by { assert suite.mac(m[0].0, m[0].1) == suite.mac(n[0].0, n[0].1); }
    assert (KEY_PREFIX + a.secret)[4..] == a.secret && (KEY_PREFIX + b.secret)[4..] == b.secret;
  }

  lemma TextIsBound(suite: Suite, a: Signing, b: Signing)
    requires NotColliding(suite, a, b) && PrintedSigning(a) && PrintedSigning(b)
    requires StringToSign(suite, a.date, a.scope, RequestText(a.request)) == StringToSign(suite, b.date, b.scope, RequestText(b.request))
    ensures a.date == b.date && a.request == b.request
  {
    hide RequestText, Printed, ScopeText, Macs, OneLine;
    var d, d' := suite.digest(RequestText(a.request)), suite.digest(RequestText(b.request));
    var two, two' := ScopeText(a.scope) + ['\n'] + d, ScopeText(b.scope) + ['\n'] + d';
    HashNameIsLine();
    FirstLine(HASH_NAME, a.date + ['\n'] + two, HASH_NAME, b.date + ['\n'] + two');
    FirstLine(a.date, two, b.date, two');
    FirstLine(ScopeText(a.scope), d, ScopeText(b.scope), d');
    RequestTextInjective(a.request, b.request);
  }

  lemma HashNameIsLine()
    ensures OneLine(HASH_NAME)
  {
  }

  /** A signature belongs to one signing. */
  lemma SignatureIsBound(suite: Suite, a: Signing, b: Signing)
    requires HexLaw(suite) && NotColliding(suite, a, b) && PrintedSigning(a) && PrintedSigning(b)
    requires SignatureOf(SignerOf(suite), a) == SignatureOf(SignerOf(suite), b)
    ensures a == b
  {
    hide StringToSign, RequestText, SigningKey, PrintedSigning;
    var m, n := Macs(suite, a), Macs(suite, b);
    assert suite.mac(m[4].0, m[4].1) == suite.mac(n[4].0, n[4].1);
    assert m[4] == n[4];
    KeyIsBound(suite, a, b);
    TextIsBound(suite, a, b);
  }

  // ---------------------------------------------------------------- what an accepted header binds

  /** Nobody else can have made the signature of an accepted header: of all signings that
      were made, the one with its signature used the resolved client's secret on the
      canonical form of this very request. */
  lemma OnlySecretSigns(suite: Suite, made: set<Signing>, r: Request, auth: string, clients: seq<Client>, now: nat, s: Signing)
    requires HexLaw(suite) && NoCollisions(suite, made) && forall x :: x in made ==> PrintedSigning(x)
    requires s in made && Recomputed(r, auth, clients) <= made
    requires VerifyHeader(SignerOf(suite), r, auth, clients, now).Ok?
    requires VerifyHeader(SignerOf(suite), r, auth, clients, now).value.seed == SignatureOf(SignerOf(suite), s)
    ensures var client := ResolveClient(clients, VerifyHeader(SignerOf(suite), r, auth, clients, now).value.accessKey);
            client.Some? && s.secret == client.value.secret
    ensures ValueOf(r.headers, "x-amz-date") == Some(s.date) && exists names :: "host" in names && s.request == CanonicalOf(r, names)
  {
    hide VerifyHeader, Recomputed, CanonicalOf, ValueOf, ResolveClient, Skew, Date8, Carries, NotColliding, PrintedSigning,
         HexLaw, SignerOf;
    var names, scope, client, amzDate := AcceptedIsSigned(SignerOf(suite), r, auth, clients, now);
    var mine := Signing(client.secret, scope, amzDate, CanonicalOf(r, names));
    assert mine in made;
    SignatureIsBound(suite, mine, s);
  }

  // ---------------------------------------------------------------- header values

  predicate IsBlank(c: char) {
    c == ' ' || c == '\t'
  }

  function Spaced(s: string): string {
    seq(|s|, k requires 0 <= k < |s| => if s[k] == '\t' then ' ' else s[k])
  }

  function NonEmpty(parts: seq<string>): seq<string> {
    if |parts| == 0 then [] else (if parts[0] == "" then [] else [parts[0]]) + NonEmpty(parts[1..])
  }

  /** What stands between blanks. */
  function Words(s: string): seq<string> {
    NonEmpty(Split(Spaced(s), ' '))
  }

  lemma WordsStep(s: string)
    requires |s| > 0
    ensures IsBlank(s[0]) ==> Words(s) == Words(s[1..])
    ensures !IsBlank(s[0]) && (|s| == 1 || IsBlank(s[1])) ==> Words(s) == [[s[0]]] + Words(s[1..])
    ensures !IsBlank(s[0]) && |s| > 1 && !IsBlank(s[1]) ==>
              |Words(s[1..])| > 0 && Words(s) == [[s[0]] + Words(s[1..])[0]] + Words(s[1..])[1..]
  {
    var t := Spaced(s);
    assert t[1..] == Spaced(s[1..]);
    var rest := Split(t[1..], ' ');
    assert rest == [rest[0]] + rest[1..];
    if IsBlank(s[0]) {
      assert Split(t, ' ')[0] == "" && Split(t, ' ')[1..] == rest;
    } else {
      assert Split(t, ' ') == [[s[0]] + rest[0]] + rest[1..];
      assert Split(t, ' ')[1..] == rest[1..];
      FirstPiece(s[1..]);
      assert rest[0] == "" ==> [s[0]] + rest[0] == [s[0]];
    }
  }

  lemma FirstPiece(s: string)
    ensures Split(Spaced(s), ' ')[0] == "" <==> |s| == 0 || IsBlank(s[0])
  {
    if |s| > 0 {
      assert Spaced(s)[0] == if s[0] == '\t' then ' ' else s[0];
    }
  }

  /** Runs of blanks shrink to one space between words. */
  lemma {:induction false} CollapseWords(s: string)
    requires |s| > 0 && !IsBlank(s[|s| - 1])
    ensures |Words(s)| > 0 && Collapse(s, true) == Join(Words(s), ' ')
    ensures Collapse(s, false) == (if IsBlank(s[0]) then " " else "") + Join(Words(s), ' ')
  {
    hide Words, Join;
    WordsStep(s);
    if |s| == 1 {
      NoWords(s[1..]);
      JoinStep([s[0]], [], ' ');
      assert [[s[0]]] + [] == [[s[0]]];
      assert Collapse(s[1..], false) == "";
    } else {
      CollapseWords(s[1..]);
      if IsBlank(s[0]) {
      } else if IsBlank(s[1]) {
        JoinStep([s[0]], Words(s[1..]), ' ');
      } else {
        JoinPrepend(s[0], Words(s[1..]), ' ');
      }
    }
  }

  lemma NoWords(s: string)
    requires |s| == 0
    ensures Words(s) == []
  {
    assert Split(Spaced(s), ' ') == [""];
    assert NonEmpty([""][1..]) == [];
  }

  /** A header is signed as the words of its value. */
  lemma SignedAsWords(value: string)
    ensures Collapse(Trim(value), false) == Join(Words(Trim(value)), ' ')
  {
    hide Words, Join, Trim;
    var t := Trim(value);
    var left, right := TrimExact(value);
    if |t| > 0 {
      CollapseWords(t);
    } else {
      NoWords(t);
      NoneJoined();
    }
  }

  lemma NoneJoined()
    ensures Join<char>([], ' ') == []
  {
  }

  lemma {:induction false} WordsAreWords(parts: seq<string>, k: nat)
    requires Free(parts, ' ') && k < |NonEmpty(parts)|
    ensures NonEmpty(parts)[k] != "" && ' ' !in NonEmpty(parts)[k]
  {
    if parts[0] == "" {
      WordsAreWords(parts[1..], k);
    } else if k > 0 {
      WordsAreWords(parts[1..], k - 1);
    }
  }

  lemma WordsJoin(s: string)
    ensures Free(Words(s), ' ') && (Join(Words(s), ' ') == "" <==> Words(s) == [])
    ensures Words(s) != [] ==> Split(Join(Words(s), ' '), ' ') == Words(s)
  {
    var words := Words(s);
    JoinSplit(Spaced(s), ' ');
    forall k | 0 <= k < |words| ensures words[k] != "" && ' ' !in words[k] {
      WordsAreWords(Split(Spaced(s), ' '), k);
    }
    if words != [] {
      SplitJoin(words, ' ');
    }
  }

  /** Two values are signed alike exactly when they have the same words: blanks around and
      between words count for nothing else. */
  lemma SignedAlike(a: string, b: string)
    ensures Collapse(Trim(a), false) == Collapse(Trim(b), false) <==> Words(Trim(a)) == Words(Trim(b))
  {
    hide Words, Join, Trim, Collapse;
    SignedAsWords(a);
    SignedAsWords(b);
    WordsJoin(Trim(a));
    WordsJoin(Trim(b));
  }

  /** The block lists the values of a name in the order of its headers. */
  lemma ValuesExact(headers: seq<Header>, name: string)
    ensures forall h :: ValuesOf(headers + [h], name)
              == ValuesOf(headers, name) + if Lowercase(h.name) == Lowercase(name) then [Join(Words(Trim(h.value)), ' ')] else []
  {
    hide Words, Join, Trim, Collapse, Lowercase;
    forall h
      ensures ValuesOf(headers + [h], name)
              == ValuesOf(headers, name) + if Lowercase(h.name) == Lowercase(name) then [Join(Words(Trim(h.value)), ' ')] else []
    {
      ValuesAppend(headers, [h], name);
      SignedAsWords(h.value);
      assert ValuesOf([h][1..], name) == [];
    }
  }

  // ---------------------------------------------------------------- what a header binds

  /** What is signed of a header: its values as the block prints them. */
  function SignedValue(headers: seq<Header>, name: string): string {
    Join(ValuesOf(headers, name), ',')
  }

  ghost predicate LineValues(headers: seq<Header>, names: seq<string>) {
    forall n :: n in names ==> OneLine(SignedValue(headers, n))
  }

  /** A header block of single-line values determines the values. */
  lemma {:induction false} BlockIsBound(headers: seq<Header>, headers': seq<Header>, names: seq<string>, n: string)
    requires HeaderBlock(headers, names) == HeaderBlock(headers', names) && n in names
    requires LineValues(headers, names) && LineValues(headers', names)
    ensures SignedValue(headers, n) == SignedValue(headers', n)
  {
    hide ValuesOf, Join, OneLine;
    var v, v' := SignedValue(headers, names[0]), SignedValue(headers', names[0]);
    var rest, rest' := HeaderBlock(headers, names[1..]), HeaderBlock(headers', names[1..]);
    var k := |names[0]| + 1;
    assert HeaderBlock(headers, names)[k..] == v + ['\n'] + rest && HeaderBlock(headers', names)[k..] == v' + ['\n'] + rest';
    FirstLine(v, rest, v', rest');
    if n != names[0] {
      BlockIsBound(headers, headers', names[1..], n);
    }
  }

  /** One header value is good for one request: if two are accepted with it, they agree in
      verb, decoded path, decoded query parameters, payload hash, date and every signed header. */
  lemma HeaderIsBound(suite: Suite, made: set<Signing>, r: Request, r': Request, auth: string, clients: seq<Client>,
                      now: nat, now': nat)
      returns (names: seq<string>)
    requires HexLaw(suite) && NoCollisions(suite, made) && forall x :: x in made ==> PrintedSigning(x)
    requires Recomputed(r, auth, clients) <= made && Recomputed(r', auth, clients) <= made
    requires VerifyHeader(SignerOf(suite), r, auth, clients, now).Ok? && VerifyHeader(SignerOf(suite), r', auth, clients, now').Ok?
    ensures r.verb == r'.verb && UriCodec.Segments(r.path) == UriCodec.Segments(r'.path) && r.payloadHash == r'.payloadHash
    ensures multiset(CanonicalQuery.QueryParams(r.query, {})) == multiset(CanonicalQuery.QueryParams(r'.query, {}))
    ensures ValueOf(r.headers, "x-amz-date") == ValueOf(r'.headers, "x-amz-date")
    ensures "host" in names && (forall h :: h in r.headers && "x-amz-" <= Lowercase(h.name) ==> Lowercase(h.name) in names)
    ensures LineValues(r.headers, names) && LineValues(r'.headers, names) ==>
              forall n :: n in names ==> SignedValue(r.headers, n) == SignedValue(r'.headers, n)
  {
    hide VerifyHeader, Recomputed, HeaderBlock, ValueOf, ResolveClient, Skew, Date8, FieldsOf, Split,
         ValidateSignedHeaders, Join, NotColliding, PrintedSigning, HexLaw, SignerOf, SignedValue, LineValues;
    var sign := SignerOf(suite);
    var scope, client, amzDate;
    names, scope, client, amzDate := AcceptedIsSigned(sign, r, auth, clients, now);
    var names', scope', client', amzDate' := AcceptedIsSigned(sign, r', auth, clients, now');
    var mine, other := Signing(client.secret, scope, amzDate, CanonicalOf(r, names)),
                       Signing(client'.secret, scope', amzDate', CanonicalOf(r', names'));
    assert mine in made && other in made;
    SignatureIsBound(suite, mine, other);
    UriCodec.CanonicalUriExact(r.path, r'.path);
    CanonicalQuery.CanonicalExact(r.query, r'.query, {});
    if LineValues(r.headers, names) && LineValues(r'.headers, names) {
      forall n | n in names ensures SignedValue(r.headers, n) == SignedValue(r'.headers, n) {
        BlockIsBound(r.headers, r'.headers, names, n);
      }
    }
  }

  /** The printed list determines the names. */
  lemma SameNames(raw: string, names: seq<string>, raw': string, names': seq<string>)
    requires ValidateSignedHeaders(raw) == Some(names) && ValidateSignedHeaders(raw') == Some(names')
    requires Join(names, ';') == Join(names', ';')
    ensures names == names'
  {
    JoinSplit(raw, ';');
    JoinSplit(raw', ';');
  }

  /** The same of presigned requests: two that are accepted with one signature agree in verb,
      decoded path, decoded query parameters but for the signature, date and every signed header. */
  lemma PresignedIsBound(suite: Suite, made: set<Signing>, lossy: Lossy, r: Request, r': Request, clients: seq<Client>,
                         now: nat, now': nat)
      returns (names: seq<string>)
    requires HexLaw(suite) && NoCollisions(suite, made) && forall x :: x in made ==> PrintedSigning(x)
    requires RecomputedPresigned(lossy, r, clients) <= made && RecomputedPresigned(lossy, r', clients) <= made
    requires VerifyPresigned(SignerOf(suite), lossy, r, clients, now).Ok? && VerifyPresigned(SignerOf(suite), lossy, r', clients, now').Ok?
    requires QueryValue(QueryPairs(lossy, r.query), "X-Amz-Signature") == QueryValue(QueryPairs(lossy, r'.query), "X-Amz-Signature")
    ensures r.verb == r'.verb && UriCodec.Segments(r.path) == UriCodec.Segments(r'.path)
    ensures multiset(CanonicalQuery.QueryParams(r.query, {SIGNATURE_PARAM})) == multiset(CanonicalQuery.QueryParams(r'.query, {SIGNATURE_PARAM}))
    ensures QueryValue(QueryPairs(lossy, r.query), "X-Amz-Date") == QueryValue(QueryPairs(lossy, r'.query), "X-Amz-Date")
    ensures "host" in names && HeaderBlock(r.headers, names) == HeaderBlock(r'.headers, names)
  {
    hide VerifyPresigned, RecomputedPresigned, HeaderBlock, ResolveClient, Split, ValidateSignedHeaders, Join, NotColliding, PrintedSigning,
         HexLaw, SignerOf, QueryPairs;
    var sign := SignerOf(suite);
    var p, client;
    names, p, client := PresignedIsSigned(sign, lossy, r, clients, now);
    var names', p', client' := PresignedIsSigned(sign, lossy, r', clients, now');
    var mine, other := Signing(client.secret, p.credential.scope, p.date, PresignedOf(r, names)),
                       Signing(client'.secret, p'.credential.scope, p'.date, PresignedOf(r', names'));
    assert mine in made && other in made;
    SignatureIsBound(suite, mine, other);
    SameNames(p.signedHeaders, names, p'.signedHeaders, names');
    UriCodec.CanonicalUriExact(r.path, r'.path);
    CanonicalQuery.CanonicalExact(r.query, r'.query, {SIGNATURE_PARAM});
  }
}
