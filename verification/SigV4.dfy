/** The Authorization header of Signature Version 4: the signer prints it, the verifier
    parses it and computes the same signature again. */
module SigV4 {
  import opened Bytes
  import opened Text
  import opened AmzDate
  import opened Numerals
  import UriCodec
  import CanonicalQuery

  const MAX_SKEW: nat := 15 * 60
  const ALGORITHM: string := "AWS4-HMAC-SHA256 "
  const TERMINATOR: string := "aws4_request"

  datatype Header = Header(name: string, value: string)

  datatype Request = Request(verb: string, path: Bytes, query: Bytes, headers: seq<Header>, payloadHash: string)

  datatype VerifyError =
    | NoAuth
    | MalformedAuthHeader
    | UnknownAccessKey
    | BadSignedHeaders
    | MissingDate
    | ClockSkew
    | DateMismatch
    | BadScope
    | BadSignature
    | UnsignedAmzHeader(name: string)
    | MalformedPresignedQuery
    | BadExpires
    | Expired

  // ---------------------------------------------------------------- the canonical request

  function Lower(c: char): char {
    if 'A' <= c <= 'Z' then c - 'A' + 'a' else c
  }

  function Lowercase(s: string): string {
    seq(|s|, k requires 0 <= k < |s| => Lower(s[k]))
  }

  const CAPITALS: string := "ABCDEFGHIJKLMNOPQRSTUVWXYZ"
  const SMALLS: string := "abcdefghijklmnopqrstuvwxyz"

  /** Capital letters, and nothing else, become the small letters at the same place. */
  lemma LowerExact(c: char)
    ensures forall k :: 0 <= k < 26 ==> Lower(CAPITALS[k]) == SMALLS[k]
    ensures c !in CAPITALS ==> Lower(c) == c
  {
    assert forall k :: 0 <= k < 26 ==> CAPITALS[k] as int == 'A' as int + k && SMALLS[k] as int == 'a' as int + k;
    if 'A' <= c <= 'Z' {
      assert c == CAPITALS[c as int - 'A' as int];
    }
  }

  /** Runs of blanks become one space. */
  function Collapse(s: string, prevSpace: bool): string {
    if |s| == 0 then ""
    else if s[0] == ' ' || s[0] == '\t' then (if prevSpace then "" else " ") + Collapse(s[1..], true)
    else [s[0]] + Collapse(s[1..], false)
  }

  /** The value of a header, if it has that name in any spelling. */
  function ValueIf(h: Header, name: string): seq<string> {
    if Lowercase(h.name) == Lowercase(name) then [Collapse(Trim(h.value), false)] else []
  }

  function ValuesOf(headers: seq<Header>, name: string): seq<string> {
    if |headers| == 0 then [] else ValueIf(headers[0], name) + ValuesOf(headers[1..], name)
  }

  /** One line per signed name, in the given order. */
  function HeaderBlock(headers: seq<Header>, names: seq<string>): string {
    if |names| == 0 then ""
    else names[0] + ":" + Join(ValuesOf(headers, names[0]), ',') + "\n" + HeaderBlock(headers, names[1..])
  }

  datatype CanonicalRequest = CanonicalRequest(
    verb: string, uri: Bytes, query: Bytes, headerBlock: string, signedHeaders: string, payloadHash: string
  )

  function CanonicalOf(r: Request, names: seq<string>): CanonicalRequest {
    CanonicalRequest(r.verb, UriCodec.CanonicalUri(r.path), CanonicalQuery.Canonical(r.query, {}),
                     HeaderBlock(r.headers, names), Join(names, ';'), r.payloadHash)
  }

  datatype Scope = Scope(date8: string, region: string, service: string)

  function ScopeText(s: Scope): string {
    s.date8 + ['/'] + (s.region + ['/'] + (s.service + ['/'] + TERMINATOR))
  }

  /** The keyed signature of a canonical request, in hexadecimal: arguments are the secret,
      the scope and the timestamp. */
  type Signer = (string, Scope, string, CanonicalRequest) -> string

  /** The characters that must not occur in the pieces of the header. */
  predicate Clean(s: string) {
    ',' !in s && (forall c :: c in s ==> !IsSpace(c))
  }

  ghost predicate HexSigner(sign: Signer) {
    forall secret, scope, date, request :: Clean(sign(secret, scope, date, request))
  }

  // ---------------------------------------------------------------- signed names

  predicate Less(a: string, b: string) {
    |b| > 0 && (|a| == 0 || a[0] < b[0] || (a[0] == b[0] && Less(a[1..], b[1..])))
  }

  /** The first difference is at `k`, where `a` is smaller. */
  predicate SmallerAt(a: string, b: string, k: nat) {
    k < |a| && k < |b| && a[k] < b[k] && forall j :: 0 <= j < k ==> a[j] == b[j]
  }

  lemma {:induction false} LessDiffers(a: string, b: string)
    requires Less(a, b)
    ensures a < b || exists k: nat :: SmallerAt(a, b, k)
  {
    if |a| > 0 {
      if a[0] < b[0] {
        assert SmallerAt(a, b, 0);
      } else {
        LessDiffers(a[1..], b[1..]);
        if a[1..] < b[1..] {
          assert a == [a[0]] + a[1..] && b == [b[0]] + b[1..];
        } else {
          var k: nat :| SmallerAt(a[1..], b[1..], k);
          assert SmallerAt(a, b, k + 1);
        }
      }
    }
  }

  lemma {:induction false} SmallerIsLess(a: string, b: string, k: nat)
    requires SmallerAt(a, b, k)
    ensures Less(a, b)
  {
    if k > 0 {
      SmallerIsLess(a[1..], b[1..], k - 1);
    }
  }

  lemma {:induction false} BeginsIsLess(a: string, b: string)
    requires a < b
    ensures Less(a, b)
  {
    if |a| > 0 {
      assert a == b[..|a|];
      assert a[1..] == b[1..][..|a| - 1];
      BeginsIsLess(a[1..], b[1..]);
    }
  }

  /** The order of texts: one begins the other, or is smaller where they first differ. */
  lemma LessExact(a: string, b: string)
    ensures Less(a, b) <==> a < b || exists k: nat :: SmallerAt(a, b, k)
  {
    hide Less, SmallerAt;
    if Less(a, b) {
      LessDiffers(a, b);
    }
    if a < b {
      BeginsIsLess(a, b);
    }
    forall k: nat | SmallerAt(a, b, k) ensures Less(a, b) {
      SmallerIsLess(a, b, k);
    }
  }

  lemma {:induction false} LessTrichotomy(a: string, b: string)
    ensures Less(a, b) || Less(b, a) || a == b
    ensures !Less(a, a)
  {
    if |a| > 0 {
      LessTrichotomy(a[1..], a[1..]);
    }
    if |a| > 0 && |b| > 0 {
      LessTrichotomy(a[1..], b[1..]);
      assert a == [a[0]] + a[1..] && b == [b[0]] + b[1..];
    }
  }

  lemma {:induction false} LessTransitive(a: string, b: string, c: string)
    requires Less(a, b) && Less(b, c)
    ensures Less(a, c)
  {
    if |a| > 0 && a[0] == b[0] == c[0] {
      LessTransitive(a[1..], b[1..], c[1..]);
    }
  }

  function InsertName(n: string, names: seq<string>): seq<string> {
    if |names| == 0 || Less(n, names[0]) then [n] + names
    else if n == names[0] then names
    else [names[0]] + InsertName(n, names[1..])
  }

  /** Lowercase, sorted, without duplicates. */
  function SignedNames(names: seq<string>): seq<string> {
    if |names| == 0 then [] else InsertName(Lowercase(names[0]), SignedNames(names[1..]))
  }

  predicate StrictlySorted(names: seq<string>) {
    forall i, j :: 0 <= i < j < |names| ==> Less(names[i], names[j])
  }

  lemma {:induction false} InsertSorts(n: string, names: seq<string>)
    requires StrictlySorted(names)
    ensures StrictlySorted(InsertName(n, names))
    ensures forall m :: m in InsertName(n, names) <==> m == n || m in names
  {
    if |names| > 0 {
      assert names == [names[0]] + names[1..];
      LessTrichotomy(n, names[0]);
      if Less(n, names[0]) {
        forall j | 0 < j < |names| ensures Less(n, names[j]) {
          LessTransitive(n, names[0], names[j]);
        }
      } else if n != names[0] {
        InsertSorts(n, names[1..]);
        var rest := InsertName(n, names[1..]);
        forall j | 0 <= j < |rest| ensures Less(names[0], rest[j]) {
          assert rest[j] in rest;
        }
      }
    }
  }

  lemma {:induction false} SignedNamesSorted(names: seq<string>)
    ensures StrictlySorted(SignedNames(names))
    ensures forall m :: m in SignedNames(names) <==> exists n :: n in names && m == Lowercase(n)
  {
    if |names| > 0 {
      SignedNamesSorted(names[1..]);
      InsertSorts(Lowercase(names[0]), SignedNames(names[1..]));
      assert names == [names[0]] + names[1..];
    }
  }

  /** Names as the header lists them: lowercase, non-empty, unique, with `host`. */
  function ValidateSignedHeaders(raw: string): Option<seq<string>> {
    var names := Split(raw, ';');
    if "host" !in names then None
    else if exists k :: 0 <= k < |names| && (names[k] == "" || Lowercase(names[k]) != names[k]) then None
    else if exists i, j :: 0 <= i < j < |names| && names[i] == names[j] then None
    else Some(names)
  }

  /** The first x-amz header that was left unsigned. */
  function UnsignedAmz(headers: seq<Header>, names: seq<string>): Option<string> {
    if |headers| == 0 then None
    else
      var lower := Lowercase(headers[0].name);
      if "x-amz-" <= lower && lower !in names then Some(lower) else UnsignedAmz(headers[1..], names)
  }

  function ValueOf(headers: seq<Header>, name: string): Option<string> {
    if |headers| == 0 then None
    else if Lowercase(headers[0].name) == Lowercase(name) then Some(headers[0].value)
    else ValueOf(headers[1..], name)
  }

  // ---------------------------------------------------------------- the signer

  function Date8(amzDate: string): string {
    if |amzDate| >= 8 then amzDate[..8] else ""
  }

  function AuthorizationHeader(sign: Signer, r: Request, names: seq<string>, accessKey: string, secret: string,
                               region: string, service: string, amzDate: string): string {
    var scope := Scope(Date8(amzDate), region, service);
    var signedNames := SignedNames(names);
    var signature := sign(secret, scope, amzDate, CanonicalOf(r, signedNames));
    ALGORITHM + Join(["Credential=" + (accessKey + ['/'] + ScopeText(scope)),
                      " SignedHeaders=" + Join(signedNames, ';'),
                      " Signature=" + signature], ',')
  }

  // ---------------------------------------------------------------- the verifier

  datatype Fields = Fields(credential: Option<string>, signedHeaders: Option<string>, signature: Option<string>)

  /** What one field of the header sets; unknown fields are ignored. */
  function SetField(f: Fields, field: string): Option<Fields> {
    match SplitOnce(field, '=')
    case None => None
    case Some((name, value)) =>
      if Trim(name) == "Credential" then Some(f.(credential := Some(Trim(value))))
      else if Trim(name) == "SignedHeaders" then Some(f.(signedHeaders := Some(Trim(value))))
      else if Trim(name) == "Signature" then Some(f.(signature := Some(Trim(value))))
      else Some(f)
  }

  /** The fields in order; a later one overrides an earlier one of the same name. */
  function FieldsOf(fields: seq<string>): Option<Fields> {
    if |fields| == 0 then Some(Fields(None, None, None))
    else
      match FieldsOf(fields[..|fields| - 1])
      case None => None
      case Some(f) => SetField(f, fields[|fields| - 1])
  }

  /** Whether a field sets this name, and the value it gives. */
  predicate Names(field: string, name: string) {
    var pair := SplitOnce(field, '=');
    pair.Some? && Trim(pair.value.0) == name
  }

  function GivenValue(field: string): string {
    match SplitOnce(field, '=')
    case None => ""
    case Some((_, value)) => Trim(value)
  }

  /** `v` is the value of the last field of that name, if there is one. */
  ghost predicate LastValue(fields: seq<string>, name: string, v: Option<string>) {
    match v
    case None => forall k :: 0 <= k < |fields| ==> !Names(fields[k], name)
    case Some(value) =>
      exists k :: 0 <= k < |fields| && Names(fields[k], name) && GivenValue(fields[k]) == value
                  && forall j :: k < j < |fields| ==> !Names(fields[j], name)
  }

  lemma LastValueStep(fields: seq<string>, name: string, v: Option<string>)
    requires |fields| > 0 && LastValue(fields[..|fields| - 1], name, v)
    ensures var last := fields[|fields| - 1];
            LastValue(fields, name, if Names(last, name) then Some(GivenValue(last)) else v)
  {
    hide Names, GivenValue;
    var n := |fields| - 1;
    if !Names(fields[n], name) && v.Some? {
      var front := fields[..n];
      var k :| 0 <= k < |front| && Names(front[k], name) && GivenValue(front[k]) == v.value
               && forall j :: k < j < |front| ==> !Names(front[j], name);
      assert fields[k] == front[k] && forall j :: k < j < n ==> fields[j] == front[j];
    }
  }

  ghost predicate LastValues(fields: seq<string>, f: Fields) {
    && LastValue(fields, "Credential", f.credential) && LastValue(fields, "SignedHeaders", f.signedHeaders)
    && LastValue(fields, "Signature", f.signature)
  }

  lemma LastValuesStep(fields: seq<string>, f: Fields, f': Fields)
    requires |fields| > 0 && LastValues(fields[..|fields| - 1], f) && SetField(f, fields[|fields| - 1]) == Some(f')
    ensures LastValues(fields, f')
  {
    hide LastValue, Trim, SplitOnce;
    LastValueStep(fields, "Credential", f.credential);
    LastValueStep(fields, "SignedHeaders", f.signedHeaders);
    LastValueStep(fields, "Signature", f.signature);
  }

  /** The fields fail to parse exactly when one lacks its equals sign; otherwise each name
      has the value of its last field. */
  lemma {:induction false} FieldsOfExact(fields: seq<string>)
    ensures FieldsOf(fields).None? <==> exists k :: 0 <= k < |fields| && '=' !in fields[k]
    ensures FieldsOf(fields).Some? ==> LastValues(fields, FieldsOf(fields).value)
  {
    hide LastValues, SplitOnce, Trim;
    if |fields| == 0 {
      assert LastValues(fields, Fields(None, None, None)) by { NoFields(fields); }
    } else {
      var n := |fields| - 1;
      FieldsOfExact(fields[..n]);
      SplitsIff(fields[n], '=');
      assert forall k :: 0 <= k < n ==> fields[k] == fields[..n][k];
      if FieldsOf(fields).Some? {
        LastValuesStep(fields, FieldsOf(fields[..n]).value, FieldsOf(fields).value);
      }
    }
  }

  lemma NoFields(fields: seq<string>)
    requires |fields| == 0
    ensures LastValues(fields, Fields(None, None, None))
  {
  }

  lemma {:induction false} SplitsIff(s: string, sep: char)
    ensures SplitOnce(s, sep).Some? <==> sep in s
  {
    if |s| > 0 && s[0] != sep {
      SplitsIff(s[1..], sep);
      assert s == [s[0]] + s[1..];
    }
  }

  method ParseFields(fields: seq<string>) returns (r: Option<Fields>)
    ensures r.None? <==> exists k :: 0 <= k < |fields| && '=' !in fields[k]
    ensures r.Some? ==> LastValues(fields, r.value)
    ensures r == FieldsOf(fields)
  {
    hide SetField, LastValues;
    FieldsOfExact(fields);
    var f := Fields(None, None, None);
    for i := 0 to |fields|
      invariant FieldsOf(fields[..i]) == Some(f)
    {
      assert fields[..i + 1][..i] == fields[..i];
      var next := SetField(f, fields[i]);
      if next.None? {
        FieldsStop(fields, i + 1);
        return None;
      }
      f := next.value;
    }
    assert fields[..|fields|] == fields;
    return Some(f);
  }

  lemma {:induction false} FieldsStop(fields: seq<string>, n: nat)
    requires n <= |fields| && FieldsOf(fields[..n]).None?
    ensures FieldsOf(fields).None?
    decreases |fields|
  {
    if n == |fields| {
      assert fields[..n] == fields;
    } else {
      assert fields[..|fields| - 1][..n] == fields[..n];
      FieldsStop(fields[..|fields| - 1], n);
    }
  }

  datatype Credential = Credential(accessKey: string, scope: Scope)

  function ParseCredential(s: string): Option<Credential> {
    match SplitOnce(s, '/')
    case None => None
    case Some((accessKey, s1)) =>
      match SplitOnce(s1, '/')
      case None => None
      case Some((date8, s2)) =>
        match SplitOnce(s2, '/')
        case None => None
        case Some((region, s3)) =>
          match SplitOnce(s3, '/')
          case None => None
          case Some((service, terminator)) =>
            if terminator == TERMINATOR then Some(Credential(accessKey, Scope(date8, region, service))) else None
  }

  datatype Client = Client(accessKey: string, secret: string, backend: string)

  function ResolveClient(clients: seq<Client>, accessKey: string): Option<Client> {
    if |clients| == 0 then None
    else if clients[0].accessKey == accessKey then Some(clients[0])
    else ResolveClient(clients[1..], accessKey)
  }

  datatype Identity = Identity(accessKey: string, backend: string, seed: string)

  function Skew(now: nat, signedAt: nat): nat {
    if now >= signedAt then now - signedAt else signedAt - now
  }

  /** The checks behind the parsed fields. */
  function CheckRequest(sign: Signer, r: Request, credential: Credential, names: seq<string>, signature: string,
                        clients: seq<Client>, now: nat): Result<Identity, VerifyError> {
    var unsigned, date := UnsignedAmz(r.headers, names), ValueOf(r.headers, "x-amz-date");
    if unsigned.Some? then Err(UnsignedAmzHeader(unsigned.value))
    else if credential.scope.service != "s3" then Err(BadScope)
    else if date.None? || ParseAmzDate(date.value).None? then Err(MissingDate)
    else if Date8(date.value) != credential.scope.date8 then Err(DateMismatch)
    else if Skew(now, ParseAmzDate(date.value).value) > MAX_SKEW then Err(ClockSkew)
    else
      match ResolveClient(clients, credential.accessKey)
      case None => Err(UnknownAccessKey)
      case Some(client) =>
        var expected := sign(client.secret, credential.scope, date.value, CanonicalOf(r, names));
        if expected != signature then Err(BadSignature)
        else Ok(Identity(credential.accessKey, client.backend, expected))
  }

  function VerifyHeader(sign: Signer, r: Request, auth: string, clients: seq<Client>, now: nat): Result<Identity, VerifyError> {
    if !(ALGORITHM <= auth) then Err(MalformedAuthHeader)
    else
      match FieldsOf(Split(auth[|ALGORITHM|..], ','))
      case Some(Fields(Some(credentialText), Some(signedHeaders), Some(signature))) =>
        (match (ParseCredential(credentialText), ValidateSignedHeaders(signedHeaders))
         case (None, _) => Err(MalformedAuthHeader)
         case (_, None) => Err(BadSignedHeaders)
         case (Some(credential), Some(names)) => CheckRequest(sign, r, credential, names, signature, clients, now))
      case _ => Err(MalformedAuthHeader)
  }

  // ---------------------------------------------------------------- presigned requests

  const MAX_EXPIRES: nat := 604_800
  const UNSIGNED_PAYLOAD: string := "UNSIGNED-PAYLOAD"
  const SIGNATURE_PARAM: Bytes := [88, 45, 65, 109, 122, 45, 83, 105, 103, 110, 97, 116, 117, 114, 101]  // "X-Amz-Signature"

  /** The UTF-8 decoder that replaces what it cannot read. */
  type Lossy = Bytes -> string

  /** The decoded pairs of a query; the last one of a name counts. */
  function PairsOf(lossy: Lossy, pieces: seq<Bytes>): map<string, string> {
    if |pieces| == 0 then map[]
    else
      var before, piece := PairsOf(lossy, pieces[..|pieces| - 1]), pieces[|pieces| - 1];
      if piece == [] then before
      else
        var p := CanonicalQuery.DecodeParam(piece);
        before[lossy(p.name) := lossy(p.value)]
  }

  function QueryPairs(lossy: Lossy, query: Bytes): map<string, string> {
    PairsOf(lossy, Split(query, CanonicalQuery.AMP))
  }

  function QueryValue(pairs: map<string, string>, name: string): Option<string> {
    if name in pairs then Some(pairs[name]) else None
  }

  /** The canonical form of a presigned request: without its signature, the payload unsigned. */
  function PresignedOf(r: Request, names: seq<string>): CanonicalRequest {
    CanonicalRequest(r.verb, UriCodec.CanonicalUri(r.path), CanonicalQuery.Canonical(r.query, {SIGNATURE_PARAM}),
                     HeaderBlock(r.headers, names), Join(names, ';'), UNSIGNED_PAYLOAD)
  }

  /** What a presigned query says about itself. */
  datatype Presigned = Presigned(credential: Credential, date: string, signedHeaders: string, signature: string, expires: nat)

  function ReadPresigned(pairs: map<string, string>): Result<Presigned, VerifyError> {
    if QueryValue(pairs, "X-Amz-Algorithm") != Some("AWS4-HMAC-SHA256") then Err(MalformedPresignedQuery)
    else
      match (QueryValue(pairs, "X-Amz-Credential"), QueryValue(pairs, "X-Amz-Date"), QueryValue(pairs, "X-Amz-SignedHeaders"),
             QueryValue(pairs, "X-Amz-Signature"), QueryValue(pairs, "X-Amz-Expires"))
      case (Some(credentialText), Some(date), Some(signedHeaders), Some(signature), Some(expiresText)) =>
        (match (ParseCredential(credentialText), ParseUnsigned(expiresText, 10, TWO_64))
         case (None, _) => Err(MalformedPresignedQuery)
         case (_, None) => Err(BadExpires)
         case (Some(credential), Some(expires)) =>
           if expires == 0 || expires > MAX_EXPIRES then Err(BadExpires)
           else Ok(Presigned(credential, date, signedHeaders, signature, expires)))
      case _ => Err(MalformedPresignedQuery)
  }

  /** At most the skew ahead of the clock, and at most as old as it says it may become. */
  function CheckAge(now: nat, signedAt: nat, expires: nat): Result<(), VerifyError> {
    if signedAt > now && Skew(now, signedAt) > MAX_SKEW then Err(ClockSkew)
    else if now > signedAt && now - signedAt > expires then Err(Expired)
    else Ok(())
  }

  function CheckPresigned(sign: Signer, r: Request, p: Presigned, names: seq<string>, clients: seq<Client>, now: nat): Result<Identity, VerifyError> {
    var unsigned := UnsignedAmz(r.headers, names);
    if unsigned.Some? then Err(UnsignedAmzHeader(unsigned.value))
    else if p.credential.scope.service != "s3" then Err(BadScope)
    else if ParseAmzDate(p.date).None? then Err(MalformedPresignedQuery)
    else if Date8(p.date) != p.credential.scope.date8 then Err(DateMismatch)
    else
      match CheckAge(now, ParseAmzDate(p.date).value, p.expires)
      case Err(e) => Err(e)
      case Ok(_) =>
        match ResolveClient(clients, p.credential.accessKey)
        case None => Err(UnknownAccessKey)
        case Some(client) =>
          var expected := sign(client.secret, p.credential.scope, p.date, PresignedOf(r, names));
          if expected != p.signature then Err(BadSignature)
          else Ok(Identity(p.credential.accessKey, client.backend, expected))
  }

  function VerifyPresigned(sign: Signer, lossy: Lossy, r: Request, clients: seq<Client>, now: nat): Result<Identity, VerifyError> {
    match ReadPresigned(QueryPairs(lossy, r.query))
    case Err(e) => Err(e)
    case Ok(p) =>
      match ValidateSignedHeaders(p.signedHeaders)
      case None => Err(BadSignedHeaders)
      case Some(names) => CheckPresigned(sign, r, p, names, clients, now)
  }

  /** The verdict on a request: by its query if that carries a signature, otherwise by its
      Authorization header. */
  function VerifyRequest(sign: Signer, lossy: Lossy, r: Request, clients: seq<Client>, now: nat): Result<Identity, VerifyError> {
    if "X-Amz-Signature" in QueryPairs(lossy, r.query) then VerifyPresigned(sign, lossy, r, clients, now)
    else
      match ValueOf(r.headers, "authorization")
      case None => Err(NoAuth)
      case Some(auth) => VerifyHeader(sign, r, auth, clients, now)
  }

  method Verify(sign: Signer, lossy: Lossy, r: Request, clients: seq<Client>, now: nat) returns (verdict: Result<Identity, VerifyError>)
    ensures verdict == VerifyRequest(sign, lossy, r, clients, now)
  {
    hide FieldsOf, ParseCredential, ValidateSignedHeaders, CheckRequest, ValueOf, VerifyPresigned;
    var pairs := ParseQueryPairs(lossy, r.query);
    if "X-Amz-Signature" in pairs {
      return VerifyPresigned(sign, lossy, r, clients, now);
    }
    var header := ValueOf(r.headers, "authorization");
    if header.None? {
      return Err(NoAuth);
    }
    var auth := header.value;
    if !(ALGORITHM <= auth) {
      return Err(MalformedAuthHeader);
    }
    var fields := ParseFields(Split(auth[|ALGORITHM|..], ','));
    if fields.None? || fields.value.credential.None? {
      return Err(MalformedAuthHeader);
    }
    var credential := ParseCredential(fields.value.credential.value);
    if credential.None? || fields.value.signedHeaders.None? || fields.value.signature.None? {
      return Err(MalformedAuthHeader);
    }
    var names := ValidateSignedHeaders(fields.value.signedHeaders.value);
    if names.None? {
      return Err(BadSignedHeaders);
    }
    verdict := CheckRequest(sign, r, credential.value, names.value, fields.value.signature.value, clients, now);
  }

  method ParseQueryPairs(lossy: Lossy, query: Bytes) returns (pairs: map<string, string>)
    ensures pairs == QueryPairs(lossy, query)
  {
    var pieces := Split(query, CanonicalQuery.AMP);
    pairs := map[];
    for i := 0 to |pieces|
      invariant pairs == PairsOf(lossy, pieces[..i])
    {
      assert pieces[..i + 1][..i] == pieces[..i];
      if pieces[i] != [] {
        var p := CanonicalQuery.DecodeParam(pieces[i]);
        pairs := pairs[lossy(p.name) := lossy(p.value)];
      }
    }
    assert pieces[..|pieces|] == pieces;
  }

  // ---------------------------------------------------------------- printing and parsing

  lemma TrimClean(s: string)
    requires forall c :: c in s ==> !IsSpace(c)
    ensures Trim(s) == s && Trim([' '] + s) == s
  {
    assert ([' '] + s)[1..] == s;
    assert |s| > 0 ==> s[0] in s && s[|s| - 1] in s;
  }

  lemma CredentialParses(accessKey: string, scope: Scope)
    requires '/' !in accessKey && '/' !in scope.date8 && '/' !in scope.region && '/' !in scope.service
    ensures ParseCredential(accessKey + ['/'] + ScopeText(scope)) == Some(Credential(accessKey, scope))
  {
    hide SplitOnce;
    var t3 := scope.service + ['/'] + TERMINATOR;
    var t2 := scope.region + ['/'] + t3;
    SplitFirst(accessKey, '/', ScopeText(scope));
    SplitFirst(scope.date8, '/', t2);
    SplitFirst(scope.region, '/', t3);
    SplitFirst(scope.service, '/', TERMINATOR);
  }

  /** A field printed as `name=value`, with or without a blank before it, sets that value. */
  lemma FieldSets(f: Fields, name: string, value: string)
    requires Clean(name) && Clean(value) && '=' !in name
    ensures SetField(f, [' '] + (name + ['='] + value)) == SetField(f, name + ['='] + value)
    ensures SetField(f, name + ['='] + value)
            == if name == "Credential" then Some(f.(credential := Some(value)))
               else if name == "SignedHeaders" then Some(f.(signedHeaders := Some(value)))
               else if name == "Signature" then Some(f.(signature := Some(value)))
               else Some(f)
  {
    hide SplitOnce, Trim;
    SplitFirst(name, '=', value);
    SplitFirst([' '] + name, '=', value);
    assert [' '] + (name + ['='] + value) == [' '] + name + ['='] + value;
    TrimClean(name);
    TrimClean(value);
  }

  lemma CleanNames()
    ensures Clean("Credential") && Clean("SignedHeaders") && Clean("Signature")
  {
  }

  lemma FieldsParse(credential: string, signedHeaders: string, signature: string)
    requires Clean(credential) && Clean(signedHeaders) && Clean(signature)
    ensures FieldsOf(["Credential=" + credential, " SignedHeaders=" + signedHeaders, " Signature=" + signature])
            == Some(Fields(Some(credential), Some(signedHeaders), Some(signature)))
  {
    hide SetField, FieldsOf, Clean;
    assert Clean("Credential") && Clean("SignedHeaders") && Clean("Signature") by { CleanNames(); }
    var a, b, c := "Credential=" + credential, " SignedHeaders=" + signedHeaders, " Signature=" + signature;
    var f0 := Fields(None, None, None);
    var f1, f2 := f0.(credential := Some(credential)), Fields(Some(credential), Some(signedHeaders), None);
    FieldSets(f0, "Credential", credential);
    FieldSets(f1, "SignedHeaders", signedHeaders);
    FieldSets(f2, "Signature", signature);
    assert a == "Credential" + ['='] + credential;
    assert b == [' '] + ("SignedHeaders" + ['='] + signedHeaders);
    assert c == [' '] + ("Signature" + ['='] + signature);
    ThreeFields(a, b, c, f1, f2, Fields(Some(credential), Some(signedHeaders), Some(signature)));
  }

  lemma ThreeFields(a: string, b: string, c: string, f1: Fields, f2: Fields, f3: Fields)
    requires SetField(Fields(None, None, None), a) == Some(f1) && SetField(f1, b) == Some(f2) && SetField(f2, c) == Some(f3)
    ensures FieldsOf([a, b, c]) == Some(f3)
  {
    hide SetField;
    assert [a, b, c][..2] == [a, b] && [a, b][..1] == [a];
    assert FieldsOf([a]) == Some(f1);
    assert FieldsOf([a, b]) == Some(f2);
  }

  /** Header names as HTTP has them: no separators and no blanks. */
  predicate TokenName(n: string) {
    n != "" && ';' !in n && Clean(n)
  }

  lemma LowerKeeps(n: string)
    requires TokenName(n)
    ensures TokenName(Lowercase(n)) && Lowercase(Lowercase(n)) == Lowercase(n)
  {
    var m := Lowercase(n);
    forall c | c in m ensures c != ';' && c != ',' && !IsSpace(c) {
      var k :| 0 <= k < |m| && m[k] == c;
      assert n[k] in n;
    }
  }

  /** The printed list of signed names reads back as itself. */
  lemma SignedNamesParse(names: seq<string>)
    requires (forall n :: n in names ==> TokenName(n)) && "host" in SignedNames(names)
    ensures ValidateSignedHeaders(Join(SignedNames(names), ';')) == Some(SignedNames(names))
  {
    hide Split, Join;
    var signed := SignedNames(names);
    SignedNamesSorted(names);
    forall m | m in signed ensures TokenName(m) && Lowercase(m) == m {
      var n :| n in names && m == Lowercase(n);
      LowerKeeps(n);
    }
    forall k | 0 <= k < |signed| ensures TokenName(signed[k]) && Lowercase(signed[k]) == signed[k] {
      assert signed[k] in signed;
    }
    SplitJoin(signed, ';');
    forall i, j | 0 <= i < j < |signed| ensures signed[i] != signed[j] {
      LessTrichotomy(signed[i], signed[j]);
    }
  }

  lemma {:induction false} JoinClean(names: seq<string>)
    requires forall k :: 0 <= k < |names| ==> Clean(names[k])
    ensures Clean(Join(names, ';'))
  {
    if |names| > 1 {
      JoinClean(names[1..]);
    }
  }

  lemma SignedTextClean(names: seq<string>)
    requires forall n :: n in names ==> TokenName(n)
    ensures Clean(Join(SignedNames(names), ';'))
  {
    var signed := SignedNames(names);
    SignedNamesSorted(names);
    forall k | 0 <= k < |signed| ensures Clean(signed[k]) {
      assert signed[k] in signed;
      var n :| n in names && signed[k] == Lowercase(n);
      LowerKeeps(n);
    }
    JoinClean(signed);
  }

  // ---------------------------------------------------------------- dates

  predicate DateChar(c: char) {
    '0' <= c <= '9' || c == '+'
  }

  lemma {:induction false} ValueDigits(s: string)
    requires Value(s, 10).Some?
    ensures Digits(s)
  {
    if |s| > 0 {
      ValueDigits(s[..|s| - 1]);
    }
  }

  lemma NumberChars(s: string)
    requires ParseNumber(s).Some?
    ensures forall k :: 0 <= k < |s| ==> DateChar(s[k])
  {
    var digits := if |s| > 0 && s[0] == '+' then s[1..] else s;
    ValueDigits(digits);
    assert forall k :: 0 < k < |s| ==> s[k] == s[1..][k - 1];
  }

  lemma DateIsClean(amzDate: string)
    requires ParseAmzDate(amzDate).Some?
    ensures |Date8(amzDate)| == 8 && Clean(Date8(amzDate)) && '/' !in Date8(amzDate)
  {
    hide ParseNumber;
    NumberChars(amzDate[0..4]);
    NumberChars(amzDate[4..6]);
    NumberChars(amzDate[6..8]);
    var d := Date8(amzDate);
    assert d == amzDate[0..4] + amzDate[4..6] + amzDate[6..8];
  }

  lemma {:induction false} AllAmzSigned(headers: seq<Header>, names: seq<string>)
    ensures UnsignedAmz(headers, names).None?
            <==> forall h :: h in headers && "x-amz-" <= Lowercase(h.name) ==> Lowercase(h.name) in names
  {
    if |headers| > 0 {
      AllAmzSigned(headers[1..], names);
      assert headers == [headers[0]] + headers[1..];
    }
  }

  /** The header that is reported is the first x-amz header outside the signed names. */
  lemma {:induction false} FirstUnsigned(headers: seq<Header>, names: seq<string>)
    requires UnsignedAmz(headers, names).Some?
    ensures exists k :: 0 <= k < |headers| && UnsignedAt(headers, names, k) && UnsignedAmz(headers, names).value == Lowercase(headers[k].name)
                        && forall j :: 0 <= j < k ==> !UnsignedAt(headers, names, j)
  {
    hide Lowercase;
    if UnsignedAt(headers, names, 0) {
    } else {
      var rest := headers[1..];
      FirstUnsigned(rest, names);
      var k :| 0 <= k < |rest| && UnsignedAt(rest, names, k) && UnsignedAmz(rest, names).value == Lowercase(rest[k].name)
               && forall j :: 0 <= j < k ==> !UnsignedAt(rest, names, j);
      assert forall j :: 0 <= j < |rest| ==> UnsignedAt(headers, names, j + 1) == UnsignedAt(rest, names, j);
      assert UnsignedAt(headers, names, k + 1);
      forall j | 0 <= j < k + 1 ensures !UnsignedAt(headers, names, j) {
        assert j > 0 ==> UnsignedAt(headers, names, j - 1 + 1) == UnsignedAt(rest, names, j - 1);
      }
    }
  }

  predicate UnsignedAt(headers: seq<Header>, names: seq<string>, k: nat)
    requires k < |headers|
  {
    "x-amz-" <= Lowercase(headers[k].name) && Lowercase(headers[k].name) !in names
  }

  // ---------------------------------------------------------------- the signer is accepted

  lemma CredentialClean(accessKey: string, scope: Scope)
    requires Clean(accessKey) && Clean(scope.date8) && Clean(scope.region) && Clean(scope.service)
    ensures Clean(accessKey + ['/'] + ScopeText(scope))
  {
  }

  lemma HeaderSplits(credential: string, signedHeaders: string, signature: string)
    requires Clean(credential) && Clean(signedHeaders) && Clean(signature)
    ensures var fields := ["Credential=" + credential, " SignedHeaders=" + signedHeaders, " Signature=" + signature];
            Split(Join(fields, ','), ',') == fields
  {
    SplitJoin(["Credential=" + credential, " SignedHeaders=" + signedHeaders, " Signature=" + signature], ',');
  }

  /** What a signer must respect for its header to be accepted. */
  ghost predicate Signable(r: Request, names: seq<string>, accessKey: string, region: string, amzDate: string) {
    && Clean(accessKey) && '/' !in accessKey && Clean(region) && '/' !in region
    && (forall n :: n in names ==> TokenName(n)) && "host" in SignedNames(names)
    && (forall h :: h in r.headers && "x-amz-" <= Lowercase(h.name) ==> Lowercase(h.name) in SignedNames(names))
    && ValueOf(r.headers, "x-amz-date") == Some(amzDate) && ParseAmzDate(amzDate).Some?
  }

  /** The header that the signer builds passes every check on the request it was built for. */
  lemma SignedVerifies(sign: Signer, r: Request, names: seq<string>, client: Client, region: string, amzDate: string,
                       clients: seq<Client>, now: nat)
    requires HexSigner(sign) && Signable(r, names, client.accessKey, region, amzDate)
    requires Skew(now, ParseAmzDate(amzDate).value) <= MAX_SKEW
    requires ResolveClient(clients, client.accessKey) == Some(client)
    ensures var scope := Scope(Date8(amzDate), region, "s3");
            VerifyHeader(sign, r, AuthorizationHeader(sign, r, names, client.accessKey, client.secret, region, "s3", amzDate),
                         clients, now)
            == Ok(Identity(client.accessKey, client.backend,
                           sign(client.secret, scope, amzDate, CanonicalOf(r, SignedNames(names)))))
  {
    hide Join, Split, FieldsOf, ParseCredential, ScopeText, ValidateSignedHeaders, SignedNames, CanonicalOf, UnsignedAmz,
         ValueOf, ResolveClient, Skew, ParseAmzDate, Date8, TokenName;
    var scope := Scope(Date8(amzDate), region, "s3");
    var signed := SignedNames(names);
    var credential := client.accessKey + ['/'] + ScopeText(scope);
    var signature := sign(client.secret, scope, amzDate, CanonicalOf(r, signed));
    DateIsClean(amzDate);
    CredentialClean(client.accessKey, scope);
    SignedTextClean(names);
    HeaderSplits(credential, Join(signed, ';'), signature);
    FieldsParse(credential, Join(signed, ';'), signature);
    CredentialParses(client.accessKey, scope);
    SignedNamesParse(names);
    AllAmzSigned(r.headers, signed);
    var text := Join(["Credential=" + credential, " SignedHeaders=" + Join(signed, ';'), " Signature=" + signature], ',');
    assert (ALGORITHM + text)[|ALGORITHM|..] == text;
  }

  // ---------------------------------------------------------------- the request as it is sent

  /** The request with one more header at position `k`. */
  function With(r: Request, k: nat, h: Header): Request
    requires k <= |r.headers|
  {
    r.(headers := r.headers[..k] + [h] + r.headers[k..])
  }

  lemma {:induction false} ValuesAppend(a: seq<Header>, b: seq<Header>, name: string)
    ensures ValuesOf(a + b, name) == ValuesOf(a, name) + ValuesOf(b, name)
  {
    hide ValueIf;
    if |a| == 0 {
      assert a + b == b;
    } else {
      ValuesAppend(a[1..], b, name);
      assert (a + b)[1..] == a[1..] + b;
      Associate(ValueIf(a[0], name), ValuesOf(a[1..], name), ValuesOf(b, name));
    }
  }

  lemma ValuesWith(r: Request, k: nat, h: Header, name: string)
    requires k <= |r.headers| && Lowercase(h.name) != Lowercase(name)
    ensures ValuesOf(With(r, k, h).headers, name) == ValuesOf(r.headers, name)
  {
    hide ValuesOf, Lowercase;
    assert r.headers[..k] + r.headers[k..] == r.headers;
    ValuesSkip(r.headers[..k], h, r.headers[k..], name);
  }

  lemma ValuesSkip(a: seq<Header>, h: Header, b: seq<Header>, name: string)
    requires Lowercase(h.name) != Lowercase(name)
    ensures ValuesOf(a + [h] + b, name) == ValuesOf(a + b, name)
  {
    NoValue(h, name);
    hide ValuesOf, Lowercase;
    ValuesAppend(a + [h], b, name);
    ValuesAppend(a, [h], name);
    ValuesAppend(a, b, name);
  }

  lemma NoValue(h: Header, name: string)
    requires Lowercase(h.name) != Lowercase(name)
    ensures ValuesOf([h], name) == []
  {
  }

  lemma {:induction false} BlockWith(r: Request, k: nat, h: Header, names: seq<string>)
    requires k <= |r.headers| && forall n :: n in names ==> Lowercase(h.name) != Lowercase(n)
    ensures HeaderBlock(With(r, k, h).headers, names) == HeaderBlock(r.headers, names)
  {
    if |names| > 0 {
      ValuesWith(r, k, h, names[0]);
      BlockWith(r, k, h, names[1..]);
    }
  }

  lemma {:induction false} ValueAppend(a: seq<Header>, b: seq<Header>, name: string)
    ensures ValueOf(a + b, name) == if ValueOf(a, name).Some? then ValueOf(a, name) else ValueOf(b, name)
  {
    if |a| == 0 {
      assert a + b == b;
    } else {
      ValueAppend(a[1..], b, name);
      assert (a + b)[1..] == a[1..] + b;
    }
  }

  lemma ValueWith(r: Request, k: nat, h: Header, name: string)
    requires k <= |r.headers|
    ensures Lowercase(h.name) != Lowercase(name) ==> ValueOf(With(r, k, h).headers, name) == ValueOf(r.headers, name)
    ensures Lowercase(h.name) == Lowercase(name) && ValueOf(r.headers, name).None? ==>
              ValueOf(With(r, k, h).headers, name) == Some(h.value)
  {
    var a, b := r.headers[..k], r.headers[k..];
    ValueAppend(a + [h], b, name);
    ValueAppend(a, [h], name);
    ValueAppend(a, b, name);
    assert a + b == r.headers;
    assert ValueOf([h], name) == if Lowercase(h.name) == Lowercase(name) then Some(h.value) else None;
  }

  /** What a request signs is not changed by the header that carries the signature. */
  lemma SignableWith(r: Request, k: nat, h: Header, names: seq<string>, accessKey: string, region: string, amzDate: string)
    requires k <= |r.headers| && Lowercase(h.name) == "authorization"
    requires Signable(r, names, accessKey, region, amzDate) && "authorization" !in SignedNames(names)
    ensures Signable(With(r, k, h), names, accessKey, region, amzDate)
    ensures CanonicalOf(With(r, k, h), SignedNames(names)) == CanonicalOf(r, SignedNames(names))
  {
    hide HeaderBlock, ValueOf, ParseAmzDate, SignedNames, Clean, TokenName;
    var signed := SignedNames(names);
    SignedNamesSorted(names);
    forall m | m in signed ensures Lowercase(h.name) != Lowercase(m) {
      var n :| n in names && m == Lowercase(n);
      LowerKeeps(n);
    }
    BlockWith(r, k, h, signed);
    assert Lowercase("x-amz-date") == "x-amz-date";
    ValueWith(r, k, h, "x-amz-date");
    AuthIsNotAmz();
    var headers := With(r, k, h).headers;
    forall x | x in headers && "x-amz-" <= Lowercase(x.name) ensures Lowercase(x.name) in signed {
      assert x == h || x in r.headers;
    }
  }

  lemma AuthIsNotAmz()
    ensures !("x-amz-" <= "authorization") && "authorization" != "x-amz-date" && Lowercase("authorization") == "authorization"
  {
    assert "authorization"[0] != "x-amz-"[0];
    assert forall k :: 0 <= k < |"authorization"| ==> Lower("authorization"[k]) == "authorization"[k];
  }

  /** A request is accepted once the signer's header has been put anywhere among its own
      headers, in any spelling of its name. */
  lemma SignedIsAccepted(sign: Signer, r: Request, names: seq<string>, client: Client, region: string, amzDate: string,
                         k: nat, name: string, lossy: Lossy, clients: seq<Client>, now: nat)
    requires "X-Amz-Signature" !in QueryPairs(lossy, r.query)
    requires HexSigner(sign) && Signable(r, names, client.accessKey, region, amzDate)
    requires Skew(now, ParseAmzDate(amzDate).value) <= MAX_SKEW
    requires ResolveClient(clients, client.accessKey) == Some(client)
    requires k <= |r.headers| && Lowercase(name) == "authorization"
    requires ValueOf(r.headers, "authorization").None? && "authorization" !in SignedNames(names)
    ensures var auth := AuthorizationHeader(sign, r, names, client.accessKey, client.secret, region, "s3", amzDate);
            var sent := With(r, k, Header(name, auth));
            VerifyRequest(sign, lossy, sent, clients, now)
            == Ok(Identity(client.accessKey, client.backend,
                           sign(client.secret, Scope(Date8(amzDate), region, "s3"), amzDate, CanonicalOf(r, SignedNames(names)))))
  {
    hide VerifyHeader, Signable, CanonicalOf, SignedNames, ValueOf, Join, ScopeText, ParseAmzDate, ResolveClient, HexSigner, Date8, QueryPairs;
    var auth := AuthorizationHeader(sign, r, names, client.accessKey, client.secret, region, "s3", amzDate);
    var h := Header(name, auth);
    AuthIsNotAmz();
    ValueWith(r, k, h, "authorization");
    SignableWith(r, k, h, names, client.accessKey, region, amzDate);
    SignedVerifies(sign, With(r, k, h), names, client, region, amzDate, clients, now);
  }

  // ---------------------------------------------------------------- what an accepted header means

  /** The signature that a header carries and the names it says were signed. */
  ghost predicate Carries(auth: string, signature: string, names: seq<string>) {
    && ALGORITHM <= auth && FieldsOf(Split(auth[|ALGORITHM|..], ',')).Some?
    && var f := FieldsOf(Split(auth[|ALGORITHM|..], ',')).value;
    f.signature == Some(signature) && f.signedHeaders.Some? && ValidateSignedHeaders(f.signedHeaders.value) == Some(names)
  }

  datatype Signing = Signing(secret: string, scope: Scope, date: string, request: CanonicalRequest)

  function SignatureOf(sign: Signer, s: Signing): string {
    sign(s.secret, s.scope, s.date, s.request)
  }

  /** The signing that the verifier repeats for a header, if it gets that far. */
  ghost function Recomputed(r: Request, auth: string, clients: seq<Client>): set<Signing> {
    if !(ALGORITHM <= auth) then {}
    else
      match FieldsOf(Split(auth[|ALGORITHM|..], ','))
      case Some(Fields(Some(credentialText), Some(signedHeaders), _)) =>
        (match (ParseCredential(credentialText), ValidateSignedHeaders(signedHeaders), ValueOf(r.headers, "x-amz-date"))
         case (Some(credential), Some(names), Some(date)) =>
           (match ResolveClient(clients, credential.accessKey)
            case None => {}
            case Some(client) => {Signing(client.secret, credential.scope, date, CanonicalOf(r, names))})
         case _ => {})
      case _ => {}
  }

  /** An accepted header carries the signature, by the resolved client's secret, of this
      request's canonical form over the host and every x-amz header, within the skew. */
  lemma AcceptedIsSigned(sign: Signer, r: Request, auth: string, clients: seq<Client>, now: nat)
      returns (names: seq<string>, scope: Scope, client: Client, amzDate: string)
    requires VerifyHeader(sign, r, auth, clients, now).Ok?
    ensures var id := VerifyHeader(sign, r, auth, clients, now).value;
            && "host" in names && (forall h :: h in r.headers && "x-amz-" <= Lowercase(h.name) ==> Lowercase(h.name) in names)
            && ResolveClient(clients, id.accessKey) == Some(client) && id.backend == client.backend
            && scope.service == "s3" && scope.date8 == Date8(amzDate)
            && ValueOf(r.headers, "x-amz-date") == Some(amzDate) && ParseAmzDate(amzDate).Some?
            && Skew(now, ParseAmzDate(amzDate).value) <= MAX_SKEW
            && id.seed == sign(client.secret, scope, amzDate, CanonicalOf(r, names)) && Carries(auth, id.seed, names)
            && Recomputed(r, auth, clients) == {Signing(client.secret, scope, amzDate, CanonicalOf(r, names))}
  {
    hide Join, Split, FieldsOf, ParseCredential, CanonicalOf, UnsignedAmz, ValueOf, ResolveClient, Skew, ParseAmzDate, Date8;
    var fields := FieldsOf(Split(auth[|ALGORITHM|..], ',')).value;
    var credential := ParseCredential(fields.credential.value).value;
    names := ValidateSignedHeaders(fields.signedHeaders.value).value;
    scope := credential.scope;
    client := ResolveClient(clients, credential.accessKey).value;
    amzDate := ValueOf(r.headers, "x-amz-date").value;
    AllAmzSigned(r.headers, names);
  }

  /** The signing that the verifier repeats for a presigned query, if it gets that far. */
  ghost function RecomputedPresigned(lossy: Lossy, r: Request, clients: seq<Client>): set<Signing> {
    match ReadPresigned(QueryPairs(lossy, r.query))
    case Err(_) => {}
    case Ok(p) =>
      match (ValidateSignedHeaders(p.signedHeaders), ResolveClient(clients, p.credential.accessKey))
      case (Some(names), Some(client)) => {Signing(client.secret, p.credential.scope, p.date, PresignedOf(r, names))}
      case _ => {}
  }

  /** An accepted presigned request carries the signature, by the resolved client's secret,
      of its canonical form without that signature, over the host and every x-amz header; it
      is at most as old as it says, at most seven days, and not from the future. */
  lemma PresignedIsSigned(sign: Signer, lossy: Lossy, r: Request, clients: seq<Client>, now: nat)
      returns (names: seq<string>, p: Presigned, client: Client)
    requires VerifyPresigned(sign, lossy, r, clients, now).Ok?
    ensures var id := VerifyPresigned(sign, lossy, r, clients, now).value;
            && "host" in names && (forall h :: h in r.headers && "x-amz-" <= Lowercase(h.name) ==> Lowercase(h.name) in names)
            && ResolveClient(clients, id.accessKey) == Some(client) && id.backend == client.backend
            && id.seed == sign(client.secret, p.credential.scope, p.date, PresignedOf(r, names))
            && QueryValue(QueryPairs(lossy, r.query), "X-Amz-Signature") == Some(id.seed)
            && QueryValue(QueryPairs(lossy, r.query), "X-Amz-Date") == Some(p.date) && ParseAmzDate(p.date).Some?
            && ValidateSignedHeaders(p.signedHeaders) == Some(names) && 1 <= p.expires <= MAX_EXPIRES
            && var signedAt := ParseAmzDate(p.date).value; signedAt <= now + MAX_SKEW && now <= signedAt + p.expires
    ensures RecomputedPresigned(lossy, r, clients) == {Signing(client.secret, p.credential.scope, p.date, PresignedOf(r, names))}
  {
    hide Join, Split, ParseCredential, PresignedOf, UnsignedAmz, ResolveClient, ParseAmzDate, Date8, QueryPairs, ParseUnsigned;
    p := ReadPresigned(QueryPairs(lossy, r.query)).value;
    names := ValidateSignedHeaders(p.signedHeaders).value;
    client := ResolveClient(clients, p.credential.accessKey).value;
    AllAmzSigned(r.headers, names);
  }
}
