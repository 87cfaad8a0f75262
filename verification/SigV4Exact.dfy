/** Which requests are accepted: exactly those that carry, in their header or in their
    query, a timely signature by a known client over the right names. */
module SigV4Exact {
  import opened Bytes
  import opened Text
  import opened Numerals
  import opened AmzDate
  import opened SigV4
  import CanonicalQuery

  // ---------------------------------------------------------------- credentials and names

  function CredentialText(c: Credential): string {
    c.accessKey + ['/'] + ScopeText(c.scope)
  }

  predicate NoSlashes(c: Credential) {
    '/' !in c.accessKey && '/' !in c.scope.date8 && '/' !in c.scope.region && '/' !in c.scope.service
  }

  lemma CredentialExact(s: string, c: Credential)
    ensures ParseCredential(s) == Some(c) <==> s == CredentialText(c) && NoSlashes(c)
  {
    hide SplitOnce;
    if ParseCredential(s) == Some(c) {
      SplitIs(s, '/');
      var s1 := SplitOnce(s, '/').value.1;
      SplitIs(s1, '/');
      var s2 := SplitOnce(s1, '/').value.1;
      SplitIs(s2, '/');
      SplitIs(SplitOnce(s2, '/').value.1, '/');
    }
    if s == CredentialText(c) && NoSlashes(c) {
      CredentialParses(c.accessKey, c.scope);
    }
  }

  /** With the host, lowercase, non-empty and without repetition. */
  predicate GoodNames(names: seq<string>) {
    && "host" in names && (forall k :: 0 <= k < |names| ==> names[k] != "" && Lowercase(names[k]) == names[k] && ';' !in names[k])
    && forall i, j :: 0 <= i < j < |names| ==> names[i] != names[j]
  }

  lemma NamesExact(raw: string, names: seq<string>)
    ensures ValidateSignedHeaders(raw) == Some(names) <==> raw == Join(names, ';') && GoodNames(names)
  {
    hide Split, Join, Lowercase;
    JoinSplit(raw, ';');
    if raw == Join(names, ';') && GoodNames(names) {
      SplitJoin(names, ';');
    }
  }

  /** The first client with that key. */
  lemma {:induction false} ResolveExact(clients: seq<Client>, accessKey: string, client: Client)
    ensures ResolveClient(clients, accessKey) == Some(client)
            <==> exists k :: 0 <= k < |clients| && clients[k] == client && client.accessKey == accessKey
                             && forall j :: 0 <= j < k ==> clients[j].accessKey != accessKey
  {
    if |clients| > 0 {
      ResolveExact(clients[1..], accessKey, client);
      if clients[0].accessKey != accessKey {
        assert forall k :: 0 < k < |clients| ==> clients[k] == clients[1..][k - 1];
        forall k | 0 <= k < |clients| - 1 && clients[1..][k] == client && client.accessKey == accessKey
                   && forall j :: 0 <= j < k ==> clients[1..][j].accessKey != accessKey
          ensures clients[k + 1] == client && forall j :: 0 <= j < k + 1 ==> clients[j].accessKey != accessKey
        {
        }
        forall k | 0 < k < |clients| && clients[k] == client && client.accessKey == accessKey
                   && forall j :: 0 <= j < k ==> clients[j].accessKey != accessKey
          ensures clients[1..][k - 1] == client && forall j :: 0 <= j < k - 1 ==> clients[1..][j].accessKey != accessKey
        {
          assert forall j :: 0 <= j < k - 1 ==> clients[1..][j] == clients[j + 1];
        }
      }
    }
  }

  /** The value of the first header of that name, in any spelling. */
  lemma {:induction false} ValueExact(headers: seq<Header>, name: string)
    ensures match ValueOf(headers, name)
            case None => forall h :: h in headers ==> Lowercase(h.name) != Lowercase(name)
            case Some(v) => exists k :: 0 <= k < |headers| && Lowercase(headers[k].name) == Lowercase(name) && headers[k].value == v
                                        && forall j :: 0 <= j < k ==> Lowercase(headers[j].name) != Lowercase(name)
  {
    hide Lowercase;
    if |headers| > 0 && Lowercase(headers[0].name) != Lowercase(name) {
      ValueExact(headers[1..], name);
      assert headers == [headers[0]] + headers[1..];
      if ValueOf(headers, name).Some? {
        var rest := headers[1..];
        var k :| 0 <= k < |rest| && Lowercase(rest[k].name) == Lowercase(name) && rest[k].value == ValueOf(headers, name).value
                 && forall j :: 0 <= j < k ==> Lowercase(rest[j].name) != Lowercase(name);
        assert headers[k + 1] == rest[k] && forall j :: 0 < j < k + 1 ==> headers[j] == rest[j - 1];
      }
    }
  }

  // ---------------------------------------------------------------- what a request has to carry

  /** Who signed, over which headers, and the signature. */
  datatype Ticket = Ticket(credential: Credential, names: seq<string>, signature: string)

  ghost predicate WellFormed(r: Request, t: Ticket) {
    && NoSlashes(t.credential) && t.credential.scope.service == "s3" && GoodNames(t.names)
    && forall h :: h in r.headers && "x-amz-" <= Lowercase(h.name) ==> Lowercase(h.name) in t.names
  }

  /** The ticket is signed by a known client for that day. */
  ghost predicate SignedBy(sign: Signer, t: Ticket, client: Client, clients: seq<Client>, date: string, q: CanonicalRequest) {
    && ResolveClient(clients, t.credential.accessKey) == Some(client) && Date8(date) == t.credential.scope.date8
    && t.signature == sign(client.secret, t.credential.scope, date, q)
  }

  function IdentityOf(t: Ticket, client: Client): Identity {
    Identity(t.credential.accessKey, client.backend, t.signature)
  }

  // ---------------------------------------------------------------- in the header

  ghost predicate InHeader(auth: string, t: Ticket) {
    && ALGORITHM <= auth
    && var fields := Split(auth[|ALGORITHM|..], ',');
    && (forall k :: 0 <= k < |fields| ==> '=' in fields[k])
    && LastValues(fields, Fields(Some(CredentialText(t.credential)), Some(Join(t.names, ';')), Some(t.signature)))
  }

  /** The signature was made at most fifteen minutes from now. */
  predicate Recent(date: string, now: nat) {
    ParseAmzDate(date).Some? && var signedAt := ParseAmzDate(date).value; signedAt <= now + MAX_SKEW && now <= signedAt + MAX_SKEW
  }

  ghost predicate HeaderAccepts(sign: Signer, r: Request, auth: string, t: Ticket, client: Client, clients: seq<Client>, now: nat) {
    && InHeader(auth, t) && WellFormed(r, t)
    && var date := ValueOf(r.headers, "x-amz-date");
    date.Some? && Recent(date.value, now) && SignedBy(sign, t, client, clients, date.value, CanonicalOf(r, t.names))
  }

  lemma LastValueUnique(fields: seq<string>, name: string, v: Option<string>, v': Option<string>)
    requires LastValue(fields, name, v) && LastValue(fields, name, v')
    ensures v == v'
  {
    hide Names, GivenValue;
  }

  lemma LastValuesUnique(fields: seq<string>, f: Fields, f': Fields)
    requires LastValues(fields, f) && LastValues(fields, f')
    ensures f == f'
  {
    LastValueUnique(fields, "Credential", f.credential, f'.credential);
    LastValueUnique(fields, "SignedHeaders", f.signedHeaders, f'.signedHeaders);
    LastValueUnique(fields, "Signature", f.signature, f'.signature);
  }

  lemma InHeaderParses(auth: string, t: Ticket)
    requires InHeader(auth, t)
    ensures FieldsOf(Split(auth[|ALGORITHM|..], ','))
            == Some(Fields(Some(CredentialText(t.credential)), Some(Join(t.names, ';')), Some(t.signature)))
  {
    hide LastValues, FieldsOf, CredentialText, Join, Split;
    var fields := Split(auth[|ALGORITHM|..], ',');
    FieldsOfExact(fields);
    LastValuesUnique(fields, FieldsOf(fields).value, Fields(Some(CredentialText(t.credential)), Some(Join(t.names, ';')), Some(t.signature)));
  }

  lemma HeaderIsAccepted(sign: Signer, r: Request, auth: string, t: Ticket, client: Client, clients: seq<Client>, now: nat)
    requires HeaderAccepts(sign, r, auth, t, client, clients, now)
    ensures VerifyHeader(sign, r, auth, clients, now) == Ok(IdentityOf(t, client))
  {
    hide FieldsOf, ParseCredential, ValidateSignedHeaders, CredentialText, Join, Split, InHeader, UnsignedAmz, ValueOf, ResolveClient,
         ParseAmzDate, Date8, CanonicalOf, GoodNames, NoSlashes;
    assert ALGORITHM <= auth by { PrefixOf(auth, t); }
    InHeaderParses(auth, t);
    CredentialExact(CredentialText(t.credential), t.credential);
    NamesExact(Join(t.names, ';'), t.names);
    AllAmzSigned(r.headers, t.names);
  }

  lemma PrefixOf(auth: string, t: Ticket)
    requires InHeader(auth, t)
    ensures ALGORITHM <= auth
  {
  }

  lemma HeaderWasAccepted(sign: Signer, r: Request, auth: string, clients: seq<Client>, now: nat) returns (t: Ticket, client: Client)
    requires VerifyHeader(sign, r, auth, clients, now).Ok?
    ensures HeaderAccepts(sign, r, auth, t, client, clients, now)
  {
    hide FieldsOf, ParseCredential, ValidateSignedHeaders, CredentialText, Join, Split, LastValues, UnsignedAmz, ValueOf, ResolveClient,
         ParseAmzDate, Date8, CanonicalOf, GoodNames, NoSlashes;
    var fields := Split(auth[|ALGORITHM|..], ',');
    FieldsOfExact(fields);
    var f := FieldsOf(fields).value;
    var credential, names := ParseCredential(f.credential.value).value, ValidateSignedHeaders(f.signedHeaders.value).value;
    CredentialExact(f.credential.value, credential);
    NamesExact(f.signedHeaders.value, names);
    AllAmzSigned(r.headers, names);
    t := Ticket(credential, names, f.signature.value);
    client := ResolveClient(clients, credential.accessKey).value;
  }

  /** A header is accepted exactly when its fields name a client, the host and every x-amz
      header, and carry that client's signature of this request, made on the day it says and
      at most fifteen minutes from now. */
  lemma HeaderExact(sign: Signer, r: Request, auth: string, clients: seq<Client>, now: nat, id: Identity)
    ensures VerifyHeader(sign, r, auth, clients, now) == Ok(id)
            <==> exists t, client :: HeaderAccepts(sign, r, auth, t, client, clients, now) && id == IdentityOf(t, client)
  {
    hide VerifyHeader, HeaderAccepts;
    if VerifyHeader(sign, r, auth, clients, now) == Ok(id) {
      var t, client := HeaderWasAccepted(sign, r, auth, clients, now);
      HeaderIsAccepted(sign, r, auth, t, client, clients, now);
    }
    forall t, client | HeaderAccepts(sign, r, auth, t, client, clients, now)
      ensures VerifyHeader(sign, r, auth, clients, now) == Ok(IdentityOf(t, client))
    {
      HeaderIsAccepted(sign, r, auth, t, client, clients, now);
    }
  }

  // ---------------------------------------------------------------- in the query

  /** Piece `k` of a query is a pair of that name. */
  predicate NamesPair(lossy: Lossy, piece: Bytes, name: string) {
    piece != [] && lossy(CanonicalQuery.DecodeParam(piece).name) == name
  }

  function PairValue(lossy: Lossy, piece: Bytes): string {
    lossy(CanonicalQuery.DecodeParam(piece).value)
  }

  /** The value of the last pair of that name, if there is one. */
  ghost predicate LastPair(lossy: Lossy, pieces: seq<Bytes>, name: string, v: Option<string>) {
    match v
    case None => forall k :: 0 <= k < |pieces| ==> !NamesPair(lossy, pieces[k], name)
    case Some(value) =>
      exists k :: 0 <= k < |pieces| && NamesPair(lossy, pieces[k], name) && PairValue(lossy, pieces[k]) == value
                  && forall j :: k < j < |pieces| ==> !NamesPair(lossy, pieces[j], name)
  }

  lemma LastPairStep(lossy: Lossy, pieces: seq<Bytes>, name: string, v: Option<string>)
    requires |pieces| > 0 && LastPair(lossy, pieces[..|pieces| - 1], name, v)
    ensures var last := pieces[|pieces| - 1];
            LastPair(lossy, pieces, name, if NamesPair(lossy, last, name) then Some(PairValue(lossy, last)) else v)
  {
    hide PairValue, NamesPair;
    var n := |pieces| - 1;
    if !NamesPair(lossy, pieces[n], name) && v.Some? {
      var front := pieces[..n];
      var k :| 0 <= k < |front| && NamesPair(lossy, front[k], name) && PairValue(lossy, front[k]) == v.value
               && forall j :: k < j < |front| ==> !NamesPair(lossy, front[j], name);
      assert pieces[k] == front[k] && forall j :: k < j < n ==> pieces[j] == front[j];
    }
  }

  lemma {:induction false} LastPairIs(lossy: Lossy, pieces: seq<Bytes>, name: string)
    ensures LastPair(lossy, pieces, name, QueryValue(PairsOf(lossy, pieces), name))
  {
    hide CanonicalQuery.DecodeParam, LastPair;
    if |pieces| == 0 {
      NoPairs(lossy, pieces, name);
    } else {
      LastPairIs(lossy, pieces[..|pieces| - 1], name);
      LastPairStep(lossy, pieces, name, QueryValue(PairsOf(lossy, pieces[..|pieces| - 1]), name));
    }
  }

  lemma NoPairs(lossy: Lossy, pieces: seq<Bytes>, name: string)
    requires |pieces| == 0
    ensures LastPair(lossy, pieces, name, None)
  {
  }

  /** The pairs of a query hold exactly the last value given for each name. */
  lemma PairsExact(lossy: Lossy, query: Bytes, name: string, v: Option<string>)
    ensures QueryValue(QueryPairs(lossy, query), name) == v <==> LastPair(lossy, Split(query, CanonicalQuery.AMP), name, v)
  {
    hide Split, NamesPair, CanonicalQuery.DecodeParam, PairsOf;
    LastPairIs(lossy, Split(query, CanonicalQuery.AMP), name);
  }

  /** A query that says who signed, when, for how long, and over what. */
  ghost predicate InQuery(pairs: map<string, string>, t: Ticket, date: string, expires: nat) {
    && QueryValue(pairs, "X-Amz-Algorithm") == Some("AWS4-HMAC-SHA256")
    && QueryValue(pairs, "X-Amz-Credential") == Some(CredentialText(t.credential))
    && QueryValue(pairs, "X-Amz-Date") == Some(date)
    && QueryValue(pairs, "X-Amz-SignedHeaders") == Some(Join(t.names, ';'))
    && QueryValue(pairs, "X-Amz-Signature") == Some(t.signature)
    && "X-Amz-Expires" in pairs && Denotes(pairs["X-Amz-Expires"], 10, expires)
  }

  /** Not from the future, but for the skew, and not older than it may become. */
  predicate Valid(date: string, expires: nat, now: nat) {
    && 1 <= expires <= MAX_EXPIRES && ParseAmzDate(date).Some?
    && var signedAt := ParseAmzDate(date).value; signedAt <= now + MAX_SKEW && now <= signedAt + expires
  }

  ghost predicate QueryAccepts(sign: Signer, lossy: Lossy, r: Request, t: Ticket, date: string, expires: nat,
                               client: Client, clients: seq<Client>, now: nat) {
    && InQuery(QueryPairs(lossy, r.query), t, date, expires) && WellFormed(r, t) && Valid(date, expires, now)
    && SignedBy(sign, t, client, clients, date, PresignedOf(r, t.names))
  }

  lemma AgeExact(now: nat, signedAt: nat, expires: nat)
    ensures CheckAge(now, signedAt, expires).Ok? <==> signedAt <= now + MAX_SKEW && now <= signedAt + expires
    ensures CheckAge(now, signedAt, expires) == Err(ClockSkew) <==> signedAt > now + MAX_SKEW
    ensures CheckAge(now, signedAt, expires) == Err(Expired) <==> now > signedAt + expires
  {
  }

  lemma QueryIsAccepted(sign: Signer, lossy: Lossy, r: Request, t: Ticket, date: string, expires: nat,
                        client: Client, clients: seq<Client>, now: nat)
    requires QueryAccepts(sign, lossy, r, t, date, expires, client, clients, now)
    ensures VerifyPresigned(sign, lossy, r, clients, now) == Ok(IdentityOf(t, client))
  {
    hide QueryPairs, ParseCredential, ValidateSignedHeaders, CredentialText, Join, UnsignedAmz, ResolveClient, ParseAmzDate, Date8,
         PresignedOf, GoodNames, NoSlashes, ParseUnsigned, Denotes, CheckAge;
    var pairs := QueryPairs(lossy, r.query);
    CredentialExact(CredentialText(t.credential), t.credential);
    NamesExact(Join(t.names, ';'), t.names);
    ParseExact(pairs["X-Amz-Expires"], 10, TWO_64, expires);
    AllAmzSigned(r.headers, t.names);
    AgeExact(now, ParseAmzDate(date).value, expires);
  }

  lemma QueryWasAccepted(sign: Signer, lossy: Lossy, r: Request, clients: seq<Client>, now: nat)
      returns (t: Ticket, date: string, expires: nat, client: Client)
    requires VerifyPresigned(sign, lossy, r, clients, now).Ok?
    ensures QueryAccepts(sign, lossy, r, t, date, expires, client, clients, now)
  {
    hide QueryPairs, ParseCredential, ValidateSignedHeaders, CredentialText, Join, UnsignedAmz, ResolveClient, ParseAmzDate, Date8,
         PresignedOf, GoodNames, NoSlashes, ParseUnsigned, Denotes, CheckAge;
    var pairs := QueryPairs(lossy, r.query);
    var p := ReadPresigned(pairs).value;
    var names := ValidateSignedHeaders(p.signedHeaders).value;
    CredentialExact(pairs["X-Amz-Credential"], p.credential);
    NamesExact(p.signedHeaders, names);
    ParseExact(pairs["X-Amz-Expires"], 10, TWO_64, p.expires);
    AllAmzSigned(r.headers, names);
    AgeExact(now, ParseAmzDate(p.date).value, p.expires);
    t, date, expires := Ticket(p.credential, names, p.signature), p.date, p.expires;
    client := ResolveClient(clients, p.credential.accessKey).value;
  }

  /** A presigned request is accepted exactly when its query names a client, the host and
      every x-amz header, and carries that client's signature of the request without it, made
      on the day it says, at most fifteen minutes ahead of now and not longer ago than the
      lifetime of one second to seven days that it gives. */
  lemma PresignedExact(sign: Signer, lossy: Lossy, r: Request, clients: seq<Client>, now: nat, id: Identity)
    ensures VerifyPresigned(sign, lossy, r, clients, now) == Ok(id)
            <==> exists t, date, expires, client ::
                   QueryAccepts(sign, lossy, r, t, date, expires, client, clients, now) && id == IdentityOf(t, client)
  {
    hide VerifyPresigned, QueryAccepts;
    if VerifyPresigned(sign, lossy, r, clients, now) == Ok(id) {
      var t, date, expires, client := QueryWasAccepted(sign, lossy, r, clients, now);
      QueryIsAccepted(sign, lossy, r, t, date, expires, client, clients, now);
    }
    forall t, date, expires: nat, client | QueryAccepts(sign, lossy, r, t, date, expires, client, clients, now)
      ensures VerifyPresigned(sign, lossy, r, clients, now) == Ok(IdentityOf(t, client))
    {
      QueryIsAccepted(sign, lossy, r, t, date, expires, client, clients, now);
    }
  }

  // ---------------------------------------------------------------- why a request is refused

  /** The error of the first check that fails, if one does. */
  function FirstFailed(checks: seq<(bool, VerifyError)>): Option<VerifyError> {
    if |checks| == 0 then None
    else if !checks[0].0 then Some(checks[0].1)
    else FirstFailed(checks[1..])
  }

  /** The headers are all signed, or the first one that is not. */
  function AmzError(headers: seq<Header>, names: seq<string>): VerifyError {
    UnsignedAmzHeader(match UnsignedAmz(headers, names) case Some(name) => name case None => "")
  }

  predicate Now(date: Option<string>, now: nat) {
    date.Some? && Recent(date.value, now)
  }

  /** What is checked of a header's ticket, in order, and what each failure is called. */
  function HeaderChecks(sign: Signer, r: Request, t: Ticket, clients: seq<Client>, now: nat): seq<(bool, VerifyError)> {
    var date, client := ValueOf(r.headers, "x-amz-date"), ResolveClient(clients, t.credential.accessKey);
    [(UnsignedAmz(r.headers, t.names).None?, AmzError(r.headers, t.names)),
     (t.credential.scope.service == "s3", BadScope),
     (date.Some? && ParseAmzDate(date.value).Some?, MissingDate),
     (date.Some? && Date8(date.value) == t.credential.scope.date8, DateMismatch),
     (Now(date, now), ClockSkew),
     (client.Some?, UnknownAccessKey),
     (date.Some? && client.Some? && sign(client.value.secret, t.credential.scope, date.value, CanonicalOf(r, t.names)) == t.signature, BadSignature)]
  }

  lemma SkewIsRecent(now: nat, signedAt: nat)
    ensures Skew(now, signedAt) <= MAX_SKEW <==> signedAt <= now + MAX_SKEW && now <= signedAt + MAX_SKEW
  {
  }

  /** A header that carries a ticket gets the error of the first check that fails. */
  lemma HeaderVerdict(sign: Signer, r: Request, auth: string, t: Ticket, clients: seq<Client>, now: nat)
    requires InHeader(auth, t) && NoSlashes(t.credential) && GoodNames(t.names)
    ensures var failed := FirstFailed(HeaderChecks(sign, r, t, clients, now));
            match VerifyHeader(sign, r, auth, clients, now)
            case Err(e) => failed == Some(e)
            case Ok(_) => failed == None
  {
    hide FieldsOf, ParseCredential, ValidateSignedHeaders, CredentialText, Join, Split, InHeader, UnsignedAmz, ValueOf, ResolveClient,
         ParseAmzDate, Date8, CanonicalOf, GoodNames, NoSlashes, Skew, FirstFailed;
    assert ALGORITHM <= auth by { PrefixOf(auth, t); }
    InHeaderParses(auth, t);
    CredentialExact(CredentialText(t.credential), t.credential);
    NamesExact(Join(t.names, ';'), t.names);
    var date := ValueOf(r.headers, "x-amz-date");
    if date.Some? && ParseAmzDate(date.value).Some? {
      SkewIsRecent(now, ParseAmzDate(date.value).value);
    }
    SevenChecks(HeaderChecks(sign, r, t, clients, now));
  }

  lemma SevenChecks(checks: seq<(bool, VerifyError)>)
    requires |checks| == 7
    ensures FirstFailed(checks)
            == if !checks[0].0 then Some(checks[0].1) else if !checks[1].0 then Some(checks[1].1) else if !checks[2].0 then Some(checks[2].1)
               else if !checks[3].0 then Some(checks[3].1) else if !checks[4].0 then Some(checks[4].1)
               else if !checks[5].0 then Some(checks[5].1) else if !checks[6].0 then Some(checks[6].1) else None
  {
    hide FirstFailed;
    FirstOrRest(checks);
    FirstOrRest(checks[1..]);
    FirstOrRest(checks[2..]);
    FirstOrRest(checks[3..]);
    FirstOrRest(checks[4..]);
    FirstOrRest(checks[5..]);
    FirstOrRest(checks[6..]);
    NoChecks(checks[7..]);
    assert forall i :: 0 <= i < 7 ==> checks[i..][1..] == checks[i + 1..];
  }

  lemma FirstOrRest(checks: seq<(bool, VerifyError)>)
    requires |checks| > 0
    ensures FirstFailed(checks) == if !checks[0].0 then Some(checks[0].1) else FirstFailed(checks[1..])
  {
  }

  lemma NoChecks(checks: seq<(bool, VerifyError)>)
    requires |checks| == 0
    ensures FirstFailed(checks) == None
  {
  }

  /** What is checked of a presigned query's ticket, in order. */
  function QueryChecks(sign: Signer, r: Request, t: Ticket, date: string, expires: nat, clients: seq<Client>, now: nat): seq<(bool, VerifyError)> {
    var signedAt, client := ParseAmzDate(date), ResolveClient(clients, t.credential.accessKey);
    [(UnsignedAmz(r.headers, t.names).None?, AmzError(r.headers, t.names)),
     (t.credential.scope.service == "s3", BadScope),
     (signedAt.Some?, MalformedPresignedQuery),
     (Date8(date) == t.credential.scope.date8, DateMismatch),
     (signedAt.Some? && signedAt.value <= now + MAX_SKEW && now <= signedAt.value + expires,
      if signedAt.Some? && signedAt.value > now + MAX_SKEW then ClockSkew else Expired),
     (client.Some?, UnknownAccessKey),
     (client.Some? && sign(client.value.secret, t.credential.scope, date, PresignedOf(r, t.names)) == t.signature, BadSignature)]
  }

  /** A presigned query that carries a ticket gets the error of the first check that fails. */
  lemma QueryVerdict(sign: Signer, lossy: Lossy, r: Request, t: Ticket, date: string, expires: nat, clients: seq<Client>, now: nat)
    requires InQuery(QueryPairs(lossy, r.query), t, date, expires) && NoSlashes(t.credential) && GoodNames(t.names)
    requires 1 <= expires <= MAX_EXPIRES
    ensures var failed := FirstFailed(QueryChecks(sign, r, t, date, expires, clients, now));
            match VerifyPresigned(sign, lossy, r, clients, now)
            case Err(e) => failed == Some(e)
            case Ok(_) => failed == None
  {
    hide QueryPairs, ParseCredential, ValidateSignedHeaders, CredentialText, Join, UnsignedAmz, ResolveClient, ParseAmzDate, Date8,
         PresignedOf, GoodNames, NoSlashes, ParseUnsigned, Denotes, CheckAge, FirstFailed;
    var pairs := QueryPairs(lossy, r.query);
    CredentialExact(CredentialText(t.credential), t.credential);
    NamesExact(Join(t.names, ';'), t.names);
    ParseExact(pairs["X-Amz-Expires"], 10, TWO_64, expires);
    if ParseAmzDate(date).Some? {
      AgeExact(now, ParseAmzDate(date).value, expires);
    }
    SevenChecks(QueryChecks(sign, r, t, date, expires, clients, now));
  }

  /** Without a ticket to check: a header that lacks its algorithm, an equals sign or one of
      its three fields, or whose credential is none, is malformed; names that are no good are
      told apart from that. */
  lemma HeaderMalformed(sign: Signer, r: Request, auth: string, clients: seq<Client>, now: nat)
    ensures var fields := if ALGORITHM <= auth then FieldsOf(Split(auth[|ALGORITHM|..], ',')) else None;
            var complete := fields.Some? && fields.value.credential.Some? && fields.value.signedHeaders.Some? && fields.value.signature.Some?
                            && exists c :: NoSlashes(c) && fields.value.credential.value == CredentialText(c);
            var named := complete && exists names :: GoodNames(names) && fields.value.signedHeaders.value == Join(names, ';');
            && (!complete ==> VerifyHeader(sign, r, auth, clients, now) == Err(MalformedAuthHeader))
            && (complete && !named ==> VerifyHeader(sign, r, auth, clients, now) == Err(BadSignedHeaders))
  {
    hide FieldsOf, ParseCredential, ValidateSignedHeaders, CredentialText, Join, Split, CheckRequest, GoodNames, NoSlashes;
    if ALGORITHM <= auth {
      var fields := FieldsOf(Split(auth[|ALGORITHM|..], ','));
      if fields.Some? && fields.value.credential.Some? && fields.value.signedHeaders.Some? && fields.value.signature.Some? {
        var text, raw := fields.value.credential.value, fields.value.signedHeaders.value;
        forall c ensures ParseCredential(text) == Some(c) <==> text == CredentialText(c) && NoSlashes(c) {
          CredentialExact(text, c);
        }
        forall names ensures ValidateSignedHeaders(raw) == Some(names) <==> raw == Join(names, ';') && GoodNames(names) {
          NamesExact(raw, names);
        }
      }
    }
  }

  // ---------------------------------------------------------------- presigned URLs

  ghost predicate ReadsAscii(lossy: Lossy) {
    forall s :: IsAscii(s) ==> lossy(Ascii(s)) == s
  }

  predicate AsciiPair(pair: (string, string)) {
    IsAscii(pair.0) && IsAscii(pair.1)
  }

  function PieceOf(pair: (string, string)): Bytes
    requires AsciiPair(pair)
  {
    CanonicalQuery.PrintParam(CanonicalQuery.EncodeParam(CanonicalQuery.Param(Ascii(pair.0), Ascii(pair.1))))
  }

  /** What a presigned URL says about itself, but for the signature. */
  function Statements(t: Ticket, date: string, expires: string): seq<(string, string)> {
    [("X-Amz-Algorithm", "AWS4-HMAC-SHA256"), ("X-Amz-Credential", CredentialText(t.credential)), ("X-Amz-Date", date),
     ("X-Amz-Expires", expires), ("X-Amz-SignedHeaders", Join(t.names, ';'))]
  }

  function Signed(t: Ticket, date: string, expires: string): seq<(string, string)> {
    Statements(t, date, expires) + [("X-Amz-Signature", t.signature)]
  }

  predicate AllAscii(pairs: seq<(string, string)>) {
    forall k :: 0 <= k < |pairs| ==> AsciiPair(pairs[k])
  }

  function Pieces(pairs: seq<(string, string)>): seq<Bytes>
    requires AllAscii(pairs)
  {
    seq(|pairs|, k requires 0 <= k < |pairs| && AsciiPair(pairs[k]) => PieceOf(pairs[k]))
  }

  predicate Distinct(pairs: seq<(string, string)>) {
    forall i, j :: 0 <= i < j < |pairs| ==> pairs[i].0 != pairs[j].0
  }

  /** The query consists of these pieces, in any order. */
  predicate Arranges(query: Bytes, pieces: seq<Bytes>) {
    multiset(Split(query, CanonicalQuery.AMP)) == multiset(pieces)
  }

  /** The other parameters of the request do not interfere. */
  predicate Others(lossy: Lossy, own: seq<Bytes>, pairs: seq<(string, string)>) {
    forall p, k :: p in own && 0 <= k < |pairs| ==> !NamesPair(lossy, p, pairs[k].0)
  }

  lemma PieceSays(lossy: Lossy, pair: (string, string))
    requires ReadsAscii(lossy) && AsciiPair(pair)
    ensures NamesPair(lossy, PieceOf(pair), pair.0) && PairValue(lossy, PieceOf(pair)) == pair.1
    ensures CanonicalQuery.DecodeParam(PieceOf(pair)).name == Ascii(pair.0) && PieceOf(pair) != []
    ensures forall name :: NamesPair(lossy, PieceOf(pair), name) ==> name == pair.0
  {
    CanonicalQuery.ReadsPrinted(CanonicalQuery.Param(Ascii(pair.0), Ascii(pair.1)));
  }

  lemma PieceIn(x: Bytes, query: Bytes, pieces: seq<Bytes>)
    requires Arranges(query, pieces)
    ensures x in Split(query, CanonicalQuery.AMP) <==> x in pieces
  {
    assert x in Split(query, CanonicalQuery.AMP) <==> x in multiset(Split(query, CanonicalQuery.AMP));
    assert x in pieces <==> x in multiset(pieces);
  }

  /** The pairs of the query hold each statement. */
  lemma SaysPair(lossy: Lossy, query: Bytes, own: seq<Bytes>, pairs: seq<(string, string)>, k: nat)
    requires ReadsAscii(lossy) && AllAscii(pairs) && Distinct(pairs) && Others(lossy, own, pairs) && k < |pairs|
    requires Arranges(query, own + Pieces(pairs))
    ensures QueryValue(QueryPairs(lossy, query), pairs[k].0) == Some(pairs[k].1)
  {
    hide Split, CanonicalQuery.DecodeParam, NamesPair, PieceOf, ReadsAscii, PairsOf, Arranges;
    var name, all, pieces := pairs[k].0, own + Pieces(pairs), Split(query, CanonicalQuery.AMP);
    forall x | x in pieces && NamesPair(lossy, x, name) ensures PairValue(lossy, x) == pairs[k].1 {
      PieceIn(x, query, all);
      var j :| 0 <= j < |all| && all[j] == x;
      assert j < |own| ==> x in own;
      PieceSays(lossy, pairs[j - |own|]);
    }
    var mine := PieceOf(pairs[k]);
    PieceSays(lossy, pairs[k]);
    assert all[|own| + k] == mine;
    PieceIn(mine, query, all);
    LastPairIs(lossy, pieces, name);
  }

  lemma StatementNames(t: Ticket, date: string, expires: string)
    ensures Distinct(Signed(t, date, expires))
  {
    assert "X-Amz-Algorithm"[6] != "X-Amz-Signature"[6];
  }

  /** A URL that was printed for a ticket says so. */
  lemma PrintedInQuery(lossy: Lossy, query: Bytes, own: seq<Bytes>, t: Ticket, date: string, expires: string, e: nat)
    requires ReadsAscii(lossy) && AllAscii(Signed(t, date, expires)) && Others(lossy, own, Signed(t, date, expires))
    requires Arranges(query, own + Pieces(Signed(t, date, expires))) && Denotes(expires, 10, e)
    ensures InQuery(QueryPairs(lossy, query), t, date, e)
  {
    hide QueryPairs, Arranges, CredentialText, Join, ReadsAscii, Denotes, Others, AllAscii, Distinct;
    var pairs := Signed(t, date, expires);
    StatementNames(t, date, expires);
    SaysPair(lossy, query, own, pairs, 0);
    SaysPair(lossy, query, own, pairs, 1);
    SaysPair(lossy, query, own, pairs, 2);
    SaysPair(lossy, query, own, pairs, 3);
    SaysPair(lossy, query, own, pairs, 4);
    SaysPair(lossy, query, own, pairs, 5);
  }

  lemma SignaturePiece(lossy: Lossy, t: Ticket, date: string, expires: string)
    requires AllAscii(Signed(t, date, expires))
    ensures var all := Pieces(Signed(t, date, expires));
            && AllAscii(Statements(t, date, expires)) && IsAscii("X-Amz-Signature") && Ascii("X-Amz-Signature") == SIGNATURE_PARAM
            && AsciiPair(("X-Amz-Signature", t.signature))
            && all == Pieces(Statements(t, date, expires)) + [PieceOf(("X-Amz-Signature", t.signature))]
  {
    hide PieceOf, CredentialText, Join;
    var pairs, front := Signed(t, date, expires), Statements(t, date, expires);
    forall k | 0 <= k < |front| ensures AsciiPair(front[k]) {
      assert front[k] == pairs[k];
    }
    assert pairs[5] == ("X-Amz-Signature", t.signature) && AsciiPair(pairs[5]);
    SignatureName();
  }

  lemma SignatureName()
    ensures IsAscii("X-Amz-Signature") && Ascii("X-Amz-Signature") == SIGNATURE_PARAM
  {
  }

  /** No other piece is named like the signature. */
  lemma UnsignedNames(lossy: Lossy, own: seq<Bytes>, t: Ticket, date: string, expires: string, x: Bytes)
    requires ReadsAscii(lossy) && AllAscii(Signed(t, date, expires)) && Others(lossy, own, Signed(t, date, expires))
    requires AllAscii(Statements(t, date, expires)) && x in own + Pieces(Statements(t, date, expires)) && x != []
    ensures CanonicalQuery.DecodeParam(x).name != SIGNATURE_PARAM
  {
    hide PieceOf, CredentialText, Join, CanonicalQuery.DecodeParam;
    var pairs, front := Signed(t, date, expires), Statements(t, date, expires);
    SignatureName();
    StatementNames(t, date, expires);
    assert pairs[5].0 == "X-Amz-Signature";
    if x in own {
      assert !NamesPair(lossy, x, pairs[5].0);
    } else {
      var k :| 0 <= k < |front| && Pieces(front)[k] == x;
      assert front[k] == pairs[k];
      PieceSays(lossy, front[k]);
    }
  }

  lemma {:induction false} NoneExcluded(pieces: seq<Bytes>, exclude: set<Bytes>)
    requires forall x :: x in pieces && x != [] ==> CanonicalQuery.DecodeParam(x).name !in exclude
    ensures CanonicalQuery.Decoded(pieces, exclude) == CanonicalQuery.Decoded(pieces, {})
  {
    hide CanonicalQuery.DecodeParam;
    if |pieces| > 0 {
      assert forall x :: x in pieces[1..] ==> x in pieces;
      NoneExcluded(pieces[1..], exclude);
    }
  }

  /** The canonical query of a signed URL is that of the URL before it was signed. */
  lemma SameWithout(lossy: Lossy, plain: Bytes, query: Bytes, own: seq<Bytes>, t: Ticket, date: string, expires: string)
    requires ReadsAscii(lossy) && AllAscii(Signed(t, date, expires)) && Others(lossy, own, Signed(t, date, expires))
    requires AllAscii(Statements(t, date, expires)) && Arranges(plain, own + Pieces(Statements(t, date, expires)))
    requires Arranges(query, own + Pieces(Signed(t, date, expires)))
    ensures CanonicalQuery.Canonical(query, {SIGNATURE_PARAM}) == CanonicalQuery.Canonical(plain, {})
  {
    hide Signed, Statements, PieceOf, Split, CanonicalQuery.Decoded, CanonicalQuery.Canonical, CanonicalQuery.DecodeParam, ReadsAscii,
         Others, AllAscii, Pieces;
    var unsigned := own + Pieces(Statements(t, date, expires));
    var all := own + Pieces(Signed(t, date, expires));
    SignaturePiece(lossy, t, date, expires);
    var sig := PieceOf(("X-Amz-Signature", t.signature));
    assert all == unsigned + [sig];
    var x := {SIGNATURE_PARAM};
    CanonicalQuery.DecodedPermutes(Split(query, CanonicalQuery.AMP), all, x);
    CanonicalQuery.DecodedPermutes(Split(plain, CanonicalQuery.AMP), unsigned, {});
    CanonicalQuery.DecodedAppend(unsigned, [sig], x);
    forall y | y in unsigned && y != [] ensures CanonicalQuery.DecodeParam(y).name !in x {
      UnsignedNames(lossy, own, t, date, expires, y);
    }
    NoneExcluded(unsigned, x);
    PieceSays(lossy, ("X-Amz-Signature", t.signature));
    Excluded(sig, x);
    CanonicalQuery.SameCanonical(query, x, plain, {});
  }

  lemma Excluded(piece: Bytes, exclude: set<Bytes>)
    requires CanonicalQuery.DecodeParam(piece).name in exclude
    ensures CanonicalQuery.Decoded([piece], exclude) == []
  {
    hide CanonicalQuery.DecodeParam;
    assert CanonicalQuery.Decoded([piece][1..], exclude) == [];
  }

  lemma OneTicket(pairs: map<string, string>, t: Ticket, date: string, e: nat, t': Ticket, date': string, e': nat)
    requires InQuery(pairs, t, date, e) && InQuery(pairs, t', date', e')
    requires NoSlashes(t.credential) && NoSlashes(t'.credential) && GoodNames(t'.names) && forall k :: 0 <= k < |t.names| ==> ';' !in t.names[k]
    ensures t == t' && date == date' && e == e'
  {
    hide Join, Split, CredentialText, Denotes, ParseCredential, ValidateSignedHeaders;
    CredentialExact(CredentialText(t.credential), t.credential);
    CredentialExact(CredentialText(t.credential), t'.credential);
    DenotesOne(pairs["X-Amz-Expires"], 10, e, e');
    SplitJoin(t'.names, ';');
    if |t.names| > 0 {
      SplitJoin(t.names, ';');
    } else {
      NoNames(t.names, t'.names);
    }
  }

  lemma NoNames(none: seq<string>, names: seq<string>)
    requires |none| == 0 && |names| > 0 && Free(names, ';')
    ensures Join(none, ';') == Join(names, ';') ==> names == [""]
  {
    SplitJoin(names, ';');
  }

  /** A presigned URL, printed from credential, date, lifetime, names and signature behind,
      before or among any other parameters, is accepted exactly when the ticket is good and
      the signature is that of the request as it was before the signature was added. */
  lemma PresignedUrl(sign: Signer, lossy: Lossy, r: Request, query: Bytes, own: seq<Bytes>, t: Ticket, date: string, expires: string,
                     e: nat, clients: seq<Client>, now: nat, id: Identity)
    requires ReadsAscii(lossy) && AllAscii(Signed(t, date, expires)) && Others(lossy, own, Signed(t, date, expires))
    requires AllAscii(Statements(t, date, expires)) && Arranges(r.query, own + Pieces(Statements(t, date, expires)))
    requires Arranges(query, own + Pieces(Signed(t, date, expires))) && Denotes(expires, 10, e)
    requires NoSlashes(t.credential) && forall k :: 0 <= k < |t.names| ==> ';' !in t.names[k]
    ensures VerifyRequest(sign, lossy, r.(query := query), clients, now) == Ok(id)
            <==> && WellFormed(r, t) && Valid(date, e, now)
                 && exists client :: id == IdentityOf(t, client)
                                     && SignedBy(sign, t, client, clients, date, CanonicalOf(r.(payloadHash := UNSIGNED_PAYLOAD), t.names))
  {
    hide Signed, Statements, Arranges, QueryPairs, ReadsAscii, Others, AllAscii, Pieces, Denotes, VerifyPresigned, CanonicalQuery.Canonical,
         GoodNames, NoSlashes, HeaderBlock, Join, CredentialText, Date8, Valid, ResolveClient;
    var sent := r.(query := query);
    PrintedInQuery(lossy, query, own, t, date, expires, e);
    SameWithout(lossy, r.query, query, own, t, date, expires);
    assert PresignedOf(sent, t.names) == CanonicalOf(r.(payloadHash := UNSIGNED_PAYLOAD), t.names);
    if VerifyRequest(sign, lossy, sent, clients, now) == Ok(id) {
      var t', date', e', client := QueryWasAccepted(sign, lossy, sent, clients, now);
      OneTicket(QueryPairs(lossy, query), t, date, e, t', date', e');
      QueryIsAccepted(sign, lossy, sent, t, date, e, client, clients, now);
    }
    if WellFormed(r, t) && Valid(date, e, now) {
      forall client | SignedBy(sign, t, client, clients, date, CanonicalOf(r.(payloadHash := UNSIGNED_PAYLOAD), t.names))
        ensures VerifyRequest(sign, lossy, sent, clients, now) == Ok(IdentityOf(t, client))
      {
        QueryIsAccepted(sign, lossy, sent, t, date, e, client, clients, now);
      }
    }
  }
}
