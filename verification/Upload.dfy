/** The multipart upload protocol of one upload id: any number of UploadPart and Complete
    requests, interleaved step by step with each other, with removal of the session and
    with the backend. */
module Upload {
  import opened Bytes
  import opened Cipher
  import opened SizeMath
  import opened Layout
  import opened MultipartObject
  import opened FooterCodec
  import opened SealedFooter
  import opened Session

  // ---------------------------------------------------------------- what Complete checks

  /** An entry of a Complete's part list. */
  datatype Listed = Listed(number: nat, etag: ETag)

  datatype CompleteError = InvalidPart | InvalidPartOrder | NoSuchUpload

  predicate AscendingList(list: seq<Listed>) {
    forall i, j :: 0 <= i < j < |list| ==> list[i].number < list[j].number
  }

  function MaxNumber(list: seq<Listed>): nat
    requires |list| > 0
  {
    if |list| == 1 then list[0].number
    else
      var rest := MaxNumber(list[1..]);
      if list[0].number < rest then rest else list[0].number
  }

  lemma {:induction false} MaxIsLast(list: seq<Listed>)
    requires |list| > 0 && AscendingList(list)
    ensures MaxNumber(list) == list[|list| - 1].number
  {
    if |list| > 1 {
      MaxIsLast(list[1..]);
    }
  }

  /** The accepted lists are the non-empty ascending ones; the number returned is the one
      that the footer will follow. */
  function ValidateClientParts(list: seq<Listed>): (r: Result<nat, CompleteError>)
    ensures r.Ok? <==> |list| > 0 && AscendingList(list)
    ensures r.Ok? ==> r.value == list[|list| - 1].number
    ensures r.Err? ==> r.error == if list == [] then InvalidPart else InvalidPartOrder
  {
    if |list| == 0 then Err(InvalidPart)
    else if !AscendingList(list) then Err(InvalidPartOrder)
    else
      MaxIsLast(list);
      Ok(MaxNumber(list))
  }

  datatype Snapshot = Snapshot(dek: Bytes, parts: seq<PartSize>, tail: Option<Bytes>)

  predicate Matches(s: SessionState, l: Listed) {
    l.number in s.parts && s.parts[l.number].etag == l.etag
  }

  function SnapshotForComplete(s: SessionState, list: seq<Listed>, last: nat): Result<Snapshot, CompleteError> {
    if !(forall k :: 0 <= k < |list| ==> Matches(s, list[k])) then Err(InvalidPart)
    else if s.dek.None? then Err(NoSuchUpload)
    else
      var sizes := seq(|list|, k requires 0 <= k < |list| && Matches(s, list[k]) =>
        PartSize(list[k].number, s.parts[list[k].number].ptLen));
      Ok(Snapshot(s.dek.value, sizes, if last in s.tails then Some(s.tails[last]) else None))
  }

  function SizeOf(parts: seq<PartSize>, number: nat): nat {
    if |parts| == 0 then 0
    else if parts[0].number == number then parts[0].ptLen
    else SizeOf(parts[1..], number)
  }

  /** The last part is buffered, or large enough to be followed by another part. */
  predicate LastPartOk(g: Geometry, snap: Snapshot, last: nat)
    requires g.chunkSize > 0
  {
    snap.tail.Some? || CiphertextLen(g.alg, SizeOf(snap.parts, last), g.chunkSize) >= MIN_PART_SIZE
  }

  /** The list sent to the backend once the footer is stored. */
  function FinalList(list: seq<Listed>, merged: bool, etag: ETag): seq<Listed>
    requires |list| > 0
  {
    var n := |list| - 1;
    if merged then list[..n] + [Listed(list[n].number, etag)]
    else list + [Listed(list[n].number + 1, etag)]
  }

  method FinalizeParts(list: seq<Listed>, last: nat, merged: bool, etag: ETag) returns (final: seq<Listed>)
    requires ValidateClientParts(list) == Ok(last)
    ensures final == FinalList(list, merged, etag)
  {
    final := list;
    if merged {
      for i := 0 to |final|
        invariant |final| == |list|
        invariant forall k :: 0 <= k < |list| ==>
                    final[k] == if k < i && list[k].number == last then Listed(last, etag) else list[k]
      {
        if final[i].number == last {
          final := final[i := final[i].(etag := etag)];
        }
      }
    } else {
      final := final + [Listed(last + 1, etag)];
    }
  }

  // ---------------------------------------------------------------- the state machine

  /** The cipher, the object's geometry and the data key drawn when the upload started. */
  datatype Env = Env(aead: Aead, g: Geometry, key: Bytes)

  ghost predicate ValidEnv(env: Env) {
    Lawful(env.aead) && env.g.chunkSize > 0
  }

  function Opens(env: Env): Openers {
    ReaderOf(env.aead, env.g.alg, env.key)
  }

  /** What an upload stored: a client's part, or bytes of the node's own (a footer, alone
      or behind the last part). */
  datatype Stored = ClientPart(part: Part) | Own(bytes: Bytes)

  function BytesOf(g: Geometry, stored: Stored): Bytes
    requires g.chunkSize > 0
  {
    match stored
    case ClientPart(part) => PartCt(g, part)
    case Own(bytes) => bytes
  }

  /** What the backend holds under a part number. */
  datatype Held = Held(etag: ETag, bytes: Bytes)

  /** Everything ever stored, by ETag: no two uploads share one. */
  type Uploads = map<ETag, Stored>

  /** An accepted Complete: the list the client gave and the object that was stored. */
  datatype Completion = Completion(list: seq<Listed>, whole: Bytes)

  datatype Backend = Backend(live: bool, held: map<nat, Held>, uploads: Uploads, completion: Option<Completion>)

  /** Where a request stands between two of its steps. */
  datatype Request =
    | Encrypting(number: nat, dek: Bytes)
    | Recording(number: nat, ptLen: nat, etag: ETag, ct: Option<Bytes>)
    | Snapped(list: seq<Listed>, snap: Snapshot)
    | Claimed(list: seq<Listed>, snap: Snapshot)
    | Placed(list: seq<Listed>, final: seq<Listed>)
    | Answered(response: Option<Response>)

  /** Whether the request has claimed the completion and not yet given it back. */
  predicate HoldsClaim(r: Request) {
    r.Claimed? || r.Placed? || r.Answered?
  }

  /** Strays are requests that the node has given up, on an error or because they were
      cancelled, while what they last sent may still reach the backend. */
  datatype State = State(
    session: Option<SessionState>, backend: Backend, requests: map<nat, Request>, strays: map<nat, Request>
  )

  function Start(env: Env): State {
    State(Some(SessionState(Some(env.key), map[], map[], None, false)), Backend(true, map[], map[], None), map[], map[])
  }

  /** UploadPart finds the session and takes its key. */
  ghost predicate BeginsUpload(s: State, id: nat, number: nat, s': State) {
    && id !in s.requests && id !in s.strays && 1 <= number <= MAX_PART_NUMBER
    && s.session.Some? && s.session.value.dek.Some?
    && s' == s.(requests := s.requests[id := Encrypting(number, s.session.value.dek.value)])
  }

  function Store(g: Geometry, b: Backend, number: nat, etag: ETag, stored: Stored): Backend
    requires g.chunkSize > 0
  {
    b.(held := b.held[number := Held(etag, BytesOf(g, stored))], uploads := b.uploads[etag := stored])
  }

  /** The backend stores the encrypted part under a new ETag. */
  ghost predicate StoresPart(env: Env, s: State, id: nat, part: Part, nonces: Nonces, etag: ETag, s': State)
    requires ValidEnv(env)
  {
    && id in s.requests && s.requests[id].Encrypting? && s.backend.live && etag !in s.backend.uploads
    && ValidNonces(env.g.alg, nonces) && |part.pt| < TWO_64 && part.number == s.requests[id].number
    && part.seal == SealerOf(env.aead, env.g.alg, s.requests[id].dek, part.number, nonces)
    && var ct := if CiphertextLen(env.g.alg, |part.pt|, env.g.chunkSize) < MIN_PART_SIZE then Some(PartCt(env.g, part)) else None;
    s' == s.(backend := Store(env.g, s.backend, part.number, etag, ClientPart(part)),
             requests := s.requests[id := Recording(part.number, |part.pt|, etag, ct)])
  }

  /** The node records the part, if the session is still there. */
  ghost predicate RecordsPart(s: State, id: nat, s': State) {
    && id in s.requests && s.requests[id].Recording?
    && var r := s.requests[id];
    s' == s.(session := if s.session.None? then None
                        else Some(Recorded(s.session.value, r.number, r.ptLen, r.etag, r.ct)),
             requests := s.requests - {id})
  }

  /** Complete checks its list against an open session and takes a snapshot. */
  ghost predicate Snaps(env: Env, s: State, id: nat, list: seq<Listed>, s': State)
    requires env.g.chunkSize > 0
  {
    && id !in s.requests && id !in s.strays && s.session.Some? && s.session.value.completed.None?
    && ValidateClientParts(list).Ok?
    && var last := ValidateClientParts(list).value;
    var snap := SnapshotForComplete(s.session.value, list, last);
    && snap.Ok? && LastPartOk(env.g, snap.value, last)
    && s' == s.(requests := s.requests[id := Snapped(list, snap.value)])
  }

  ghost predicate Claims(s: State, id: nat, s': State) {
    && id in s.requests && s.requests[id].Snapped?
    && s.session.Some? && s.session.value.completed.None? && !s.session.value.completing
    && s' == s.(session := Some(s.session.value.(completing := true)),
                requests := s.requests[id := Claimed(s.requests[id].list, s.requests[id].snap)])
  }

  /** The footer of a snapshot, sealed. */
  function SealedFor(env: Env, snap: Snapshot, nonces: Nonces): Bytes {
    SealFooter(SealerOf(env.aead, env.g.alg, snap.dek, FOOTER_PART_NUMBER, nonces), FooterOf(env.g.alg, snap.parts, None))
  }

  /** The state once the footer is stored, behind the buffered last part or as a part of
      its own. */
  function AfterFooter(env: Env, s: State, id: nat, nonces: Nonces, etag: ETag): State
    requires env.g.chunkSize > 0 && id in s.requests && s.requests[id].Claimed? && |s.requests[id].list| > 0
  {
    var r := s.requests[id];
    var last, merged := r.list[|r.list| - 1].number, r.snap.tail.Some?;
    var sealed := SealedFor(env, r.snap, nonces);
    var stored := Own(if merged then r.snap.tail.value + sealed else sealed);
    s.(backend := Store(env.g, s.backend, if merged then last else last + 1, etag, stored),
       requests := s.requests[id := Placed(r.list, FinalList(r.list, merged, etag))])
  }

  ghost predicate PlacesFooter(env: Env, s: State, id: nat, nonces: Nonces, etag: ETag, s': State)
    requires env.g.chunkSize > 0
  {
    && id in s.requests && s.requests[id].Claimed? && |s.requests[id].list| > 0
    && s.backend.live && etag !in s.backend.uploads && ValidNonces(env.g.alg, nonces)
    && s' == AfterFooter(env, s, id, nonces, etag)
  }

  predicate Current(held: map<nat, Held>, list: seq<Listed>) {
    forall k :: 0 <= k < |list| ==> list[k].number in held && held[list[k].number].etag == list[k].etag
  }

  /** What is held under the listed numbers, one behind the other. */
  function Assembled(held: map<nat, Held>, list: seq<Listed>): Bytes
    requires Current(held, list)
  {
    if |list| == 0 then []
    else Assembled(held, list[..|list| - 1]) + held[list[|list| - 1].number].bytes
  }

  /** The backend accepts: every listed ETag is the one it holds. */
  ghost predicate Accepts(s: State, id: nat, response: Response, s': State) {
    && id in s.requests && s.requests[id].Placed? && s.backend.live && Current(s.backend.held, s.requests[id].final)
    && var r := s.requests[id];
    s' == s.(backend := s.backend.(live := false, completion := Some(Completion(r.list, Assembled(s.backend.held, r.final)))),
             requests := s.requests[id := Answered(Some(response))])
  }

  ghost predicate Refuses(s: State, id: nat, s': State) {
    && id in s.requests && s.requests[id].Placed?
    && s' == s.(requests := s.requests[id := Answered(None)])
  }

  function Released(session: Option<SessionState>): Option<SessionState> {
    if session.None? then None else Some(session.value.(completing := false))
  }

  /** The node reacts to the backend's answer: it finishes the session or gives up the claim. */
  ghost predicate Settles(s: State, id: nat, s': State) {
    && id in s.requests && s.requests[id].Answered?
    && var response := s.requests[id].response;
    s' == s.(session := if response.None? then Released(s.session)
                        else if s.session.None? then None
                        else Some(Finished(s.session.value, response.value)),
             requests := s.requests - {id})
  }

  function GivenUp(s: State, id: nat): State
    requires id in s.requests
  {
    s.(requests := s.requests - {id}, strays := s.strays[id := s.requests[id]])
  }

  /** An error after the claim gives it up. */
  ghost predicate Fails(s: State, id: nat, s': State) {
    && id in s.requests && HoldsClaim(s.requests[id])
    && s' == GivenUp(s, id).(session := Released(s.session))
  }

  /** A request may be cancelled between any two steps. */
  ghost predicate Vanishes(s: State, id: nat, s': State) {
    id in s.requests && s' == GivenUp(s, id)
  }

  function Swapped(s: State): State {
    s.(requests := s.strays, strays := s.requests)
  }

  /** What a stray request sent reaches the backend after all; nobody gets the answer. */
  ghost predicate Strays(s: State, id: nat, u: State, s': State) {
    s' == Swapped(u).(strays := u.requests - {id})
  }

  ghost predicate StrayStores(env: Env, s: State, id: nat, part: Part, nonces: Nonces, etag: ETag, s': State)
    requires ValidEnv(env)
  {
    exists u :: StoresPart(env, Swapped(s), id, part, nonces, etag, u) && Strays(s, id, u, s')
  }

  ghost predicate StrayPlaces(env: Env, s: State, id: nat, nonces: Nonces, etag: ETag, s': State)
    requires env.g.chunkSize > 0
  {
    exists u :: PlacesFooter(env, Swapped(s), id, nonces, etag, u) && Strays(s, id, u, s')
  }

  ghost predicate StrayAccepts(s: State, id: nat, response: Response, s': State) {
    exists u :: Accepts(Swapped(s), id, response, u) && Strays(s, id, u, s')
  }

  /** Abort, expiry and eviction remove the session. */
  ghost predicate Removes(s: State, s': State) {
    s' == s.(session := None)
  }

  ghost predicate BackendAborts(s: State, s': State) {
    s' == s.(backend := s.backend.(live := false, held := map[]))
  }

  datatype Event =
    | BeginUpload(id: nat, number: nat)
    | StorePart(id: nat, part: Part, nonces: Nonces, etag: ETag)
    | RecordPart(id: nat)
    | Snap(id: nat, list: seq<Listed>)
    | Claim(id: nat)
    | PlaceFooter(id: nat, nonces: Nonces, etag: ETag)
    | Accept(id: nat, response: Response)
    | Refuse(id: nat)
    | Settle(id: nat)
    | Fail(id: nat)
    | Vanish(id: nat)
    | StrayPart(id: nat, part: Part, nonces: Nonces, etag: ETag)
    | StrayFooter(id: nat, nonces: Nonces, etag: ETag)
    | StrayAccept(id: nat, response: Response)
    | Remove
    | BackendAbort

  ghost predicate Step(env: Env, s: State, e: Event, s': State)
    requires ValidEnv(env)
  {
    match e
    case BeginUpload(id, number) => BeginsUpload(s, id, number, s')
    case StorePart(id, part, nonces, etag) => StoresPart(env, s, id, part, nonces, etag, s')
    case RecordPart(id) => RecordsPart(s, id, s')
    case Snap(id, list) => Snaps(env, s, id, list, s')
    case Claim(id) => Claims(s, id, s')
    case PlaceFooter(id, nonces, etag) => PlacesFooter(env, s, id, nonces, etag, s')
    case Accept(id, response) => Accepts(s, id, response, s')
    case Refuse(id) => Refuses(s, id, s')
    case Settle(id) => Settles(s, id, s')
    case Fail(id) => Fails(s, id, s')
    case Vanish(id) => Vanishes(s, id, s')
    case StrayPart(id, part, nonces, etag) => StrayStores(env, s, id, part, nonces, etag, s')
    case StrayFooter(id, nonces, etag) => StrayPlaces(env, s, id, nonces, etag, s')
    case StrayAccept(id, response) => StrayAccepts(s, id, response, s')
    case Remove => Removes(s, s')
    case BackendAbort => BackendAborts(s, s')
  }

  /** The states that a sequence of events leads through. */
  ghost predicate Path(env: Env, states: seq<State>, events: seq<Event>)
    requires ValidEnv(env)
  {
    |states| == |events| + 1 && forall i :: 0 <= i < |events| ==> Step(env, states[i], events[i], states[i + 1])
  }

  ghost predicate Run(env: Env, states: seq<State>, events: seq<Event>)
    requires ValidEnv(env)
  {
    Path(env, states, events) && states[0] == Start(env)
  }
}
