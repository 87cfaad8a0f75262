/** Safety of the upload protocol: what every step keeps, and what every run therefore
    guarantees about the stored object and about the session. */
module UploadSafety {
  import opened Bytes
  import opened Text
  import opened Cipher
  import opened SizeMath
  import opened FrameSpec
  import opened Layout
  import opened MultipartObject
  import opened FooterCodec
  import opened SealedFooter
  import opened Session
  import opened Upload

  // ---------------------------------------------------------------- the invariant

  /** A part that was sealed under the upload's key for its own number. */
  ghost predicate Sealed(env: Env, number: nat, part: Part) {
    && part.number == number && 1 <= number <= MAX_PART_NUMBER && |part.pt| < TWO_64
    && Paired(env.g.alg, part.seal, Opens(env)(number))
  }

  ghost predicate IsPart(env: Env, uploads: Uploads, number: nat, etag: ETag) {
    etag in uploads && uploads[etag].ClientPart? && Sealed(env, number, uploads[etag].part)
  }

  ghost predicate IsRecording(env: Env, uploads: Uploads, number: nat, ptLen: nat, etag: ETag) {
    IsPart(env, uploads, number, etag) && |uploads[etag].part.pt| == ptLen
  }

  /** `ct` is the small ciphertext of that very upload. */
  ghost predicate IsTail(env: Env, uploads: Uploads, etag: ETag, ct: Bytes)
    requires env.g.chunkSize > 0
  {
    etag in uploads && uploads[etag].ClientPart? && ct == PartCt(env.g, uploads[etag].part) && |ct| < MIN_PART_SIZE
  }

  ghost predicate GoodSession(env: Env, uploads: Uploads, s: SessionState)
    requires env.g.chunkSize > 0
  {
    && (forall n :: n in s.parts ==> IsRecording(env, uploads, n, s.parts[n].ptLen, s.parts[n].etag))
    && (forall n :: n in s.tails ==> n in s.parts && IsTail(env, uploads, s.parts[n].etag, s.tails[n]))
    && TotalBytes(s.tails) <= MAX_TAIL_BYTES
    && if s.completed.None? then s.dek == Some(env.key) else s.dek.None? && s.parts == map[] && s.tails == map[]
  }

  /** The listed ETags name parts uploaded under the listed numbers. */
  ghost predicate NamesParts(env: Env, uploads: Uploads, list: seq<Listed>) {
    AscendingList(list) && forall k :: 0 <= k < |list| ==> IsPart(env, uploads, list[k].number, list[k].etag)
  }

  ghost function PartsOf(env: Env, uploads: Uploads, list: seq<Listed>): (parts: seq<Part>)
    requires NamesParts(env, uploads, list)
  {
    seq(|list|, k requires 0 <= k < |list| && IsPart(env, uploads, list[k].number, list[k].etag) => uploads[list[k].etag].part)
  }

  ghost predicate GoodSnapshot(env: Env, uploads: Uploads, list: seq<Listed>, snap: Snapshot)
    requires env.g.chunkSize > 0
  {
    && |list| > 0 && NamesParts(env, uploads, list)
    && snap.dek == env.key && snap.parts == Sizes(PartsOf(env, uploads, list))
    && var n := |list| - 1;
    if snap.tail.Some? then IsTail(env, uploads, list[n].etag, snap.tail.value)
    else CiphertextLen(env.g.alg, snap.parts[n].ptLen, env.g.chunkSize) >= MIN_PART_SIZE
  }

  /** The ciphertexts of `parts` in order, followed by their sealed footer. */
  ghost predicate HasFooter(env: Env, seal: Sealer, parts: seq<Part>, whole: Bytes)
    requires env.g.chunkSize > 0
  {
    && Paired(env.g.alg, seal, Opens(env)(FOOTER_PART_NUMBER))
    && whole == ObjectCt(env.g, parts) + SealFooter(seal, FooterOf(env.g.alg, Sizes(parts), None))
  }

  ghost predicate IsObject(env: Env, uploads: Uploads, list: seq<Listed>, whole: Bytes)
    requires env.g.chunkSize > 0
  {
    |list| > 0 && NamesParts(env, uploads, list) && exists seal :: HasFooter(env, seal, PartsOf(env, uploads, list), whole)
  }

  predicate AllStored(uploads: Uploads, list: seq<Listed>) {
    forall k :: 0 <= k < |list| ==> list[k].etag in uploads
  }

  /** The stored bodies that a list names, one behind the other. */
  function Bodies(g: Geometry, uploads: Uploads, list: seq<Listed>): Bytes
    requires g.chunkSize > 0 && AllStored(uploads, list)
  {
    if |list| == 0 then []
    else Bodies(g, uploads, list[..|list| - 1]) + BytesOf(g, uploads[list[|list| - 1].etag])
  }

  ghost predicate GoodRequest(env: Env, uploads: Uploads, r: Request)
    requires env.g.chunkSize > 0
  {
    match r
    case Encrypting(number, dek) => dek == env.key && 1 <= number <= MAX_PART_NUMBER
    case Recording(number, ptLen, etag, ct) =>
      IsRecording(env, uploads, number, ptLen, etag) && (ct.Some? ==> IsTail(env, uploads, etag, ct.value))
    case Snapped(list, snap) => GoodSnapshot(env, uploads, list, snap)
    case Claimed(list, snap) => GoodSnapshot(env, uploads, list, snap)
    case Placed(list, final) => AllStored(uploads, final) && IsObject(env, uploads, list, Bodies(env.g, uploads, final))
    case Answered(_) => true
  }

  ghost predicate GoodHeld(env: Env, b: Backend)
    requires env.g.chunkSize > 0
  {
    forall n :: n in b.held ==> b.held[n].etag in b.uploads && b.held[n].bytes == BytesOf(env.g, b.uploads[b.held[n].etag])
  }

  ghost predicate GoodRequests(env: Env, uploads: Uploads, requests: map<nat, Request>)
    requires env.g.chunkSize > 0
  {
    forall id :: id in requests ==> GoodRequest(env, uploads, requests[id])
  }

  ghost predicate GoodData(env: Env, s: State)
    requires env.g.chunkSize > 0
  {
    && (s.session.Some? ==> GoodSession(env, s.backend.uploads, s.session.value))
    && GoodRequests(env, s.backend.uploads, s.requests) && GoodRequests(env, s.backend.uploads, s.strays) && GoodHeld(env, s.backend)
    && (s.backend.completion.Some? ==>
          IsObject(env, s.backend.uploads, s.backend.completion.value.list, s.backend.completion.value.whole))
  }

  /** At most one Complete holds the claim, and only on a session that is not finished. */
  ghost predicate OneHolder(s: State) {
    && (forall i, j :: i in s.requests && j in s.requests && HoldsClaim(s.requests[i]) && HoldsClaim(s.requests[j]) ==> i == j)
    && (forall i :: i in s.requests && HoldsClaim(s.requests[i]) && s.session.Some? ==>
          s.session.value.completing && s.session.value.completed.None?)
  }

  // ---------------------------------------------------------------- uploads only grow

  ghost predicate Grows(uploads: Uploads, uploads': Uploads) {
    forall e :: e in uploads ==> e in uploads' && uploads'[e] == uploads[e]
  }

  lemma PartsStay(env: Env, uploads: Uploads, uploads': Uploads, list: seq<Listed>)
    requires Grows(uploads, uploads') && NamesParts(env, uploads, list)
    ensures NamesParts(env, uploads', list) && PartsOf(env, uploads', list) == PartsOf(env, uploads, list)
  {
    hide Sealed;
    forall k | 0 <= k < |list| ensures IsPart(env, uploads', list[k].number, list[k].etag) {
      assert IsPart(env, uploads, list[k].number, list[k].etag);
    }
  }

  lemma {:induction false} BodiesStay(g: Geometry, uploads: Uploads, uploads': Uploads, list: seq<Listed>)
    requires g.chunkSize > 0 && Grows(uploads, uploads') && AllStored(uploads, list)
    ensures AllStored(uploads', list) && Bodies(g, uploads', list) == Bodies(g, uploads, list)
  {
    if |list| > 0 {
      BodiesStay(g, uploads, uploads', list[..|list| - 1]);
    }
  }

  lemma ObjectStays(env: Env, uploads: Uploads, uploads': Uploads, list: seq<Listed>, whole: Bytes)
    requires env.g.chunkSize > 0 && Grows(uploads, uploads') && IsObject(env, uploads, list, whole)
    ensures IsObject(env, uploads', list, whole)
  {
    hide NamesParts, HasFooter;
    PartsStay(env, uploads, uploads', list);
  }

  lemma SessionStays(env: Env, uploads: Uploads, uploads': Uploads, s: SessionState)
    requires env.g.chunkSize > 0 && Grows(uploads, uploads') && GoodSession(env, uploads, s)
    ensures GoodSession(env, uploads', s)
  {
    hide Sealed, TotalBytes;
    forall n | n in s.parts ensures IsRecording(env, uploads', n, s.parts[n].ptLen, s.parts[n].etag) {
      assert IsRecording(env, uploads, n, s.parts[n].ptLen, s.parts[n].etag);
    }
  }

  lemma RequestStays(env: Env, uploads: Uploads, uploads': Uploads, r: Request)
    requires env.g.chunkSize > 0 && Grows(uploads, uploads') && GoodRequest(env, uploads, r)
    ensures GoodRequest(env, uploads', r)
  {
    hide Sealed, NamesParts, IsObject, Bodies, AllStored;
    match r {
      case Encrypting(_, _) =>
      case Recording(_, _, _, _) =>
      case Snapped(list, snap) => PartsStay(env, uploads, uploads', list);
      case Claimed(list, snap) => PartsStay(env, uploads, uploads', list);
      case Placed(list, final) =>
        BodiesStay(env.g, uploads, uploads', final);
        ObjectStays(env, uploads, uploads', list, Bodies(env.g, uploads, final));
      case Answered(_) =>
    }
  }

  lemma RequestsStay(env: Env, uploads: Uploads, uploads': Uploads, requests: map<nat, Request>)
    requires env.g.chunkSize > 0 && Grows(uploads, uploads') && GoodRequests(env, uploads, requests)
    ensures GoodRequests(env, uploads', requests)
  {
    hide GoodRequest, Grows;
    forall id | id in requests ensures GoodRequest(env, uploads', requests[id]) {
      RequestStays(env, uploads, uploads', requests[id]);
    }
  }

  /** A new upload disturbs nothing that is already there. */
  lemma StoreKeeps(env: Env, s: State, number: nat, etag: ETag, stored: Stored)
    requires env.g.chunkSize > 0 && GoodData(env, s) && etag !in s.backend.uploads
    ensures GoodData(env, s.(backend := Store(env.g, s.backend, number, etag, stored)))
  {
    hide GoodSession, GoodRequests, IsObject;
    var uploads := s.backend.uploads;
    var uploads' := uploads[etag := stored];
    assert Grows(uploads, uploads');
    if s.session.Some? {
      SessionStays(env, uploads, uploads', s.session.value);
    }
    RequestsStay(env, uploads, uploads', s.requests);
    RequestsStay(env, uploads, uploads', s.strays);
    if s.backend.completion.Some? {
      ObjectStays(env, uploads, uploads', s.backend.completion.value.list, s.backend.completion.value.whole);
    }
  }

  // ---------------------------------------------------------------- steps that add data

  lemma StorePartKeeps(env: Env, s: State, id: nat, part: Part, nonces: Nonces, etag: ETag, s': State)
    requires ValidEnv(env) && GoodData(env, s) && StoresPart(env, s, id, part, nonces, etag, s')
    ensures GoodData(env, s')
  {
    hide GoodSession, IsObject, GoodHeld, SealerOf, EncryptAll, PartCt, CiphertextLen;
    StoreKeeps(env, s, part.number, etag, ClientPart(part));
    assert GoodRequest(env, s.backend.uploads, s.requests[id]);
    PairedStreams(env.aead, env.g.alg, env.key, part.number, nonces);
    assert Opens(env)(part.number) == OpenerOf(env.aead, env.g.alg, env.key, part.number);
    assert IsPart(env, s'.backend.uploads, part.number, etag);
    CtLength(env, part);
    assert GoodRequest(env, s'.backend.uploads, s'.requests[id]);
  }

  lemma CtLength(env: Env, part: Part)
    requires env.g.chunkSize > 0 && Sealed(env, part.number, part)
    ensures |PartCt(env.g, part)| == CiphertextLen(env.g.alg, |part.pt|, env.g.chunkSize)
  {
    EncryptAllLength(env.g, part.seal, Opens(env)(part.number), part.pt);
  }

  lemma RecordKeeps(env: Env, uploads: Uploads, s: SessionState, number: nat, ptLen: nat, etag: ETag, ct: Option<Bytes>)
    requires env.g.chunkSize > 0 && GoodSession(env, uploads, s)
    requires GoodRequest(env, uploads, Recording(number, ptLen, etag, ct))
    ensures GoodSession(env, uploads, Recorded(s, number, ptLen, etag, ct))
  {
    hide TotalBytes, IsPart, PartCt;
    if s.completed.None? {
      if ct.Some? {
        KeptFits(s.tails[number := ct.value]);
      } else {
        RemovalFits(s.tails, number);
      }
    }
  }

  lemma SnapKeeps(env: Env, uploads: Uploads, s: SessionState, list: seq<Listed>, last: nat, snap: Snapshot)
    requires env.g.chunkSize > 0 && GoodSession(env, uploads, s)
    requires ValidateClientParts(list) == Ok(last) && SnapshotForComplete(s, list, last) == Ok(snap)
    requires LastPartOk(env.g, snap, last)
    ensures GoodSnapshot(env, uploads, list, snap)
  {
    hide TotalBytes, Paired, CiphertextLen, PartCt;
    forall k | 0 <= k < |list| ensures IsPart(env, uploads, list[k].number, list[k].etag) {
      assert Matches(s, list[k]);
      assert IsRecording(env, uploads, list[k].number, s.parts[list[k].number].ptLen, list[k].etag);
    }
    forall k | 0 <= k < |list| ensures snap.parts[k] == Sizes(PartsOf(env, uploads, list))[k] {
      assert IsRecording(env, uploads, list[k].number, s.parts[list[k].number].ptLen, list[k].etag);
    }
    SizeOfLast(snap.parts);
  }

  lemma {:induction false} SizeOfLast(parts: seq<PartSize>)
    requires |parts| > 0 && Ascending(parts)
    ensures SizeOf(parts, parts[|parts| - 1].number) == parts[|parts| - 1].ptLen
  {
    if |parts| > 1 {
      SizeOfLast(parts[1..]);
    }
  }

  // ---------------------------------------------------------------- the footer's place

  lemma NamesPrefix(env: Env, uploads: Uploads, list: seq<Listed>, n: nat)
    requires NamesParts(env, uploads, list) && n <= |list|
    ensures NamesParts(env, uploads, list[..n]) && PartsOf(env, uploads, list[..n]) == PartsOf(env, uploads, list)[..n]
  {
  }

  lemma {:induction false} BodiesOfParts(env: Env, uploads: Uploads, list: seq<Listed>)
    requires env.g.chunkSize > 0 && NamesParts(env, uploads, list)
    ensures AllStored(uploads, list) && Bodies(env.g, uploads, list) == ObjectCt(env.g, PartsOf(env, uploads, list))
  {
    hide Sealed, PartCt;
    if |list| > 0 {
      var n := |list| - 1;
      NamesPrefix(env, uploads, list, n);
      BodiesOfParts(env, uploads, list[..n]);
    }
  }

  /** Wherever the footer is placed, the final list names the parts' ciphertexts and then
      the footer. */
  lemma FinalBodies(env: Env, uploads: Uploads, list: seq<Listed>, tail: Option<Bytes>, sealed: Bytes, etag: ETag)
    requires env.g.chunkSize > 0 && |list| > 0 && NamesParts(env, uploads, list) && etag !in uploads
    requires tail.Some? ==> IsTail(env, uploads, list[|list| - 1].etag, tail.value)
    ensures var uploads' := uploads[etag := Own(if tail.Some? then tail.value + sealed else sealed)];
            var final := FinalList(list, tail.Some?, etag);
            && AllStored(uploads', final)
            && Bodies(env.g, uploads', final) == ObjectCt(env.g, PartsOf(env, uploads, list)) + sealed
  {
    hide NamesParts, IsTail, PartsOf, PartCt, ObjectCt, Bodies, AllStored;
    var stored := Own(if tail.Some? then tail.value + sealed else sealed);
    var uploads' := uploads[etag := stored];
    var final := FinalList(list, tail.Some?, etag);
    var n := |final| - 1;
    var front := final[..n];
    assert Grows(uploads, uploads');
    if tail.Some? {
      assert front == list[..n];
      NamesPrefix(env, uploads, list, n);
      BodiesOfParts(env, uploads, front);
      TailIsLast(env, uploads, list, tail.value);
      Associate(ObjectCt(env.g, PartsOf(env, uploads, front)), tail.value, sealed);
    } else {
      assert front == list;
      BodiesOfParts(env, uploads, list);
    }
    BodiesStay(env.g, uploads, uploads', front);
    BodiesSnoc(env.g, uploads', front, final[n]);
    assert final == front + [final[n]];
  }

  lemma BodiesSnoc(g: Geometry, uploads: Uploads, front: seq<Listed>, last: Listed)
    requires g.chunkSize > 0 && AllStored(uploads, front) && last.etag in uploads
    ensures AllStored(uploads, front + [last])
    ensures Bodies(g, uploads, front + [last]) == Bodies(g, uploads, front) + BytesOf(g, uploads[last.etag])
  {
    assert (front + [last])[..|front|] == front;
  }

  lemma TailIsLast(env: Env, uploads: Uploads, list: seq<Listed>, tail: Bytes)
    requires env.g.chunkSize > 0 && |list| > 0 && NamesParts(env, uploads, list)
    requires IsTail(env, uploads, list[|list| - 1].etag, tail)
    ensures var n := |list| - 1;
            NamesParts(env, uploads, list[..n])
            && ObjectCt(env.g, PartsOf(env, uploads, list)) == ObjectCt(env.g, PartsOf(env, uploads, list[..n])) + tail
  {
    hide Sealed, PartCt;
    NamesPrefix(env, uploads, list, |list| - 1);
  }

  lemma PlaceKeeps(env: Env, s: State, id: nat, nonces: Nonces, etag: ETag, s': State)
    requires ValidEnv(env) && GoodData(env, s) && PlacesFooter(env, s, id, nonces, etag, s')
    ensures GoodData(env, s')
  {
    hide GoodSession, GoodHeld, IsObject, GoodSnapshot, SealerOf, SealFooter, FinalList, Bodies, AllStored;
    var r := s.requests[id];
    assert GoodRequest(env, s.backend.uploads, r);
    var last := r.list[|r.list| - 1].number;
    var sealed := SealedFor(env, r.snap, nonces);
    var stored := Own(if r.snap.tail.Some? then r.snap.tail.value + sealed else sealed);
    StoreKeeps(env, s, if r.snap.tail.Some? then last else last + 1, etag, stored);
    PlacedIsObject(env, s.backend.uploads, r.list, r.snap, nonces, etag);
    assert GoodRequest(env, s'.backend.uploads, s'.requests[id]);
  }

  lemma PlacedIsObject(env: Env, uploads: Uploads, list: seq<Listed>, snap: Snapshot, nonces: Nonces, etag: ETag)
    requires ValidEnv(env) && GoodSnapshot(env, uploads, list, snap) && ValidNonces(env.g.alg, nonces) && etag !in uploads
    ensures var sealed := SealedFor(env, snap, nonces);
            var uploads' := uploads[etag := Own(if snap.tail.Some? then snap.tail.value + sealed else sealed)];
            var final := FinalList(list, snap.tail.Some?, etag);
            AllStored(uploads', final) && IsObject(env, uploads', list, Bodies(env.g, uploads', final))
  {
    hide IsTail, NamesParts, PartsOf, SealerOf, SealFooter, FinalList, Bodies, ObjectCt, CiphertextLen;
    var sealed := SealedFor(env, snap, nonces);
    var uploads' := uploads[etag := Own(if snap.tail.Some? then snap.tail.value + sealed else sealed)];
    FinalBodies(env, uploads, list, snap.tail, sealed, etag);
    PartsStay(env, uploads, uploads', list);
    var seal := SealerOf(env.aead, env.g.alg, env.key, FOOTER_PART_NUMBER, nonces);
    PairedStreams(env.aead, env.g.alg, env.key, FOOTER_PART_NUMBER, nonces);
    var final := FinalList(list, snap.tail.Some?, etag);
    assert HasFooter(env, seal, PartsOf(env, uploads', list), Bodies(env.g, uploads', final));
  }

  /** The bytes held under current ETags are the bodies those ETags name. */
  lemma {:induction false} HeldBodies(env: Env, b: Backend, list: seq<Listed>)
    requires env.g.chunkSize > 0 && GoodHeld(env, b) && Current(b.held, list)
    ensures AllStored(b.uploads, list) && Assembled(b.held, list) == Bodies(env.g, b.uploads, list)
  {
    if |list| > 0 {
      HeldBodies(env, b, list[..|list| - 1]);
    }
  }

  lemma AcceptKeeps(env: Env, s: State, id: nat, response: Response, s': State)
    requires env.g.chunkSize > 0 && GoodData(env, s) && Accepts(s, id, response, s')
    ensures GoodData(env, s')
  {
    hide GoodSession, IsObject, Assembled, Bodies;
    assert GoodRequest(env, s.backend.uploads, s.requests[id]);
    HeldBodies(env, s.backend, s.requests[id].final);
  }

  // ---------------------------------------------------------------- every step, every run

  lemma RequestKeeps(env: Env, s: State, e: Event, s': State)
    requires ValidEnv(env) && GoodData(env, s) && Step(env, s, e, s')
    requires e.BeginUpload? || e.Snap? || e.Claim? || e.Refuse? || e.Vanish?
    ensures GoodData(env, s')
  {
    hide IsObject, IsRecording, IsTail, GoodSnapshot, GoodHeld, TotalBytes, CiphertextLen;
    match e {
      case BeginUpload(_, _) =>
      case Snap(id, list) =>
        var last := ValidateClientParts(list).value;
        SnapKeeps(env, s.backend.uploads, s.session.value, list, last, SnapshotForComplete(s.session.value, list, last).value);
      case Claim(id) => assert GoodRequest(env, s.backend.uploads, s.requests[id]);
      case Refuse(_) =>
      case Vanish(id) => assert GoodRequest(env, s.backend.uploads, s.requests[id]);
    }
  }

  lemma SessionKeeps(env: Env, s: State, e: Event, s': State)
    requires ValidEnv(env) && GoodData(env, s) && Step(env, s, e, s')
    requires e.RecordPart? || e.Settle? || e.Fail? || e.Remove? || e.BackendAbort?
    ensures GoodData(env, s')
  {
    hide IsObject, IsRecording, IsTail, GoodSnapshot, GoodHeld, Recorded, TotalBytes;
    match e {
      case RecordPart(id) =>
        if s.session.Some? {
          var r := s.requests[id];
          RecordKeeps(env, s.backend.uploads, s.session.value, r.number, r.ptLen, r.etag, r.ct);
        }
      case Settle(_) => EmptyBuffer();
      case Fail(id) => assert GoodRequest(env, s.backend.uploads, s.requests[id]);
      case Remove =>
      case BackendAbort => NothingHeld(env, s.backend);
    }
  }

  lemma DataStep(env: Env, s: State, e: Event, s': State)
    requires ValidEnv(env) && GoodData(env, s) && Step(env, s, e, s')
    ensures GoodData(env, s')
  {
    hide GoodData, StoresPart, PlacesFooter, Accepts;
    match e {
      case StorePart(id, part, nonces, etag) => StorePartKeeps(env, s, id, part, nonces, etag, s');
      case PlaceFooter(id, nonces, etag) => PlaceKeeps(env, s, id, nonces, etag, s');
      case Accept(id, response) => AcceptKeeps(env, s, id, response, s');
      case _ =>
        if e.StrayPart? || e.StrayFooter? || e.StrayAccept? {
          StrayKeeps(env, s, e, s');
        } else if e.RecordPart? || e.Settle? || e.Fail? || e.Remove? || e.BackendAbort? {
          SessionKeeps(env, s, e, s');
        } else {
          RequestKeeps(env, s, e, s');
        }
    }
  }

  /** What a stray sent is as good as what a request sent. */
  lemma StrayKeeps(env: Env, s: State, e: Event, s': State)
    requires ValidEnv(env) && GoodData(env, s) && Step(env, s, e, s')
    requires e.StrayPart? || e.StrayFooter? || e.StrayAccept?
    ensures GoodData(env, s')
  {
    hide GoodSession, GoodRequest, GoodHeld, IsObject, StoresPart, PlacesFooter, Accepts;
    match e {
      case StrayPart(id, part, nonces, etag) =>
        var u :| StoresPart(env, Swapped(s), id, part, nonces, etag, u) && Strays(s, id, u, s');
        StorePartKeeps(env, Swapped(s), id, part, nonces, etag, u);
      case StrayFooter(id, nonces, etag) =>
        var u :| PlacesFooter(env, Swapped(s), id, nonces, etag, u) && Strays(s, id, u, s');
        PlaceKeeps(env, Swapped(s), id, nonces, etag, u);
      case StrayAccept(id, response) =>
        var u :| Accepts(Swapped(s), id, response, u) && Strays(s, id, u, s');
        AcceptKeeps(env, Swapped(s), id, response, u);
    }
  }

  lemma EmptyBuffer()
    ensures TotalBytes(map[]) == 0
  {
  }

  lemma NothingHeld(env: Env, b: Backend)
    requires env.g.chunkSize > 0
    ensures GoodHeld(env, b.(live := false, held := map[]))
  {
  }

  lemma HolderStep(env: Env, s: State, e: Event, s': State)
    requires ValidEnv(env) && OneHolder(s) && Step(env, s, e, s')
    ensures OneHolder(s')
  {
    hide SealedFor, FinalList, Assembled, PartCt, SnapshotForComplete, Kept, SealerOf, CiphertextLen, StrayStores, StrayPlaces, StrayAccepts,
         BytesOf, LastPartOk, ValidateClientParts, Current;
    if e.StrayPart? || e.StrayFooter? || e.StrayAccept? {
      StrayLeaves(env, s, e, s');
    }
  }

  /** It changes nothing at the node. */
  lemma StrayLeaves(env: Env, s: State, e: Event, s': State)
    requires ValidEnv(env) && Step(env, s, e, s') && (e.StrayPart? || e.StrayFooter? || e.StrayAccept?)
    ensures s'.session == s.session && s'.requests == s.requests
  {
    hide SealedFor, FinalList, Assembled, PartCt, SealerOf, CiphertextLen, BytesOf;
  }

  /** What holds in every state that any interleaving reaches. */
  lemma {:induction false} RunKeeps(env: Env, states: seq<State>, events: seq<Event>, i: nat)
    requires ValidEnv(env) && Run(env, states, events) && i < |states|
    ensures GoodData(env, states[i]) && OneHolder(states[i])
  {
    hide Step;
    if i == 0 {
      EmptyBuffer();
    } else {
      RunKeeps(env, states, events, i - 1);
      DataStep(env, states[i - 1], events[i - 1], states[i]);
      HolderStep(env, states[i - 1], events[i - 1], states[i]);
    }
  }

  // ---------------------------------------------------------------- the stored object

  /** Listed parts make a footer that can be sealed and read. */
  lemma NamedFooter(env: Env, uploads: Uploads, list: seq<Listed>)
    requires NamesParts(env, uploads, list)
    ensures var sizes := Sizes(PartsOf(env, uploads, list));
            WellFormed(FooterOf(env.g.alg, sizes, None)) && ClientNumbers(sizes)
  {
    hide Paired, PtTotal;
    var sizes := Sizes(PartsOf(env, uploads, list));
    forall k | 0 <= k < |list| ensures sizes[k].number == list[k].number && 1 <= sizes[k].number <= MAX_PART_NUMBER && sizes[k].ptLen < TWO_64 {
      assert IsPart(env, uploads, list[k].number, list[k].etag);
    }
    if |sizes| > 0 {
      NumbersGrow(sizes, |sizes| - 1);
    }
  }

  lemma NamedReadable(env: Env, uploads: Uploads, list: seq<Listed>)
    requires env.g.chunkSize > 0 && NamesParts(env, uploads, list)
    ensures Readable(env.g, Opens(env), PartsOf(env, uploads, list))
  {
    hide Paired, Opens;
    var parts := PartsOf(env, uploads, list);
    forall k | 0 <= k < |parts| ensures Paired(env.g.alg, parts[k].seal, Opens(env)(parts[k].number)) {
      assert IsPart(env, uploads, list[k].number, list[k].etag);
    }
  }

  /** In every run, an accepted Complete has stored the listed parts' ciphertexts in order
      and their sealed footer, and the object reads back, through trailer, footer, layout
      and part cursor, as the plaintexts of the listed parts. */
  lemma AcceptedObject(env: Env, states: seq<State>, events: seq<Event>, i: nat)
    requires ValidEnv(env) && Run(env, states, events) && i < |states| && states[i].backend.completion.Some?
    ensures var c := states[i].backend.completion.value;
            var uploads := states[i].backend.uploads;
            && NamesParts(env, uploads, c.list)
            && var parts := PartsOf(env, uploads, c.list);
            && (exists seal :: HasFooter(env, seal, parts, c.whole))
            && EndsWithFooter(env.g.alg, Opens(env)(FOOTER_PART_NUMBER), c.whole, FooterOf(env.g.alg, Sizes(parts), None))
            && PartsText(env.g, Opens(env), Sizes(parts), c.whole) == Some(ObjectPt(parts))
  {
    hide Step, Run, GoodSession, GoodRequests, GoodHeld, NamesParts, Opens, SealFooter, ObjectCt, ObjectPt, EndsWithFooter, PartsText;
    RunKeeps(env, states, events, i);
    var c, uploads := states[i].backend.completion.value, states[i].backend.uploads;
    var parts := PartsOf(env, uploads, c.list);
    var seal :| HasFooter(env, seal, parts, c.whole);
    NamedFooter(env, uploads, c.list);
    NamedReadable(env, uploads, c.list);
    CompletedReads(env.g, Opens(env), parts, None, seal);
  }

  /** A Complete that passed its checks merges the footer with the ciphertext of the very
      upload it lists last, or that upload is large enough for a part of its own to follow. */
  lemma FooterPlacement(env: Env, states: seq<State>, events: seq<Event>, i: nat, id: nat)
    requires ValidEnv(env) && Run(env, states, events) && i < |states| && id in states[i].requests
    requires states[i].requests[id].Snapped? || states[i].requests[id].Claimed?
    ensures var r := states[i].requests[id];
            var uploads := states[i].backend.uploads;
            && |r.list| > 0 && NamesParts(env, uploads, r.list)
            && var ct := PartCt(env.g, PartsOf(env, uploads, r.list)[|r.list| - 1]);
            if r.snap.tail.Some? then r.snap.tail.value == ct else |ct| >= MIN_PART_SIZE
  {
    hide Step, Run, GoodSession, GoodHeld, IsObject, PartCt, CiphertextLen, Paired;
    RunKeeps(env, states, events, i);
    var r, uploads := states[i].requests[id], states[i].backend.uploads;
    assert GoodRequest(env, uploads, r);
    var part := PartsOf(env, uploads, r.list)[|r.list| - 1];
    assert IsPart(env, uploads, r.list[|r.list| - 1].number, r.list[|r.list| - 1].etag);
    CtLength(env, part);
  }

  /** Buffered tails stay under the cap and belong to the recording of their number. */
  lemma BufferedTails(env: Env, states: seq<State>, events: seq<Event>, i: nat, n: nat)
    requires ValidEnv(env) && Run(env, states, events) && i < |states| && states[i].session.Some?
    ensures var s := states[i].session.value;
            && TotalBytes(s.tails) <= MAX_TAIL_BYTES
            && (n in s.tails ==> n in s.parts && IsTail(env, states[i].backend.uploads, s.parts[n].etag, s.tails[n]))
  {
    hide Step, Run, GoodHeld, IsObject, GoodRequests;
    RunKeeps(env, states, events, i);
  }

  lemma CompletionStep(env: Env, s: State, e: Event, s': State)
    requires ValidEnv(env) && Step(env, s, e, s') && (s.backend.completion.Some? ==> !s.backend.live)
    ensures s'.backend.completion.Some? ==> !s'.backend.live
    ensures s.backend.completion.Some? ==> s'.backend.completion == s.backend.completion
  {
    hide SealedFor, FinalList, Assembled, PartCt, SnapshotForComplete, Recorded, SealerOf, CiphertextLen;
  }

  /** An upload is completed at most once. */
  lemma {:induction false} CompletedOnce(env: Env, states: seq<State>, events: seq<Event>, i: nat, j: nat)
    requires ValidEnv(env) && Run(env, states, events) && i <= j < |states|
    ensures states[j].backend.completion.Some? ==> !states[j].backend.live
    ensures states[i].backend.completion.Some? ==> states[j].backend.completion == states[i].backend.completion
    decreases j
  {
    hide Step;
    if j > 0 {
      CompletedOnce(env, states, events, if i < j then i else j - 1, j - 1);
      CompletionStep(env, states[j - 1], events[j - 1], states[j]);
    }
  }

  // ---------------------------------------------------------------- claims and finished sessions

  /** In every run at most one Complete holds the claim. */
  lemma OneClaim(env: Env, states: seq<State>, events: seq<Event>, i: nat, id: nat, id': nat)
    requires ValidEnv(env) && Run(env, states, events) && i < |states|
    requires id in states[i].requests && id' in states[i].requests
    requires HoldsClaim(states[i].requests[id]) && HoldsClaim(states[i].requests[id'])
    ensures id == id'
  {
    RunKeeps(env, states, events, i);
  }

  /** What a Complete answers before it reads its body. */
  function EarlyAnswer(session: Option<SessionState>): Result<Option<Response>, CompleteError> {
    if session.None? then Err(NoSuchUpload) else Ok(session.value.completed)
  }

  lemma FinishedStep(env: Env, s: State, e: Event, s': State)
    requires ValidEnv(env) && OneHolder(s) && Step(env, s, e, s')
    requires s.session.None? || s.session.value.completed.Some?
    ensures s'.session == s.session || s'.session.None?
  {
    hide SealedFor, FinalList, Assembled, PartCt, SnapshotForComplete, Kept, SealerOf, CiphertextLen, StrayStores, StrayPlaces, StrayAccepts,
         BytesOf, LastPartOk, ValidateClientParts, Current;
    if e.StrayPart? || e.StrayFooter? || e.StrayAccept? {
      StrayLeaves(env, s, e, s');
    }
  }

  /** A finished session never changes again until it is removed, and once removed it does
      not come back: every later Complete gets the cached response or no upload at all. */
  lemma {:induction false} FinishedStays(env: Env, states: seq<State>, events: seq<Event>, i: nat, j: nat)
    requires ValidEnv(env) && Run(env, states, events) && i <= j < |states|
    requires states[i].session.Some? && states[i].session.value.completed.Some?
    ensures states[j].session == states[i].session || states[j].session.None?
    ensures EarlyAnswer(states[j].session) in {Ok(states[i].session.value.completed), Err(NoSuchUpload)}
    ensures var s := states[i].session.value;
            s.dek.None? && s.parts == map[] && s.tails == map[]
    decreases j
  {
    hide Step, GoodRequests, GoodHeld, IsObject;
    RunKeeps(env, states, events, i);
    if i < j {
      FinishedStays(env, states, events, i, j - 1);
      RunKeeps(env, states, events, j - 1);
      FinishedStep(env, states[j - 1], events[j - 1], states[j]);
    }
  }

  // ---------------------------------------------------------------- undisturbed completion

  /** The list that goes to the backend is current once the footer is stored. */
  lemma FinalIsCurrent(g: Geometry, b: Backend, list: seq<Listed>, merged: bool, etag: ETag, stored: Stored)
    requires g.chunkSize > 0 && |list| > 0 && AscendingList(list) && Current(b.held, list)
    ensures var last := list[|list| - 1].number;
            Current(Store(g, b, if merged then last else last + 1, etag, stored).held, FinalList(list, merged, etag))
  {
  }

  lemma FooterIsCurrent(env: Env, s: State, id: nat, nonces: Nonces, etag: ETag)
    requires env.g.chunkSize > 0 && id in s.requests && s.requests[id].Claimed? && |s.requests[id].list| > 0
    requires AscendingList(s.requests[id].list) && Current(s.backend.held, s.requests[id].list)
    ensures var s' := AfterFooter(env, s, id, nonces, etag);
            && s'.session == s.session && s'.backend.live == s.backend.live && id in s'.requests && s'.requests[id].Placed?
            && s'.requests[id].list == s.requests[id].list && Current(s'.backend.held, s'.requests[id].final)
            && (etag !in s.backend.uploads ==> Grows(s.backend.uploads, s'.backend.uploads))
  {
    hide SealedFor, FinalList, BytesOf;
    var r := s.requests[id];
    var merged, sealed := r.snap.tail.Some?, SealedFor(env, r.snap, nonces);
    FinalIsCurrent(env.g, s.backend, r.list, merged, etag, Own(if merged then r.snap.tail.value + sealed else sealed));
  }

  /** A Complete that holds the only claim and whose parts are still current ends with an
      accepted object and a finished session. */
  lemma UndisturbedCompletes(env: Env, s: State, id: nat, nonces: Nonces, etag: ETag, response: Response)
      returns (states: seq<State>)
    requires ValidEnv(env) && GoodData(env, s) && id in s.requests && s.requests[id].Snapped?
    requires s.session.Some? && s.session.value.completed.None? && !s.session.value.completing
    requires s.backend.live && Current(s.backend.held, s.requests[id].list)
    requires ValidNonces(env.g.alg, nonces) && etag !in s.backend.uploads
    ensures |states| == 5 && states[0] == s
    ensures Path(env, states, [Claim(id), PlaceFooter(id, nonces, etag), Accept(id, response), Settle(id)])
    ensures states[4].backend.completion.Some? && states[4].backend.completion.value.list == s.requests[id].list
    ensures EarlyAnswer(states[4].session) == Ok(Some(response)) && Grows(s.backend.uploads, states[4].backend.uploads)
  {
    hide GoodSession, GoodHeld, IsObject, AfterFooter, PartCt, Assembled, IsPart, IsTail, CiphertextLen;
    var r := s.requests[id];
    assert GoodRequest(env, s.backend.uploads, r);
    var s1 := s.(session := Some(s.session.value.(completing := true)), requests := s.requests[id := Claimed(r.list, r.snap)]);
    var s2 := AfterFooter(env, s1, id, nonces, etag);
    FooterIsCurrent(env, s1, id, nonces, etag);
    var final := s2.requests[id].final;
    var s3 := s2.(backend := s2.backend.(live := false, completion := Some(Completion(r.list, Assembled(s2.backend.held, final)))),
                  requests := s2.requests[id := Answered(Some(response))]);
    var s4 := s3.(session := Some(Finished(s3.session.value, response)), requests := s3.requests - {id});
    assert Step(env, s, Claim(id), s1);
    assert Step(env, s1, PlaceFooter(id, nonces, etag), s2);
    assert Step(env, s2, Accept(id, response), s3);
    assert Step(env, s3, Settle(id), s4);
    hide Step;
    states := [s, s1, s2, s3, s4];
  }
}
