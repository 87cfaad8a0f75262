/** What a session remembers of a run, which Completes get through, and that every upload
    can be completed. */
module UploadProgress {
  import opened Bytes
  import opened Cipher
  import opened SizeMath
  import opened MultipartObject
  import opened FooterCodec
  import opened SealedFooter
  import opened Session
  import opened Upload
  import opened UploadSafety

  // ---------------------------------------------------------------- what the events record

  /** A part and the ETag that the backend gave it. */
  datatype Sent = Sent(part: Part, etag: ETag)

  /** What a request last stored before step `i`. */
  function SentBy(events: seq<Event>, i: nat, id: nat): Option<Sent>
    requires i <= |events|
  {
    if i == 0 then None
    else if events[i - 1].StorePart? && events[i - 1].id == id then Some(Sent(events[i - 1].part, events[i - 1].etag))
    else SentBy(events, i - 1, id)
  }

  /** What step `k` records. */
  function RecordedAt(events: seq<Event>, k: nat): Option<Sent>
    requires k < |events|
  {
    if events[k].RecordPart? then SentBy(events, k, events[k].id) else None
  }

  /** The last step before `i` that records a part with this number. */
  function LastRecord(events: seq<Event>, i: nat, number: nat): (k: Option<nat>)
    requires i <= |events|
    ensures k.Some? ==> k.value < i && RecordedAt(events, k.value).Some? && RecordedAt(events, k.value).value.part.number == number
    ensures forall j :: (if k.Some? then k.value + 1 else 0) <= j < i && RecordedAt(events, j).Some? ==>
              RecordedAt(events, j).value.part.number != number
  {
    if i == 0 then None
    else
      var sent := RecordedAt(events, i - 1);
      if sent.Some? && sent.value.part.number == number then Some(i - 1) else LastRecord(events, i - 1, number)
  }

  ghost predicate Open(s: State) {
    s.session.Some? && s.session.value.completed.None?
  }

  predicate Small(g: Geometry, part: Part)
    requires g.chunkSize > 0
  {
    |PartCt(g, part)| < MIN_PART_SIZE
  }

  /** Step `k` buffers a part and finds that the entries from number `n` up do not fit. */
  ghost predicate Evicts(states: seq<State>, events: seq<Event>, k: nat, n: nat)
    requires k < |events| && k < |states|
  {
    && Open(states[k]) && events[k].RecordPart? && events[k].id in states[k].requests
    && var r := states[k].requests[events[k].id];
    && r.Recording? && r.ct.Some?
    && TotalBytes(From(states[k].session.value.tails[r.number := r.ct.value], n)) > MAX_TAIL_BYTES
  }

  /** A request that is about to record holds what it stored. */
  ghost predicate Remembers(env: Env, r: Request, sent: Option<Sent>)
    requires env.g.chunkSize > 0
  {
    r.Recording? ==>
      && sent.Some? && r.number == sent.value.part.number && r.ptLen == |sent.value.part.pt| && r.etag == sent.value.etag
      && r.ct == if Small(env.g, sent.value.part) then Some(PartCt(env.g, sent.value.part)) else None
  }

  lemma RemembersStep(env: Env, s: State, e: Event, s': State, id: nat, before: Option<Sent>)
    requires ValidEnv(env) && GoodData(env, s) && Step(env, s, e, s') && id in s'.requests
    requires id in s.requests ==> Remembers(env, s.requests[id], before)
    ensures Remembers(env, s'.requests[id], if e.StorePart? && e.id == id then Some(Sent(e.part, e.etag)) else before)
  {
    hide GoodData, SealedFor, FinalList, Assembled, PartCt, SnapshotForComplete, Recorded, SealerOf, CiphertextLen, StrayStores,
         StrayPlaces, StrayAccepts, LastPartOk, ValidateClientParts, Current, Store;
    if e.StrayPart? || e.StrayFooter? || e.StrayAccept? {
      StrayLeaves(env, s, e, s');
    } else if e.StorePart? && e.id == id {
      StoredSize(env, s, e.id, e.part, e.nonces, e.etag, s');
    }
  }

  lemma StoredSize(env: Env, s: State, id: nat, part: Part, nonces: Nonces, etag: ETag, s': State)
    requires ValidEnv(env) && GoodData(env, s) && StoresPart(env, s, id, part, nonces, etag, s')
    ensures |PartCt(env.g, part)| == CiphertextLen(env.g.alg, |part.pt|, env.g.chunkSize)
  {
    hide GoodSession, GoodHeld, IsObject, SealerOf, PartCt, CiphertextLen;
    assert GoodRequest(env, s.backend.uploads, s.requests[id]);
    PairedStreams(env.aead, env.g.alg, env.key, part.number, nonces);
    assert Opens(env)(part.number) == OpenerOf(env.aead, env.g.alg, env.key, part.number);
    CtLength(env, part);
  }

  lemma {:induction false} RunRemembers(env: Env, states: seq<State>, events: seq<Event>, i: nat, id: nat)
    requires ValidEnv(env) && Run(env, states, events) && i < |states| && id in states[i].requests
    ensures Remembers(env, states[i].requests[id], SentBy(events, i, id))
  {
    hide Step, Remembers, GoodData;
    if i > 0 {
      RunKeeps(env, states, events, i - 1);
      if id in states[i - 1].requests {
        RunRemembers(env, states, events, i - 1, id);
      }
      RemembersStep(env, states[i - 1], events[i - 1], states[i], id, SentBy(events, i - 1, id));
    }
  }

  // ---------------------------------------------------------------- what the session holds

  /** Only recording changes the parts of a session that stays open. */
  lemma OthersLeave(env: Env, s: State, e: Event, s': State)
    requires ValidEnv(env) && OneHolder(s) && Step(env, s, e, s') && Open(s')
    ensures Open(s)
    ensures !e.RecordPart? ==> s'.session.value.parts == s.session.value.parts && s'.session.value.tails == s.session.value.tails
  {
    hide SealedFor, FinalList, Assembled, PartCt, SnapshotForComplete, Recorded, SealerOf, CiphertextLen, StrayStores, StrayPlaces,
         StrayAccepts, BytesOf, LastPartOk, ValidateClientParts, Current;
    if e.StrayPart? || e.StrayFooter? || e.StrayAccept? {
      StrayLeaves(env, s, e, s');
    }
    if !Open(s) {
      FinishedStep(env, s, e, s');
    }
  }

  /** The record and the buffered ciphertext of a number, as the last upload recorded for it
      left them: `evicted` says whether the buffer has since dropped it. */
  ghost predicate HoldsLast(g: Geometry, s: SessionState, n: nat, last: Option<Sent>, evicted: bool)
    requires g.chunkSize > 0
  {
    match last
    case None => n !in s.parts && n !in s.tails
    case Some(Sent(part, etag)) =>
      && n in s.parts && s.parts[n] == PartRecord(|part.pt|, etag)
      && (n in s.tails <==> Small(g, part) && !evicted) && (n in s.tails ==> s.tails[n] == PartCt(g, part))
  }

  /** One recording: its own number holds it, and other numbers lose at most their place in
      the buffer. */
  lemma RecordingHolds(g: Geometry, s: SessionState, sent: Sent, ct: Option<Bytes>, n: nat, last: Option<Sent>, evicted: bool)
    requires g.chunkSize > 0 && s.completed.None? && HoldsLast(g, s, n, last, evicted)
    requires ct == if Small(g, sent.part) then Some(PartCt(g, sent.part)) else None
    ensures var s' := Recorded(s, sent.part.number, |sent.part.pt|, sent.etag, ct);
            var evicts := ct.Some? && TotalBytes(From(s.tails[sent.part.number := ct.value], n)) > MAX_TAIL_BYTES;
            HoldsLast(g, s', n, if n == sent.part.number then Some(sent) else last,
                      evicts || (n != sent.part.number && evicted))
  {
    hide TotalBytes, PartCt, Small;
  }

  ghost predicate EvictedSince(states: seq<State>, events: seq<Event>, j: nat, i: nat, n: nat)
    requires i <= |events| && i <= |states|
  {
    exists k :: j <= k < i && Evicts(states, events, k, n)
  }

  function LastUpload(events: seq<Event>, i: nat, n: nat): Option<Sent>
    requires i <= |events|
  {
    var k := LastRecord(events, i, n);
    if k.None? then None else RecordedAt(events, k.value)
  }

  ghost predicate Evicted(states: seq<State>, events: seq<Event>, i: nat, n: nat)
    requires i <= |events| && i <= |states|
  {
    var k := LastRecord(events, i, n);
    k.Some? && EvictedSince(states, events, k.value, i, n)
  }

  /** In every run, an open session holds for each number the size and ETag of the last part
      recorded for it, and that part's ciphertext if it is small and was not evicted since. */
  lemma {:induction false} RecordsAreLast(env: Env, states: seq<State>, events: seq<Event>, i: nat, n: nat)
    requires ValidEnv(env) && Run(env, states, events) && i < |states| && Open(states[i])
    ensures HoldsLast(env.g, states[i].session.value, n, LastUpload(events, i, n), Evicted(states, events, i, n))
  {
    hide Step, HoldsLast, GoodData, Recorded, Evicts, Remembers;
    if i == 0 {
      StartHolds(env, n);
    } else {
      RunKeeps(env, states, events, i - 1);
      OthersLeave(env, states[i - 1], events[i - 1], states[i]);
      RecordsAreLast(env, states, events, i - 1, n);
      if events[i - 1].RecordPart? {
        RecordsNext(env, states, events, i);
        RunRemembers(env, states, events, i - 1, events[i - 1].id);
        RecordStep(env, states, events, i, n);
      } else {
        assert RecordedAt(events, i - 1) == None;
        NoEviction(states, events, i, n);
        SameHolds(env.g, states[i - 1].session.value, states[i].session.value, n, LastUpload(events, i, n), Evicted(states, events, i, n));
      }
    }
  }

  lemma RecordsNext(env: Env, states: seq<State>, events: seq<Event>, i: nat)
    requires ValidEnv(env) && Path(env, states, events) && 0 < i < |states| && events[i - 1].RecordPart?
    ensures RecordsPart(states[i - 1], events[i - 1].id, states[i])
  {
    assert Step(env, states[i - 1], events[i - 1], states[i]);
  }

  lemma StartHolds(env: Env, n: nat)
    requires env.g.chunkSize > 0
    ensures HoldsLast(env.g, Start(env).session.value, n, None, false)
  {
  }

  lemma SameHolds(g: Geometry, s: SessionState, s': SessionState, n: nat, last: Option<Sent>, evicted: bool)
    requires g.chunkSize > 0 && HoldsLast(g, s, n, last, evicted) && s'.parts == s.parts && s'.tails == s.tails
    ensures HoldsLast(g, s', n, last, evicted)
  {
  }

  lemma NoEviction(states: seq<State>, events: seq<Event>, i: nat, n: nat)
    requires 0 < i <= |events| && i <= |states| && !events[i - 1].RecordPart?
    ensures Evicted(states, events, i, n) == Evicted(states, events, i - 1, n)
  {
    assert !Evicts(states, events, i - 1, n);
    assert LastRecord(events, i, n) == LastRecord(events, i - 1, n);
  }

  lemma RecordStep(env: Env, states: seq<State>, events: seq<Event>, i: nat, n: nat)
    requires ValidEnv(env) && 0 < i < |states| && i <= |events| && events[i - 1].RecordPart?
    requires RecordsPart(states[i - 1], events[i - 1].id, states[i]) && Open(states[i - 1])
    requires Remembers(env, states[i - 1].requests[events[i - 1].id], SentBy(events, i - 1, events[i - 1].id))
    requires HoldsLast(env.g, states[i - 1].session.value, n, LastUpload(events, i - 1, n), Evicted(states, events, i - 1, n))
    ensures HoldsLast(env.g, states[i].session.value, n, LastUpload(events, i, n), Evicted(states, events, i, n))
  {
    hide HoldsLast, Recorded, TotalBytes, Small, PartCt;
    var s, r := states[i - 1].session.value, states[i - 1].requests[events[i - 1].id];
    var sent := RecordedAt(events, i - 1).value;
    RecordingHolds(env.g, s, sent, r.ct, n, LastUpload(events, i - 1, n), Evicted(states, events, i - 1, n));
    var evicts := Evicts(states, events, i - 1, n);
    if n == r.number {
      assert LastRecord(events, i, n) == Some(i - 1);
      assert EvictedSince(states, events, i - 1, i, n) <==> evicts;
    } else {
      EvictionGrows(states, events, i, n);
      IgnoresEviction(env.g, states[i].session.value, n, Evicted(states, events, i, n), evicts || Evicted(states, events, i - 1, n));
    }
  }

  lemma EvictionGrows(states: seq<State>, events: seq<Event>, i: nat, n: nat)
    requires 0 < i <= |events| && i <= |states|
    requires RecordedAt(events, i - 1).Some? && RecordedAt(events, i - 1).value.part.number != n
    ensures LastRecord(events, i, n) == LastRecord(events, i - 1, n)
    ensures LastRecord(events, i, n).Some? ==>
              (Evicted(states, events, i, n) <==> Evicts(states, events, i - 1, n) || Evicted(states, events, i - 1, n))
  {
    hide Evicts;
  }

  lemma IgnoresEviction(g: Geometry, s: SessionState, n: nat, a: bool, b: bool)
    requires g.chunkSize > 0
    ensures HoldsLast(g, s, n, None, a) == HoldsLast(g, s, n, None, b)
  {
  }

  // ---------------------------------------------------------------- right after a recording

  /** Right after a part was recorded, a Complete may list it under the ETag that the
      backend gave it last, and what it may list of other numbers is as before. */
  lemma RecordedMatches(env: Env, s: State, id: nat, s': State, l: Listed)
    requires ValidEnv(env) && RecordsPart(s, id, s') && Open(s)
    ensures var r := s.requests[id];
            && Matches(s'.session.value, Listed(r.number, r.etag))
            && Matches(s'.session.value, l) == if l.number == r.number then l.etag == r.etag else Matches(s.session.value, l)
  {
    hide Kept;
  }

  // ---------------------------------------------------------------- which Completes get through

  /** The listed ETags are those of the last uploads recorded under the listed numbers. */
  ghost predicate ListsLast(events: seq<Event>, i: nat, list: seq<Listed>)
    requires i <= |events|
  {
    forall k :: 0 <= k < |list| ==>
      LastUpload(events, i, list[k].number).Some? && LastUpload(events, i, list[k].number).value.etag == list[k].etag
  }

  /** In every state of every run, a Complete passes its checks on an open session exactly
      when its list is non-empty and ascending, names the last upload recorded for each
      number, and ends with an upload that has at least 5 MiB or is still buffered. */
  lemma SnapExact(env: Env, states: seq<State>, events: seq<Event>, i: nat, id: nat, list: seq<Listed>)
    requires ValidEnv(env) && Run(env, states, events) && i < |states| && Open(states[i])
    requires id !in states[i].requests && id !in states[i].strays
    ensures (exists s' :: Step(env, states[i], Snap(id, list), s')) <==>
              && |list| > 0 && AscendingList(list) && ListsLast(events, i, list)
              && var last := list[|list| - 1].number;
              !Small(env.g, LastUpload(events, i, last).value.part) || last in states[i].session.value.tails
  {
    hide GoodData, LastUpload, HoldsLast, Small, CiphertextLen, LastPartOk;
    var s := states[i].session.value;
    MatchesLast(env, states, events, i, list);
    if |list| > 0 && AscendingList(list) && ListsLast(events, i, list) {
      SnapsIf(env, states, events, i, id, list);
    } else if |list| > 0 && AscendingList(list) {
      var k :| 0 <= k < |list| && !Matches(s, list[k]);
      assert SnapshotForComplete(s, list, list[|list| - 1].number).Err?;
    }
  }

  /** What the checks of a Complete object to. */
  function Refusal(g: Geometry, s: SessionState, list: seq<Listed>): Option<CompleteError>
    requires g.chunkSize > 0
  {
    match ValidateClientParts(list)
    case Err(e) => Some(e)
    case Ok(last) =>
      match SnapshotForComplete(s, list, last)
      case Err(e) => Some(e)
      case Ok(snap) => if LastPartOk(g, snap, last) then None else Some(InvalidPart)
  }

  /** A Complete that does not pass on an open session is told that its order is wrong, if it
      is, and otherwise that some part is. */
  lemma RefusalExact(env: Env, states: seq<State>, events: seq<Event>, i: nat, id: nat, list: seq<Listed>)
    requires ValidEnv(env) && Run(env, states, events) && i < |states| && Open(states[i])
    requires id !in states[i].requests && id !in states[i].strays
    ensures var refusal := Refusal(env.g, states[i].session.value, list);
            && (refusal == None <==> exists s' :: Step(env, states[i], Snap(id, list), s'))
            && (refusal.Some? ==> refusal.value == if AscendingList(list) then InvalidPart else InvalidPartOrder)
  {
    hide GoodRequests, GoodHeld, IsObject, LastPartOk, TotalBytes, IsRecording, IsTail;
    RunKeeps(env, states, events, i);
    var s := states[i].session.value;
    if Refusal(env.g, s, list) == None {
      var last := ValidateClientParts(list).value;
      var snap := SnapshotForComplete(s, list, last).value;
      assert Step(env, states[i], Snap(id, list), states[i].(requests := states[i].requests[id := Snapped(list, snap)]));
    }
  }

  lemma MatchesLast(env: Env, states: seq<State>, events: seq<Event>, i: nat, list: seq<Listed>)
    requires ValidEnv(env) && Run(env, states, events) && i < |states| && Open(states[i])
    ensures ListsLast(events, i, list) <==> forall k :: 0 <= k < |list| ==> Matches(states[i].session.value, list[k])
  {
    hide Step, LastUpload, Evicted, Small;
    var s := states[i].session.value;
    forall k | 0 <= k < |list|
      ensures Matches(s, list[k]) <==>
              LastUpload(events, i, list[k].number).Some? && LastUpload(events, i, list[k].number).value.etag == list[k].etag
    {
      RecordsAreLast(env, states, events, i, list[k].number);
    }
  }

  lemma SnapsIf(env: Env, states: seq<State>, events: seq<Event>, i: nat, id: nat, list: seq<Listed>)
    requires ValidEnv(env) && Run(env, states, events) && i < |states| && Open(states[i])
    requires id !in states[i].requests && id !in states[i].strays
    requires |list| > 0 && AscendingList(list) && ListsLast(events, i, list)
    ensures var last := list[|list| - 1].number;
            (exists s' :: Step(env, states[i], Snap(id, list), s'))
            <==> !Small(env.g, LastUpload(events, i, last).value.part) || last in states[i].session.value.tails
  {
    hide LastUpload, Evicted, GoodRequests, GoodHeld, IsObject, CiphertextLen, PartCt, TotalBytes, IsTail;
    var s, last := states[i].session.value, list[|list| - 1].number;
    RunKeeps(env, states, events, i);
    MatchesLast(env, states, events, i, list);
    RecordsAreLast(env, states, events, i, last);
    var snap := SnapshotForComplete(s, list, last).value;
    SizeOfLast(snap.parts);
    var part := LastUpload(events, i, last).value.part;
    LastSize(env, states, events, i, last);
    var s' := states[i].(requests := states[i].requests[id := Snapped(list, snap)]);
    assert LastPartOk(env.g, snap, last) <==> !Small(env.g, part) || last in s.tails;
    assert LastPartOk(env.g, snap, last) ==> Step(env, states[i], Snap(id, list), s');
  }

  /** The length that the check computes is the length of the ciphertext. */
  lemma LastSize(env: Env, states: seq<State>, events: seq<Event>, i: nat, n: nat)
    requires ValidEnv(env) && Run(env, states, events) && i < |states| && LastUpload(events, i, n).Some?
    ensures var part := LastUpload(events, i, n).value.part;
            |PartCt(env.g, part)| == CiphertextLen(env.g.alg, |part.pt|, env.g.chunkSize)
  {
    var k := LastRecord(events, i, n).value;
    SentSize(env, states, events, k, events[k].id);
  }

  lemma {:induction false} SentSize(env: Env, states: seq<State>, events: seq<Event>, i: nat, id: nat)
    requires ValidEnv(env) && Run(env, states, events) && i <= |events| && SentBy(events, i, id).Some?
    ensures var part := SentBy(events, i, id).value.part;
            |PartCt(env.g, part)| == CiphertextLen(env.g.alg, |part.pt|, env.g.chunkSize)
  {
    hide StoresPart, GoodData, PartCt, CiphertextLen;
    if events[i - 1].StorePart? && events[i - 1].id == id {
      RunKeeps(env, states, events, i - 1);
      var e := events[i - 1];
      assert Step(env, states[i - 1], e, states[i]);
      StoredSize(env, states[i - 1], e.id, e.part, e.nonces, e.etag, states[i]);
    } else {
      SentSize(env, states, events, i - 1, id);
    }
  }

  // ---------------------------------------------------------------- the highest numbers

  /** The recorded numbers above `n`. */
  function Above(s: SessionState, n: nat): set<nat> {
    set m | m in s.parts && m > n
  }

  lemma {:induction false} StaysRecorded(events: seq<Event>, k: nat, i: nat, n: nat)
    requires k <= i <= |events| && LastRecord(events, k, n).Some?
    ensures LastRecord(events, i, n).Some?
    decreases i
  {
    if k < i {
      StaysRecorded(events, k, i - 1, n);
    }
  }

  lemma {:induction false} WasOpen(env: Env, states: seq<State>, events: seq<Event>, k: nat, i: nat)
    requires ValidEnv(env) && Run(env, states, events) && k <= i < |states| && Open(states[i])
    ensures Open(states[k])
    decreases i
  {
    hide Step, GoodData;
    if k < i {
      RunKeeps(env, states, events, i - 1);
      OthersLeave(env, states[i - 1], events[i - 1], states[i]);
      WasOpen(env, states, events, k, i - 1);
    }
  }

  /** A record is never lost while the session is open. */
  lemma PartsGrow(env: Env, states: seq<State>, events: seq<Event>, k: nat, i: nat)
    requires ValidEnv(env) && Run(env, states, events) && k <= i < |states| && Open(states[k]) && Open(states[i])
    ensures states[k].session.value.parts.Keys <= states[i].session.value.parts.Keys
  {
    hide Step, Evicted, Small;
    forall n | n in states[k].session.value.parts ensures n in states[i].session.value.parts {
      RecordsAreLast(env, states, events, k, n);
      StaysRecorded(events, k, i, n);
      RecordsAreLast(env, states, events, i, n);
    }
  }

  lemma Counted(a: set<nat>, b: set<nat>)
    requires a <= b
    ensures |a| <= |b|
  {
    assert b == a + (b - a);
  }

  /** Entries from `n` up that do not fit are at least three more than `n` itself. */
  lemma OverflowAbove(m: map<nat, Bytes>, n: nat)
    requires (forall j :: j in m ==> |m[j]| < MIN_PART_SIZE) && TotalBytes(From(m, n)) > MAX_TAIL_BYTES
    ensures |From(m, n + 1)| >= 3
  {
    hide TotalBytes;
    TotalOfSmall(From(m, n));
    if n in m {
      CountFrom(m, n);
    } else {
      assert From(m, n) == From(m, n + 1);
    }
  }

  lemma EvictionAbove(env: Env, states: seq<State>, events: seq<Event>, k: nat, i: nat, n: nat)
    requires ValidEnv(env) && Run(env, states, events) && k < i < |states| && Open(states[i]) && Evicts(states, events, k, n)
    ensures |Above(states[i].session.value, n)| >= 3
  {
    hide GoodHeld, IsObject, IsRecording, TotalBytes, PartCt, Kept, CiphertextLen, Step;
    RunKeeps(env, states, events, k);
    var s, r := states[k].session.value, states[k].requests[events[k].id];
    assert GoodRequest(env, states[k].backend.uploads, r);
    var buffer := s.tails[r.number := r.ct.value];
    OverflowAbove(buffer, n);
    RecordsNext(env, states, events, k + 1);
    WasOpen(env, states, events, k + 1, i);
    PartsGrow(env, states, events, k + 1, i);
    var held := From(buffer, n + 1).Keys;
    assert held <= Above(states[i].session.value, n) by {
      assert forall m :: m in buffer ==> m in states[k + 1].session.value.parts;
    }
    Counted(held, Above(states[i].session.value, n));
  }

  /** In every run, a small part stays buffered as long as fewer than three higher numbers
      are recorded. */
  lemma HighStaysBuffered(env: Env, states: seq<State>, events: seq<Event>, i: nat, n: nat)
    requires ValidEnv(env) && Run(env, states, events) && i < |states| && Open(states[i])
    requires LastUpload(events, i, n).Some? && Small(env.g, LastUpload(events, i, n).value.part)
    requires |Above(states[i].session.value, n)| < 3
    ensures n in states[i].session.value.tails
  {
    hide Step, Small, Evicts, PartCt, Above;
    RecordsAreLast(env, states, events, i, n);
    if Evicted(states, events, i, n) {
      var k :| LastRecord(events, i, n).value <= k < i && Evicts(states, events, k, n);
      EvictionAbove(env, states, events, k, i, n);
    }
  }

  /** So a Complete that lists the last uploads and leaves out fewer than three numbers above
      its own last one always passes its checks. */
  lemma HighestPasses(env: Env, states: seq<State>, events: seq<Event>, i: nat, id: nat, list: seq<Listed>)
    requires ValidEnv(env) && Run(env, states, events) && i < |states| && Open(states[i])
    requires id !in states[i].requests && id !in states[i].strays
    requires |list| > 0 && AscendingList(list) && ListsLast(events, i, list)
    requires |Above(states[i].session.value, list[|list| - 1].number)| < 3
    ensures exists s' :: Step(env, states[i], Snap(id, list), s')
  {
    hide Step, LastUpload, Small, Above;
    var last := list[|list| - 1].number;
    SnapExact(env, states, events, i, id, list);
    if Small(env.g, LastUpload(events, i, last).value.part) {
      HighStaysBuffered(env, states, events, i, last);
    }
  }

  // ---------------------------------------------------------------- when a request can go on

  /** An UploadPart can begin whenever the session is open and the number is permitted, and
      goes on as long as the backend stores new parts; nothing else stands in its way. */
  lemma UploadGoesOn(env: Env, states: seq<State>, events: seq<Event>, i: nat, id: nat, number: nat, part: Part, nonces: Nonces, etag: ETag)
    requires ValidEnv(env) && Run(env, states, events) && i < |states|
    ensures var s := states[i];
            (exists s' :: Step(env, s, BeginUpload(id, number), s'))
            <==> id !in s.requests && id !in s.strays && 1 <= number <= MAX_PART_NUMBER && Open(s)
    ensures var s := states[i];
            (exists s' :: Step(env, s, StorePart(id, part, nonces, etag), s'))
            <==> && id in s.requests && s.requests[id].Encrypting? && s.backend.live && etag !in s.backend.uploads
                 && PreparedPart(env, part, nonces) && part.number == s.requests[id].number
    ensures var s := states[i]; (exists s' :: Step(env, s, RecordPart(id), s')) <==> id in s.requests && s.requests[id].Recording?
  {
    hide GoodHeld, IsObject, PartCt, SealerOf, CiphertextLen, Recorded, IsRecording, IsTail, TotalBytes, BytesOf;
    RunKeeps(env, states, events, i);
    var s := states[i];
    if s.session.Some? && s.session.value.dek.Some? {
      var s' := s.(requests := s.requests[id := Encrypting(number, s.session.value.dek.value)]);
      assert Step(env, s, BeginUpload(id, number), s') <==> BeginsUpload(s, id, number, s');
    }
    if id in s.requests {
      var r := s.requests[id];
      assert GoodRequest(env, s.backend.uploads, r);
      var ct := if CiphertextLen(env.g.alg, |part.pt|, env.g.chunkSize) < MIN_PART_SIZE then Some(PartCt(env.g, part)) else None;
      var stored := s.(backend := Store(env.g, s.backend, part.number, etag, ClientPart(part)),
                       requests := s.requests[id := Recording(part.number, |part.pt|, etag, ct)]);
      assert Step(env, s, StorePart(id, part, nonces, etag), stored) <==> StoresPart(env, s, id, part, nonces, etag, stored);
      if r.Recording? {
        var recorded := s.(session := if s.session.None? then None
                                      else Some(Recorded(s.session.value, r.number, r.ptLen, r.etag, r.ct)),
                           requests := s.requests - {id});
        assert Step(env, s, RecordPart(id), recorded);
      }
    }
  }

  /** A Complete whose checks passed can claim whenever the session is open and not claimed,
      can store its footer as long as the backend takes parts, and succeeds exactly when its
      list is current then. */
  lemma CompleteGoesOn(env: Env, states: seq<State>, events: seq<Event>, i: nat, id: nat, nonces: Nonces, etag: ETag, response: Response)
    requires ValidEnv(env) && Run(env, states, events) && i < |states| && id in states[i].requests
    ensures var s := states[i];
            (exists s' :: Step(env, s, Claim(id), s')) <==> s.requests[id].Snapped? && Open(s) && !s.session.value.completing
    ensures var s := states[i];
            (exists s' :: Step(env, s, PlaceFooter(id, nonces, etag), s'))
            <==> s.requests[id].Claimed? && s.backend.live && etag !in s.backend.uploads && ValidNonces(env.g.alg, nonces)
    ensures var s := states[i];
            (exists s' :: Step(env, s, Accept(id, response), s'))
            <==> s.requests[id].Placed? && s.backend.live && Current(s.backend.held, s.requests[id].final)
  {
    hide GoodHeld, IsObject, GoodSession, AfterFooter, IsTail, IsPart, CiphertextLen, Assembled, ValidNonces, AllStored, Bodies, Current;
    RunKeeps(env, states, events, i);
    var s := states[i];
    var r := s.requests[id];
    assert GoodRequest(env, s.backend.uploads, r);
    if r.Snapped? && s.session.Some? {
      var claimed := s.(session := Some(s.session.value.(completing := true)), requests := s.requests[id := Claimed(r.list, r.snap)]);
      assert Step(env, s, Claim(id), claimed) <==> Claims(s, id, claimed);
    }
    if r.Claimed? {
      var placed := AfterFooter(env, s, id, nonces, etag);
      assert Step(env, s, PlaceFooter(id, nonces, etag), placed) <==> PlacesFooter(env, s, id, nonces, etag, placed);
    }
    if r.Placed? && Current(s.backend.held, r.final) {
      var accepted := s.(backend := s.backend.(live := false, completion := Some(Completion(r.list, Assembled(s.backend.held, r.final)))),
                         requests := s.requests[id := Answered(Some(response))]);
      assert Step(env, s, Accept(id, response), accepted) <==> Accepts(s, id, response, accepted);
    }
  }

  // ---------------------------------------------------------------- claims are given back

  ghost predicate SomeClaim(s: State) {
    exists id :: id in s.requests && HoldsClaim(s.requests[id])
  }

  /** A cancellation, between two steps, of a Complete that holds the claim. */
  predicate Loses(s: State, e: Event) {
    e.Vanish? && e.id in s.requests && HoldsClaim(s.requests[e.id])
  }

  lemma ClaimStep(env: Env, s: State, e: Event, s': State)
    requires ValidEnv(env) && OneHolder(s) && Step(env, s, e, s') && !Loses(s, e) && Open(s')
    requires Open(s) && s.session.value.completing ==> SomeClaim(s)
    ensures s'.session.value.completing ==> SomeClaim(s')
  {
    hide SealedFor, FinalList, Assembled, PartCt, SnapshotForComplete, Kept, SealerOf, CiphertextLen, StrayStores, StrayPlaces,
         StrayAccepts, BytesOf, LastPartOk, ValidateClientParts, Current;
    OthersLeave(env, s, e, s');
    if e.StrayPart? || e.StrayFooter? || e.StrayAccept? {
      StrayLeaves(env, s, e, s');
    } else if s.session.value.completing && s'.session.value.completing {
      var id :| id in s.requests && HoldsClaim(s.requests[id]);
      assert id in s'.requests && HoldsClaim(s'.requests[id]);
    } else if e.Claim? {
      assert HoldsClaim(s'.requests[e.id]);
    }
  }

  lemma StuckStep(env: Env, s: State, e: Event, s': State)
    requires ValidEnv(env) && OneHolder(s) && Step(env, s, e, s') && Open(s')
    requires Open(s) && s.session.value.completing && !SomeClaim(s)
    ensures s'.session.value.completing && !SomeClaim(s')
  {
    hide SealedFor, FinalList, Assembled, PartCt, SnapshotForComplete, Kept, SealerOf, CiphertextLen, StrayStores, StrayPlaces,
         StrayAccepts, BytesOf, LastPartOk, ValidateClientParts, Current;
    if e.StrayPart? || e.StrayFooter? || e.StrayAccept? {
      StrayLeaves(env, s, e, s');
    }
  }

  lemma LosingStep(env: Env, s: State, e: Event, s': State)
    requires ValidEnv(env) && OneHolder(s) && Step(env, s, e, s') && Open(s) && Loses(s, e)
    ensures Open(s') && s'.session.value.completing && !SomeClaim(s')
  {
  }

  ghost predicate WasLost(states: seq<State>, events: seq<Event>, i: nat)
    requires i <= |events| && i <= |states|
  {
    exists k :: 0 <= k < i && Loses(states[k], events[k])
  }

  /** In every run, an open session is claimed exactly while some Complete holds the claim, or
      once one was cancelled that did. So refusals and errors give the claim back, and the
      claim of a cancelled Complete stays, and keeps others from claiming, as long as the
      session does. */
  lemma {:induction false} ClaimExact(env: Env, states: seq<State>, events: seq<Event>, i: nat)
    requires ValidEnv(env) && Run(env, states, events) && i < |states| && Open(states[i])
    ensures states[i].session.value.completing <==> SomeClaim(states[i]) || WasLost(states, events, i)
    ensures WasLost(states, events, i) ==> !SomeClaim(states[i])
  {
    hide Step, GoodData, Loses, SomeClaim;
    RunKeeps(env, states, events, i);
    if i == 0 {
      NoClaims(env);
    } else {
      var s, e, s' := states[i - 1], events[i - 1], states[i];
      WasOpen(env, states, events, i - 1, i);
      ClaimExact(env, states, events, i - 1);
      RunKeeps(env, states, events, i - 1);
      HeldIsClaimed(s');
      if Loses(s, e) {
        LosingStep(env, s, e, s');
      } else if WasLost(states, events, i - 1) {
        StuckStep(env, s, e, s');
      } else {
        ClaimStep(env, s, e, s');
      }
    }
  }

  lemma NoClaims(env: Env)
    ensures !SomeClaim(Start(env)) && !Start(env).session.value.completing
  {
  }

  lemma HeldIsClaimed(s: State)
    requires OneHolder(s) && Open(s)
    ensures SomeClaim(s) ==> s.session.value.completing
  {
  }

  // ---------------------------------------------------------------- every upload can be completed

  /** Parts with ascending numbers, each sealed under the upload's key. */
  ghost predicate Prepared(env: Env, parts: seq<Part>, nonces: seq<Nonces>) {
    && |nonces| == |parts| && (forall i, j :: 0 <= i < j < |parts| ==> parts[i].number < parts[j].number)
    && forall k :: 0 <= k < |parts| ==> PreparedPart(env, parts[k], nonces[k])
  }

  ghost predicate PreparedPart(env: Env, part: Part, nonces: Nonces) {
    && 1 <= part.number <= MAX_PART_NUMBER && |part.pt| < TWO_64 && ValidNonces(env.g.alg, nonces)
    && part.seal == SealerOf(env.aead, env.g.alg, env.key, part.number, nonces)
  }

  /** The first `k` parts uploaded one after the other; the backend counts its ETags up. */
  function UploadEvents(parts: seq<Part>, nonces: seq<Nonces>, k: nat): (events: seq<Event>)
    requires k <= |parts| == |nonces|
    ensures |events| == 3 * k
  {
    if k == 0 then []
    else UploadEvents(parts, nonces, k - 1)
         + [BeginUpload(0, parts[k - 1].number), StorePart(0, parts[k - 1], nonces[k - 1], k - 1), RecordPart(0)]
  }

  function ListOf(parts: seq<Part>): seq<Listed> {
    seq(|parts|, k requires 0 <= k < |parts| => Listed(parts[k].number, k))
  }

  /** The state after the first `k` uploads. */
  ghost predicate Uploaded(env: Env, parts: seq<Part>, k: nat, s: State)
    requires k <= |parts|
  {
    && Open(s) && s.session.value.dek == Some(env.key) && !s.session.value.completing && s.backend.live
    && s.requests == map[] && s.strays == map[]
    && (forall n :: n in s.session.value.parts ==> exists j :: 0 <= j < k && parts[j].number == n)
    && (forall e :: e in s.backend.uploads ==> e < k)
    && forall j :: 0 <= j < k ==> IsUploaded(s, parts[j], j)
  }

  ghost predicate IsUploaded(s: State, part: Part, etag: ETag)
    requires s.session.Some?
  {
    && Matches(s.session.value, Listed(part.number, etag))
    && etag in s.backend.uploads && s.backend.uploads[etag] == ClientPart(part)
    && part.number in s.backend.held && s.backend.held[part.number].etag == etag
  }

  /** The state that stores and records the next part. */
  function AfterUpload(env: Env, s: State, part: Part, etag: ETag): State
    requires env.g.chunkSize > 0 && s.session.Some?
  {
    var ct := if CiphertextLen(env.g.alg, |part.pt|, env.g.chunkSize) < MIN_PART_SIZE then Some(PartCt(env.g, part)) else None;
    s.(session := Some(Recorded(s.session.value, part.number, |part.pt|, etag, ct)),
       backend := Store(env.g, s.backend, part.number, etag, ClientPart(part)))
  }

  lemma UploadNext(env: Env, s: State, part: Part, nonces: Nonces, etag: ETag) returns (s1: State, s2: State)
    requires ValidEnv(env) && PreparedPart(env, part, nonces) && Open(s) && s.session.value.dek == Some(env.key)
    requires s.backend.live && etag !in s.backend.uploads && s.requests == map[] && s.strays == map[]
    ensures Step(env, s, BeginUpload(0, part.number), s1) && Step(env, s1, StorePart(0, part, nonces, etag), s2)
    ensures Step(env, s2, RecordPart(0), AfterUpload(env, s, part, etag))
  {
    hide SealerOf, PartCt, CiphertextLen, BytesOf, Recorded, ValidNonces;
    s1 := s.(requests := map[0 := Encrypting(part.number, env.key)]);
    var ct := if CiphertextLen(env.g.alg, |part.pt|, env.g.chunkSize) < MIN_PART_SIZE then Some(PartCt(env.g, part)) else None;
    s2 := s1.(backend := Store(env.g, s1.backend, part.number, etag, ClientPart(part)),
              requests := map[0 := Recording(part.number, |part.pt|, etag, ct)]);
    assert s1.requests[0 := s2.requests[0]] == s2.requests && s2.requests - {0} == s.requests;
  }

  lemma UploadedNext(env: Env, parts: seq<Part>, nonces: seq<Nonces>, k: nat, s: State)
    requires ValidEnv(env) && Prepared(env, parts, nonces) && k < |parts| && Uploaded(env, parts, k, s)
    ensures Uploaded(env, parts, k + 1, AfterUpload(env, s, parts[k], k))
  {
    hide PreparedPart, SealerOf, PartCt, CiphertextLen, BytesOf, Kept;
    var s' := AfterUpload(env, s, parts[k], k);
    forall j | 0 <= j < k + 1 ensures IsUploaded(s', parts[j], j) {
      assert j < k ==> IsUploaded(s, parts[j], j);
    }
  }

  lemma {:induction false} UploadsAll(env: Env, parts: seq<Part>, nonces: seq<Nonces>, k: nat) returns (states: seq<State>)
    requires ValidEnv(env) && Prepared(env, parts, nonces) && k <= |parts|
    ensures Run(env, states, UploadEvents(parts, nonces, k)) && Uploaded(env, parts, k, states[3 * k])
  {
    hide Step, PreparedPart, Uploaded;
    if k == 0 {
      states := [Start(env)];
      NothingUploaded(env, parts);
    } else {
      var before := UploadsAll(env, parts, nonces, k - 1);
      var s, part := before[3 * (k - 1)], parts[k - 1];
      ReadyForNext(env, parts, k - 1, s);
      var s3 := AfterUpload(env, s, part, k - 1);
      UploadedNext(env, parts, nonces, k - 1, s);
      var s1, s2 := UploadNext(env, s, part, nonces[k - 1], k - 1);
      states := before + [s1, s2, s3];
      Extended(env, before, UploadEvents(parts, nonces, k - 1), [s, s1, s2, s3],
               [BeginUpload(0, part.number), StorePart(0, part, nonces[k - 1], k - 1), RecordPart(0)]);
      assert [s, s1, s2, s3][1..] == [s1, s2, s3];
    }
  }

  lemma ReadyForNext(env: Env, parts: seq<Part>, k: nat, s: State)
    requires k <= |parts| && Uploaded(env, parts, k, s)
    ensures Open(s) && s.session.value.dek == Some(env.key) && s.backend.live && k !in s.backend.uploads
    ensures s.requests == map[] && s.strays == map[]
  {
  }

  lemma NothingUploaded(env: Env, parts: seq<Part>)
    ensures Uploaded(env, parts, 0, Start(env))
  {
  }

  /** Paths that meet make one path. */
  lemma Extended(env: Env, states: seq<State>, events: seq<Event>, more: seq<State>, steps: seq<Event>)
    requires ValidEnv(env) && Path(env, states, events) && Path(env, more, steps) && more[0] == states[|events|]
    ensures Path(env, states + more[1..], events + steps)
  {
    hide Step;
    var all := states + more[1..];
    forall i | 0 <= i < |events + steps| ensures Step(env, all[i], (events + steps)[i], all[i + 1]) {
      if i < |events| {
        assert all[i] == states[i] && all[i + 1] == states[i + 1];
      } else {
        assert all[i] == more[i - |events|] && all[i + 1] == more[i - |events| + 1];
      }
    }
  }

  lemma AllMatch(env: Env, parts: seq<Part>, s: State)
    requires Uploaded(env, parts, |parts|, s)
    ensures forall k :: 0 <= k < |parts| ==> Matches(s.session.value, ListOf(parts)[k])
  {
    forall k | 0 <= k < |parts| ensures Matches(s.session.value, ListOf(parts)[k]) {
      assert IsUploaded(s, parts[k], k);
    }
  }

  lemma NoneAbove(env: Env, parts: seq<Part>, nonces: seq<Nonces>, s: State)
    requires Prepared(env, parts, nonces) && |parts| > 0 && Uploaded(env, parts, |parts|, s)
    ensures Above(s.session.value, parts[|parts| - 1].number) == {}
  {
    hide PreparedPart, IsUploaded;
  }

  /** The checks pass on everything that was uploaded. */
  lemma SnapsAll(env: Env, parts: seq<Part>, nonces: seq<Nonces>, states: seq<State>) returns (s': State)
    requires ValidEnv(env) && Prepared(env, parts, nonces) && |parts| > 0
    requires Run(env, states, UploadEvents(parts, nonces, |parts|)) && Uploaded(env, parts, |parts|, states[3 * |parts|])
    ensures Step(env, states[3 * |parts|], Snap(0, ListOf(parts)), s')
  {
    hide Step, UploadEvents, Small, PreparedPart, Uploaded, Matches, Above, LastUpload;
    var n, list, events := |parts|, ListOf(parts), UploadEvents(parts, nonces, |parts|);
    var s := states[3 * n];
    AllMatch(env, parts, s);
    ReadyForNext(env, parts, n, s);
    MatchesLast(env, states, events, 3 * n, list);
    NoneAbove(env, parts, nonces, s);
    HighestPasses(env, states, events, 3 * n, 0, list);
    s' :| Step(env, s, Snap(0, list), s');
  }

  /** Any parts with ascending numbers, whatever their sizes, can be uploaded and completed:
      the object stored is made of exactly these parts and reads back as their plaintexts. */
  lemma EveryUploadCompletes(env: Env, parts: seq<Part>, nonces: seq<Nonces>, own: Nonces, response: Response)
      returns (states: seq<State>)
    requires ValidEnv(env) && Prepared(env, parts, nonces) && |parts| > 0 && ValidNonces(env.g.alg, own)
    ensures Run(env, states, UploadEvents(parts, nonces, |parts|)
                             + [Snap(0, ListOf(parts)), Claim(0), PlaceFooter(0, own, |parts|), Accept(0, response), Settle(0)])
    ensures var s := states[|states| - 1];
            && EarlyAnswer(s.session) == Ok(Some(response)) && s.backend.completion.Some?
            && s.backend.completion.value.list == ListOf(parts) && NamesParts(env, s.backend.uploads, ListOf(parts))
            && PartsOf(env, s.backend.uploads, ListOf(parts)) == parts
            && PartsText(env.g, Opens(env), Sizes(parts), s.backend.completion.value.whole) == Some(ObjectPt(parts))
  {
    hide Step, PreparedPart, GoodData, NamesParts, HasFooter, EndsWithFooter, PartsText, Opens, Uploaded, ObjectPt, ListOf;
    var events, list := UploadEvents(parts, nonces, |parts|), ListOf(parts);
    var before := UploadsAll(env, parts, nonces, |parts|);
    var s := before[3 * |parts|];
    var s' := SnapsAll(env, parts, nonces, before);
    SnapLeaves(env, s, 0, list, s');
    Extended(env, before, events, [s, s'], [Snap(0, list)]);
    var snapped, so := before + [s'], events + [Snap(0, list)];
    assert [s, s'][1..] == [s'];
    RunKeeps(env, snapped, so, |so|);
    UploadedIsCurrent(env, parts, s);
    var rest := UndisturbedCompletes(env, s', 0, own, |parts|, response);
    var steps := [Claim(0), PlaceFooter(0, own, |parts|), Accept(0, response), Settle(0)];
    Extended(env, snapped, so, rest, steps);
    states := snapped + rest[1..];
    assert so + steps == events + [Snap(0, list), Claim(0), PlaceFooter(0, own, |parts|), Accept(0, response), Settle(0)];
    AcceptedObject(env, states, so + steps, |states| - 1);
    PartsAre(env, parts, s, states[|states| - 1].backend.uploads);
  }

  lemma SnapLeaves(env: Env, s: State, id: nat, list: seq<Listed>, s': State)
    requires ValidEnv(env) && Step(env, s, Snap(id, list), s')
    ensures s'.session == s.session && s'.backend == s.backend && id in s'.requests
    ensures s'.requests[id].Snapped? && s'.requests[id].list == list
  {
    hide SnapshotForComplete, LastPartOk;
  }

  lemma UploadedIsCurrent(env: Env, parts: seq<Part>, s: State)
    requires Uploaded(env, parts, |parts|, s)
    ensures Current(s.backend.held, ListOf(parts)) && s.backend.live && |parts| !in s.backend.uploads
    ensures Open(s) && !s.session.value.completing
  {
    forall k | 0 <= k < |parts| ensures s.backend.held[parts[k].number].etag == k && parts[k].number in s.backend.held {
      assert IsUploaded(s, parts[k], k);
    }
  }

  lemma PartsAre(env: Env, parts: seq<Part>, s: State, uploads: Uploads)
    requires Uploaded(env, parts, |parts|, s) && Grows(s.backend.uploads, uploads) && NamesParts(env, uploads, ListOf(parts))
    ensures PartsOf(env, uploads, ListOf(parts)) == parts
  {
    hide Sealed;
    forall k | 0 <= k < |parts| ensures uploads[ListOf(parts)[k].etag] == ClientPart(parts[k]) {
      assert IsUploaded(s, parts[k], k);
    }
  }
}
