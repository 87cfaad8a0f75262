/** Reads from a backend that may answer with any bytes at all. As long as no frame is a
    forgery, every chunk that a client is sent was sealed under the object's key at its own
    part, index and flag. Where each position was sealed only once, that makes it the
    beginning of what was uploaded, and all of it when the stream ends without an error. */
module UntrustedReads {
  import opened Bytes
  import opened Body
  import opened Cipher
  import opened SizeMath
  import opened FrameSpec
  import opened FrameTheorems
  import opened SealedStreams
  import opened RangePlan
  import RangeReader
  import opened Layout
  import opened Segments
  import opened MultipartObject
  import opened MultipartCursor
  import opened RangeCursor
  import opened RangeService
  import opened FooterCodec
  import opened SealedFooter

  // ---------------------------------------------------------------- chunks of a part

  lemma ChunkIs(size: nat, pt: Bytes, i: nat, k: nat)
    requires size > 0 && i + k <= Ready(size, |pt|)
    ensures Off(size, i) <= |pt| && Off(size, k) <= |pt| - Off(size, i)
    ensures var rest := pt[Off(size, i)..];
            ChunkAt(size, pt, i + k) == rest[Off(size, k)..Min(Off(size, k) + size, |rest|)]
  {
    hide Off, Ready, ChunkAt;
    ChunkDropped(size, pt, i, k);
    FirstChunkIs(size, pt[Off(size, i)..], Off(size, k));
  }

  lemma ChunkDropped(size: nat, pt: Bytes, i: nat, k: nat)
    requires size > 0 && i + k <= Ready(size, |pt|)
    ensures Off(size, i) <= |pt| && Off(size, k) <= |pt| - Off(size, i)
    ensures ChunkAt(size, pt, i + k) == ChunkAt(size, pt[Off(size, i)..][Off(size, k)..], 0)
  {
    hide Off, Ready, ChunkAt;
    OffAdd(size, i, k);
    ChunkAtDropped(size, pt, i + k);
    DropDropped(pt, Off(size, i), Off(size, k));
  }

  lemma FirstChunkIs(size: nat, rest: Bytes, at: nat)
    requires size > 0 && at <= |rest|
    ensures ChunkAt(size, rest[at..], 0) == rest[at..Min(at + size, |rest|)]
  {
  }

  lemma {:induction false} ReadyMono(size: nat, a: nat, b: nat)
    requires size > 0 && a <= b
    ensures Ready(size, a) <= Ready(size, b)
    decreases b
  {
    if a > size {
      ReadyMono(size, a - size, b - size);
    }
  }

  lemma {:induction false} OffMono(size: nat, i: nat, j: nat)
    requires i <= j
    ensures Off(size, i) <= Off(size, j)
    decreases j
  {
    if i < j {
      OffMono(size, i, j - 1);
    }
  }

  /** Sealed chunks, trimmed: where only the chunks of `pt` were sealed they are its bytes
      from the first one, less the leading trim, to the trim of the last one. */
  lemma SealedPieces(g: Geometry, seals: Seals, part: nat, pt: Bytes, first: nat, k: nat, ends: bool,
                     front: Bytes, last: Bytes, trimStart: nat, trimEnd: nat)
    requires g.chunkSize > 0 && |pt| < TWO_64 && SealsOnly(g, seals, part, pt) && first < TWO_64
    requires SealedChunks(g, seals, part, first, front) && |front| == Off(g.chunkSize, k)
    requires SealedAt(g, seals, part, first + k, ends, last) && trimEnd <= g.chunkSize
    ensures first + k <= Ready(g.chunkSize, |pt|) && ends == (first + k == Ready(g.chunkSize, |pt|))
    ensures Trimmed(front, last, trimStart, trimEnd)
            == Drop(Take(pt, Off(g.chunkSize, first + k) + trimEnd), Off(g.chunkSize, first) + trimStart)
  {
    hide Ready, Off, FrameAad, ChunkAt, SealsOnly, Trimmed, Drop, Take;
    var size := g.chunkSize;
    ChunksFit(g, seals, part, pt, first, k, front);
    HoldsSealed(g, seals, part, pt, first + k, ends, last);
    OnlyFront(g, seals, part, pt, first, front);
    ChunkIs(size, pt, first, k);
    OffAdd(size, first, k);
    var rest := pt[Off(size, first)..];
    assert front == rest[..Off(size, k)];
    TrimPieces(rest, Off(size, k), size, trimStart, trimEnd);
    ShiftWindow(pt, Off(size, first), trimStart, Off(size, k) + trimEnd);
  }

  lemma HoldsSealed(g: Geometry, seals: Seals, part: nat, pt: Bytes, i: nat, last: bool, msg: Bytes)
    requires g.chunkSize > 0 && SealsOnly(g, seals, part, pt) && i < TWO_64 && SealedAt(g, seals, part, i, last, msg)
    ensures i <= Ready(g.chunkSize, |pt|) && last == (i == Ready(g.chunkSize, |pt|)) && msg == ChunkAt(g.chunkSize, pt, i)
  {
    assert Holds(g, pt, i, last, msg);
  }

  /** Sealed chunks reach at most to the final chunk. */
  lemma {:induction false} ChunksFit(g: Geometry, seals: Seals, part: nat, pt: Bytes, i: nat, k: nat, t: Bytes)
    requires g.chunkSize > 0 && |pt| < TWO_64 && SealsOnly(g, seals, part, pt) && i < TWO_64
    requires SealedChunks(g, seals, part, i, t) && |t| == Off(g.chunkSize, k)
    ensures k > 0 ==> i + k <= Ready(g.chunkSize, |pt|)
    ensures i + k < TWO_64
    decreases k
  {
    hide FrameAad, ChunkAt, SealsOnly, Ready;
    if k > 0 {
      HoldsSealed(g, seals, part, pt, i, false, t[..g.chunkSize]);
      ReadyBelow(g.chunkSize, |pt|);
      ChunksFit(g, seals, part, pt, i + 1, k - 1, t[g.chunkSize..]);
    }
  }

  lemma TrimPieces(rest: Bytes, done: nat, size: nat, trimStart: nat, trimEnd: nat)
    requires done <= |rest| && trimEnd <= size
    ensures Trimmed(rest[..done], rest[done..Min(done + size, |rest|)], trimStart, trimEnd)
            == Drop(Take(rest, done + trimEnd), trimStart)
  {
    var last := rest[done..Min(done + size, |rest|)];
    assert rest[..done] + Take(last, trimEnd) == Take(rest, done + trimEnd);
  }

  lemma ShiftWindow(pt: Bytes, skip: nat, a: nat, b: nat)
    requires skip <= |pt|
    ensures Drop(Take(pt[skip..], b), a) == Drop(Take(pt, skip + b), skip + a)
  {
    assert Take(pt[skip..], b) == Drop(Take(pt, skip + b), skip);
  }

  // ---------------------------------------------------------------- a range of one part

  /** A planned slice holds one frame for each planned chunk. */
  lemma PlannedFrames(aead: Aead, g: Geometry, ptLen: nat, start: nat, end: nat, plan: Plan)
    requires g.chunkSize > 0 && Lawful(aead) && start <= end <= ptLen && Describes(g, ptLen, start, end, plan)
    ensures plan.ctStart < plan.ctEnd && Ready(g.FrameSize(), plan.ctEnd - plan.ctStart) == plan.lastChunk - plan.firstChunk
  {
    hide Paired, Head, EncryptAll;
    var pt: Bytes := seq(ptLen, _ => 0);
    var seal, open := SealerOf(aead, g.alg, [], 0, ZeroNonces(g.alg)), OpenerOf(aead, g.alg, [], 0);
    PairedStreams(aead, g.alg, [], 0, ZeroNonces(g.alg));
    hide SealerOf, OpenerOf;
    PlanSlice(g, seal, open, pt, start, end, plan);
    FromFirstChunk(g, ptLen, start, end, plan);
    HeadCount(g, seal, open, plan.firstChunk, pt[Off(g.chunkSize, plan.firstChunk)..], plan.lastChunk - plan.firstChunk + 1);
  }

  /** What a plan cuts out of consecutive chunks that were sealed at their positions. */
  ghost predicate SealedSlice(g: Geometry, seals: Seals, part: nat, plan: Plan, ends: bool, t: Bytes)
    requires g.chunkSize > 0
  {
    plan.firstChunk <= plan.lastChunk && exists front, last :: IsSlice(g, seals, part, plan, ends, front, last, t)
  }

  ghost predicate IsSlice(g: Geometry, seals: Seals, part: nat, plan: Plan, ends: bool, front: Bytes, last: Bytes, t: Bytes)
    requires g.chunkSize > 0 && plan.firstChunk <= plan.lastChunk
  {
    && SealedChunks(g, seals, part, plan.firstChunk, front) && |front| == Off(g.chunkSize, plan.lastChunk - plan.firstChunk)
    && SealedAt(g, seals, part, plan.lastChunk, ends, last) && t == Trimmed(front, last, plan.trimStart, plan.trimEnd)
  }

  /** The trimmed front of such a slice. */
  ghost predicate SealedFront(g: Geometry, seals: Seals, part: nat, plan: Plan, t: Bytes)
    requires g.chunkSize > 0
  {
    exists front, k: nat :: plan.firstChunk + k <= plan.lastChunk && IsFrontOf(g, seals, part, plan, front, k, t)
  }

  ghost predicate IsFrontOf(g: Geometry, seals: Seals, part: nat, plan: Plan, front: Bytes, k: nat, t: Bytes)
    requires g.chunkSize > 0
  {
    SealedChunks(g, seals, part, plan.firstChunk, front) && |front| == Off(g.chunkSize, k) && t == Drop(front, plan.trimStart)
  }

  /** Any bytes in place of a planned slice read as a sealed slice or not at all. */
  lemma SliceIsSealed(aead: Aead, g: Geometry, key: Bytes, seals: Seals, part: nat, ptLen: nat,
                      start: nat, end: nat, plan: Plan, ends: bool, ct: Bytes)
    requires g.chunkSize > 0 && Lawful(aead) && start <= end <= ptLen && Describes(g, ptLen, start, end, plan)
    requires plan.ctStart < plan.ctEnd && |ct| == plan.ctEnd - plan.ctStart
    requires RunGenuine(aead, g, key, seals, part, plan.firstChunk, ends, ct)
    requires RangeText(g, OpenerOf(aead, g.alg, key, part), plan, ends, ct).Some?
    ensures SealedSlice(g, seals, part, plan, ends, RangeText(g, OpenerOf(aead, g.alg, key, part), plan, ends, ct).value)
  {
    hide FramesGenuine, OpenFrame, Opened, Trimmed, Tail, Lawful, Off, Ready, SealedChunks, FrameAad;
    var open := OpenerOf(aead, g.alg, key, part);
    PlannedFrames(aead, g, ptLen, start, end, plan);
    OpenedIsSealed(aead, g, key, seals, part, plan.firstChunk, ct);
    var front := Opened(g, open, plan.firstChunk, ct).value;
    var last := OpenFrame(aead, g.alg, key, part, plan.lastChunk, ends, Tail(g.FrameSize(), ct)).value;
    assert IsSlice(g, seals, part, plan, ends, front, last, Trimmed(front, last, plan.trimStart, plan.trimEnd));
  }

  lemma FrontIsSealed(aead: Aead, g: Geometry, key: Bytes, seals: Seals, part: nat, ptLen: nat,
                      start: nat, end: nat, plan: Plan, cur: Bytes)
    requires g.chunkSize > 0 && Lawful(aead) && start <= end <= ptLen && Describes(g, ptLen, start, end, plan)
    requires plan.ctStart < plan.ctEnd && |cur| <= plan.ctEnd - plan.ctStart
    requires FramesGenuine(aead, g, key, seals, part, plan.firstChunk, cur)
    requires Opened(g, OpenerOf(aead, g.alg, key, part), plan.firstChunk, cur).Some?
    ensures SealedFront(g, seals, part, plan, Drop(Opened(g, OpenerOf(aead, g.alg, key, part), plan.firstChunk, cur).value, plan.trimStart))
  {
    hide FramesGenuine, Opened, Lawful, Off, Ready, SealedChunks, OpenerOf;
    PlannedFrames(aead, g, ptLen, start, end, plan);
    ReadyMono(g.FrameSize(), |cur|, plan.ctEnd - plan.ctStart);
    OpenedIsSealed(aead, g, key, seals, part, plan.firstChunk, cur);
    var front := Opened(g, OpenerOf(aead, g.alg, key, part), plan.firstChunk, cur).value;
    assert IsFrontOf(g, seals, part, plan, front, Ready(g.FrameSize(), |cur|), Drop(front, plan.trimStart));
  }

  /** Where each position was sealed once, a sealed slice is the requested bytes. */
  lemma SliceIsShare(g: Geometry, seals: Seals, part: nat, pt: Bytes, start: nat, end: nat, plan: Plan, ends: bool, t: Bytes)
    requires g.chunkSize > 0 && |pt| < TWO_64 && SealsOnly(g, seals, part, pt)
    requires start <= end <= |pt| && Describes(g, |pt|, start, end, plan) && SealedSlice(g, seals, part, plan, ends, t)
    ensures t == pt[start..end]
  {
    hide SealsOnly, SealedChunks, SealedAt, Off, Ready, Trimmed;
    var front, last :| IsSlice(g, seals, part, plan, ends, front, last, t);
    ReadyBelow(g.chunkSize, |pt|);
    SealedPieces(g, seals, part, pt, plan.firstChunk, plan.lastChunk - plan.firstChunk, ends, front, last, plan.trimStart, plan.trimEnd);
  }

  lemma FrontIsShare(g: Geometry, seals: Seals, part: nat, pt: Bytes, start: nat, end: nat, plan: Plan, t: Bytes)
    requires g.chunkSize > 0 && |pt| < TWO_64 && SealsOnly(g, seals, part, pt)
    requires start <= end <= |pt| && Describes(g, |pt|, start, end, plan) && SealedFront(g, seals, part, plan, t)
    ensures t <= pt[start..end]
  {
    hide SealsOnly, SealedChunks, Off, Ready;
    var front, k: nat :| plan.firstChunk + k <= plan.lastChunk && IsFrontOf(g, seals, part, plan, front, k, t);
    OnlyFront(g, seals, part, pt, plan.firstChunk, front);
    FromFirstChunk(g, |pt|, start, end, plan);
    OffMono(g.chunkSize, k, plan.lastChunk - plan.firstChunk);
    FrontOfSlice(pt, Off(g.chunkSize, plan.firstChunk), |front|, plan.trimStart, end);
  }

  lemma FrontOfSlice(pt: Bytes, skip: nat, n: nat, trim: nat, end: nat)
    requires skip + n <= end <= |pt| && skip + trim <= end
    ensures Drop(pt[skip..][..n], trim) <= pt[skip + trim..end]
  {
  }

  /** So any bytes in place of a planned slice read as the requested bytes or not at all. */
  lemma RangeIsAuthentic(aead: Aead, g: Geometry, key: Bytes, seals: Seals, part: nat, pt: Bytes,
                         start: nat, end: nat, plan: Plan, ends: bool, ct: Bytes)
    requires g.chunkSize > 0 && Lawful(aead) && |pt| < TWO_64 && SealsOnly(g, seals, part, pt)
    requires start <= end <= |pt| && Describes(g, |pt|, start, end, plan)
    requires plan.ctStart < plan.ctEnd && |ct| == plan.ctEnd - plan.ctStart
    requires RunGenuine(aead, g, key, seals, part, plan.firstChunk, ends, ct)
    requires RangeText(g, OpenerOf(aead, g.alg, key, part), plan, ends, ct).Some?
    ensures RangeText(g, OpenerOf(aead, g.alg, key, part), plan, ends, ct).value == pt[start..end]
  {
    hide SealsOnly, RunGenuine, RangeText, Describes, Lawful, OpenerOf, SealedSlice;
    SliceIsSealed(aead, g, key, seals, part, |pt|, start, end, plan, ends, ct);
    SliceIsShare(g, seals, part, pt, start, end, plan, ends, RangeText(g, OpenerOf(aead, g.alg, key, part), plan, ends, ct).value);
  }

  // ---------------------------------------------------------------- ranged reads of single-part objects

  /** Where the text of a body with frames of `len` bytes stops: behind the trim of the last
      frame that arrived. */
  function StopsAt(g: Geometry, plan: Plan, len: nat): nat
    requires g.chunkSize > 0
  {
    Off(g.chunkSize, plan.firstChunk + Ready(g.FrameSize(), len)) + plan.trimEnd
  }

  /** A body of any length that reads at all reads as the plaintext from the planned start
      to the trim of its last frame. */
  lemma AnyBody(aead: Aead, g: Geometry, key: Bytes, seals: Seals, part: nat, pt: Bytes, plan: Plan, ends: bool, ct: Bytes)
    requires g.chunkSize > 0 && Lawful(aead) && |pt| < TWO_64 && SealsOnly(g, seals, part, pt)
    requires plan.firstChunk < TWO_64 && plan.trimEnd <= g.chunkSize
    requires RunGenuine(aead, g, key, seals, part, plan.firstChunk, ends, ct)
    requires RangeText(g, OpenerOf(aead, g.alg, key, part), plan, ends, ct).Some?
    ensures var i := plan.firstChunk + Ready(g.FrameSize(), |ct|);
            i <= Ready(g.chunkSize, |pt|) && ends == (i == Ready(g.chunkSize, |pt|))
    ensures RangeText(g, OpenerOf(aead, g.alg, key, part), plan, ends, ct).value
            == Drop(Take(pt, StopsAt(g, plan, |ct|)), Off(g.chunkSize, plan.firstChunk) + plan.trimStart)
  {
    hide SealsOnly, FramesGenuine, OpenFrame, Opened, Trimmed, Tail, Lawful, Off, Ready, SealedChunks, FrameAad, Drop, Take;
    var open, k := OpenerOf(aead, g.alg, key, part), Ready(g.FrameSize(), |ct|);
    OpenedIsSealed(aead, g, key, seals, part, plan.firstChunk, ct);
    var front := Opened(g, open, plan.firstChunk, ct).value;
    var last := OpenFrame(aead, g.alg, key, part, plan.firstChunk + k, ends, Tail(g.FrameSize(), ct)).value;
    SealedPieces(g, seals, part, pt, plan.firstChunk, k, ends, front, last, plan.trimStart, plan.trimEnd);
  }

  lemma AnyFront(aead: Aead, g: Geometry, key: Bytes, seals: Seals, part: nat, pt: Bytes, plan: Plan, ct: Bytes, sent: Bytes)
    requires g.chunkSize > 0 && Lawful(aead) && |pt| < TWO_64 && SealsOnly(g, seals, part, pt) && plan.firstChunk < TWO_64
    requires FramesGenuine(aead, g, key, seals, part, plan.firstChunk, ct)
    requires RangeReader.FrontOf(g, OpenerOf(aead, g.alg, key, part), plan, ct, sent)
    ensures sent <= Drop(pt, Off(g.chunkSize, plan.firstChunk) + plan.trimStart)
  {
    hide SealsOnly, FramesGenuine, Opened, Lawful, Off, Ready, SealedChunks, OpenerOf;
    var open := OpenerOf(aead, g.alg, key, part);
    var n: nat :| n <= |ct| && Opened(g, open, plan.firstChunk, ct[..n]).Some?
                  && sent == Drop(Opened(g, open, plan.firstChunk, ct[..n]).value, plan.trimStart);
    FramesGenuinePrefix(aead, g, key, seals, part, plan.firstChunk, ct, n);
    OpenedIsSealed(aead, g, key, seals, part, plan.firstChunk, ct[..n]);
    var front := Opened(g, open, plan.firstChunk, ct[..n]).value;
    ChunksFit(g, seals, part, pt, plan.firstChunk, Ready(g.FrameSize(), n), front);
    if Ready(g.FrameSize(), n) == 0 {
      NoChunks(g);
    } else {
      OnlyFront(g, seals, part, pt, plan.firstChunk, front);
      FrontDropped(pt, Off(g.chunkSize, plan.firstChunk), front, plan.trimStart);
    }
  }

  lemma NoChunks(g: Geometry)
    ensures Off(g.chunkSize, 0) == 0
  {
  }

  lemma FrontDropped(pt: Bytes, skip: nat, front: Bytes, trim: nat)
    requires skip <= |pt| && front <= pt[skip..]
    ensures Drop(front, trim) <= Drop(pt, skip + trim)
  {
  }

  /** The plan for a range under the stored length that the backend announced. */
  function PlanUnder(g: Geometry, storedLen: nat, range: ByteRange): Result<Plan, Error>
    requires g.chunkSize > 0
  {
    var ptLen :- PlaintextLen(g.alg, storedLen, g.chunkSize);
    PlanRange(g, ptLen, ResolveRange(range, ptLen).0, ResolveRange(range, ptLen).1)
  }

  /** No forgery among the frames of a ranged read under that length. */
  ghost predicate SingleGenuine(aead: Aead, g: Geometry, key: Bytes, seals: Seals, storedLen: nat, range: ByteRange, b: Bytes)
    requires g.chunkSize > 0
  {
    PlanUnder(g, storedLen, range).Ok? ==>
      var ptLen, plan := PlaintextLen(g.alg, storedLen, g.chunkSize).value, PlanUnder(g, storedLen, range).value;
      RunGenuine(aead, g, key, seals, 0, plan.firstChunk, EndsAt(g, ptLen, plan), b)
  }

  /** A ranged GET of a single-part object from a backend that answers with any length and
      any bytes: what is sent are bytes of the plaintext from the announced start on, up to
      where the last frame that arrived is trimmed. Under the true length that is the
      requested range exactly when as many frames arrived as were planned. */
  method UntrustedRangedSingle(aead: Aead, g: Geometry, key: Bytes, ghost seals: Seals, ghost pt: Bytes, storedLen: nat,
                               range: ByteRange, body: seq<Frame>) returns (answer: Answer)
    requires g.chunkSize > 0 && Lawful(aead) && |pt| < TWO_64 && SealsOnly(g, seals, 0, pt) && storedLen < TWO_64
    requires SingleGenuine(aead, g, key, seals, storedLen, range, Payload(body))
    ensures answer.Partial? <==> PlanUnder(g, storedLen, range).Ok?
    ensures answer.Partial? ==>
              && answer.sent <= Drop(pt, answer.start)
              && (answer.complete ==>
                    answer.sent == Drop(Take(pt, StopsAt(g, PlanUnder(g, storedLen, range).value, |Payload(body)|)), answer.start))
    ensures answer.Partial? && storedLen == CiphertextLen(g.alg, |pt|, g.chunkSize) ==>
              var plan := PlanUnder(g, storedLen, range).value;
              && (answer.start, answer.end) == ResolveRange(range, |pt|) && answer.start <= answer.end <= |pt|
              && plan.firstChunk <= plan.lastChunk
              && (answer.complete ==>
                    (answer.sent == pt[answer.start..answer.end]
                     <==> Ready(g.FrameSize(), |Payload(body)|) == plan.lastChunk - plan.firstChunk))
  {
    hide PlaintextLen, PlanRange, RangeText, Payload, Lawful, SealsOnly, CiphertextLen, RunGenuine, OpenerOf, Clean, StopsAt, Drop, Take,
         ResolveRange, Off, Ready, Describes, EndsAt;
    hide RangeReader.FrontOf;
    var open := OpenerOf(aead, g.alg, key, 0);
    answer := ServeSingle(g, open, storedLen, range, body);
    if answer.Partial? {
      ghost var ptLen := PlaintextLen(g.alg, storedLen, g.chunkSize).value;
      ghost var (start, end) := ResolveRange(range, ptLen);
      ghost var plan := PlanUnder(g, storedLen, range).value;
      PlanBounds(g, storedLen, ptLen, start, end);
      ghost var ends := EndsAt(g, ptLen, plan);
      if answer.complete {
        AnyBody(aead, g, key, seals, 0, pt, plan, ends, Payload(body));
      } else {
        RunFrames(aead, g, key, seals, 0, plan.firstChunk, ends, Payload(body));
        AnyFront(aead, g, key, seals, 0, pt, plan, Payload(body), answer.sent);
      }
      WindowIsFront(pt, StopsAt(g, plan, |Payload(body)|), answer.start);
      if storedLen == CiphertextLen(g.alg, |pt|, g.chunkSize) {
        InvertsCiphertextLen(g.alg, |pt|, g.chunkSize);
        if answer.complete {
          ExactFrames(g, pt, start, end, plan, |Payload(body)|);
        }
      }
    }
  }

  lemma RunFrames(aead: Aead, g: Geometry, key: Bytes, seals: Seals, part: nat, i: nat, ends: bool, ct: Bytes)
    requires g.chunkSize > 0 && RunGenuine(aead, g, key, seals, part, i, ends, ct)
    ensures FramesGenuine(aead, g, key, seals, part, i, ct)
  {
  }

  lemma WindowIsFront(pt: Bytes, stop: nat, start: nat)
    ensures Drop(Take(pt, stop), start) <= Drop(pt, start)
  {
  }

  /** What a plan under an accepted stored length can be. */
  lemma PlanBounds(g: Geometry, storedLen: nat, ptLen: nat, start: nat, end: nat)
    requires g.chunkSize > 0 && storedLen < TWO_64 && PlaintextLen(g.alg, storedLen, g.chunkSize) == Ok(ptLen)
    requires PlanRange(g, ptLen, start, end).Ok?
    ensures var plan := PlanRange(g, ptLen, start, end).value;
            && start <= end <= ptLen && Describes(g, ptLen, start, end, plan) && plan.firstChunk <= plan.lastChunk
            && plan.firstChunk < TWO_64 && plan.trimEnd <= g.chunkSize && start == Off(g.chunkSize, plan.firstChunk) + plan.trimStart
  {
    hide PlaintextLen, Off, CiphertextLen;
    PlanAccepts(g, ptLen, start, end);
    PlanDescribes(g, ptLen, start, end);
    hide PlanRange;
    AcceptsOnlyCiphertextLen(g.alg, storedLen, g.chunkSize);
    LongerThanPlain(g, ptLen);
    ReadyBelow(g.chunkSize, ptLen);
  }

  lemma LongerThanPlain(g: Geometry, n: nat)
    requires g.chunkSize > 0
    ensures n <= CiphertextLen(g.alg, n, g.chunkSize)
  {
    MulMono(0, NChunks(n, g.chunkSize), g.alg.Overhead());
  }

  /** The text of a body is the requested range exactly when it has the planned frames. */
  lemma ExactFrames(g: Geometry, pt: Bytes, start: nat, end: nat, plan: Plan, len: nat)
    requires g.chunkSize > 0 && start <= end <= |pt| && PlanRange(g, |pt|, start, end) == Ok(plan)
    requires var i := plan.firstChunk + Ready(g.FrameSize(), len);
             i <= Ready(g.chunkSize, |pt|) && EndsAt(g, |pt|, plan) == (i == Ready(g.chunkSize, |pt|))
    ensures Drop(Take(pt, StopsAt(g, plan, len)), start) == pt[start..end]
            <==> Ready(g.FrameSize(), len) == plan.lastChunk - plan.firstChunk
  {
    hide Ready, Off, NChunks, PlanRange;
    var size, i := g.chunkSize, plan.firstChunk + Ready(g.FrameSize(), len);
    PlanDescribes(g, |pt|, start, end);
    NChunksIsReady(|pt|, size);
    OffReady(size, |pt|, i);
    if i < plan.lastChunk {
      OffAdd(size, i, plan.lastChunk - i);
      OffPositive(size, plan.lastChunk - i);
      if start == end {
        EmptyPlan(g, |pt|, start, end);
      }
    } else if i > plan.lastChunk {
      OffAdd(size, plan.lastChunk, i - plan.lastChunk);
      OffPositive(size, i - plan.lastChunk);
    }
  }

  lemma OffPositive(size: nat, k: nat)
    requires k > 0
    ensures Off(size, k) >= size
  {
  }

  /** An empty range is planned as one chunk. */
  lemma EmptyPlan(g: Geometry, ptLen: nat, start: nat, end: nat)
    requires g.chunkSize > 0 && PlanRange(g, ptLen, start, end).Ok? && start == end
    ensures PlanRange(g, ptLen, start, end).value.firstChunk == PlanRange(g, ptLen, start, end).value.lastChunk
  {
  }

  // ---------------------------------------------------------------- the uploaded object

  /** The key sealed one upload of each part and one footer over them. */
  ghost predicate SealedObject(g: Geometry, seals: Seals, parts: seq<Part>, f: Footer)
    requires g.chunkSize > 0
  {
    && (forall k :: 0 <= k < |parts| ==> |parts[k].pt| < TWO_64 && SealsOnly(g, seals, parts[k].number, parts[k].pt))
    && (forall msg :: (FrameAad(g.alg, FOOTER_PART_NUMBER, 0, true), msg) in seals ==> msg == Record(f))
    && WellFormed(f) && f.parts == Sizes(parts)
  }

  ghost function SealsOfObject(g: Geometry, parts: seq<Part>, f: Footer): Seals
    requires g.chunkSize > 0
  {
    (iset k, s | 0 <= k < |parts| && s in SealsOf(g, parts[k].number, parts[k].pt) :: s)
    + iset{(FrameAad(g.alg, FOOTER_PART_NUMBER, 0, true), Record(f))}
  }

  /** That is what uploading distinct part numbers and sealing their footer does: part
      numbers in the associated data keep the parts and the footer apart. */
  lemma ObjectIsSealed(g: Geometry, parts: seq<Part>, f: Footer)
    requires g.chunkSize > 0 && WellFormed(f) && f.parts == Sizes(parts) && ClientNumbers(Sizes(parts))
    requires forall k :: 0 <= k < |parts| ==> |parts[k].pt| < TWO_64
    ensures SealedObject(g, SealsOfObject(g, parts, f), parts, f)
  {
    hide WellFormed, SealsOf, Record;
    var seals := SealsOfObject(g, parts, f);
    forall k | 0 <= k < |parts| ensures SealsOnly(g, seals, parts[k].number, parts[k].pt) {
      PartIsSealed(g, parts, f, k);
    }
    forall msg | (FrameAad(g.alg, FOOTER_PART_NUMBER, 0, true), msg) in seals ensures msg == Record(f) {
      var aad := FrameAad(g.alg, FOOTER_PART_NUMBER, 0, true);
      forall k | 0 <= k < |parts| ensures (aad, msg) !in SealsOf(g, parts[k].number, parts[k].pt) {
        NumbersOf(parts, k);
        ForeignSeal(g, parts[k].number, parts[k].pt, FOOTER_PART_NUMBER, 0, true, msg);
      }
    }
  }

  lemma NumbersOf(parts: seq<Part>, k: nat)
    requires ClientNumbers(Sizes(parts)) && k < |parts|
    ensures 1 <= parts[k].number <= MAX_PART_NUMBER && forall j :: 0 <= j < |parts| && j != k ==> parts[j].number != parts[k].number
  {
    var sizes := Sizes(parts);
    assert sizes[k].number == parts[k].number;
    forall j | 0 <= j < |parts| && j != k ensures parts[j].number != parts[k].number {
      assert sizes[j].number == parts[j].number;
    }
  }

  /** A part's seals carry its own number. */
  lemma ForeignSeal(g: Geometry, part: nat, pt: Bytes, part': nat, i: nat, last: bool, msg: Bytes)
    requires g.chunkSize > 0 && part < TWO_32 && part' < TWO_32 && part != part' && i < TWO_64 && |pt| < TWO_64
    ensures (FrameAad(g.alg, part', i, last), msg) !in SealsOf(g, part, pt)
  {
    if (FrameAad(g.alg, part', i, last), msg) in SealsOf(g, part, pt) {
      var j: nat, flag: bool :| Holds(g, pt, j, flag, msg) && FrameAad(g.alg, part', i, last) == FrameAad(g.alg, part, j, flag);
      ReadyBelow(g.chunkSize, |pt|);
      FrameAadInjective(g.alg, part', i, last, g.alg, part, j, flag);
    }
  }

  lemma PartIsSealed(g: Geometry, parts: seq<Part>, f: Footer, k: nat)
    requires g.chunkSize > 0 && ClientNumbers(Sizes(parts)) && k < |parts|
    requires forall j :: 0 <= j < |parts| ==> |parts[j].pt| < TWO_64
    ensures SealsOnly(g, SealsOfObject(g, parts, f), parts[k].number, parts[k].pt)
  {
    hide SealsOf, FrameAad, Record;
    var part, pt := parts[k].number, parts[k].pt;
    NumbersOf(parts, k);
    SealedOnce(g, part, pt);
    forall i: nat, last: bool, msg: Bytes | i < TWO_64 && (FrameAad(g.alg, part, i, last), msg) in SealsOfObject(g, parts, f)
      ensures Holds(g, pt, i, last, msg)
    {
      OwnNumber(g, part, FOOTER_PART_NUMBER, i, last);
      forall j | 0 <= j < |parts| && j != k ensures (FrameAad(g.alg, part, i, last), msg) !in SealsOf(g, parts[j].number, parts[j].pt) {
        NumbersOf(parts, j);
        ForeignSeal(g, parts[j].number, parts[j].pt, part, i, last, msg);
      }
      assert (FrameAad(g.alg, part, i, last), msg) in SealsOf(g, part, pt);
    }
  }

  lemma OwnNumber(g: Geometry, part: nat, part': nat, i: nat, last: bool)
    requires part < TWO_32 && part' < TWO_32 && part != part' && i < TWO_64
    ensures FrameAad(g.alg, part, i, last) != FrameAad(g.alg, part', 0, true)
  {
    if FrameAad(g.alg, part, i, last) == FrameAad(g.alg, part', 0, true) {
      FrameAadInjective(g.alg, part, i, last, g.alg, part', 0, true);
    }
  }

  /** No forgery among the frames that a reader takes for one stretch of a part: those it
      has in full, and the one that remains once the stretch has arrived. */
  ghost predicate StretchGenuine(aead: Aead, g: Geometry, key: Bytes, seals: Seals, part: nat, i: nat, ends: bool,
                                 len: nat, cut: Bytes)
    requires g.chunkSize > 0
  {
    && FramesGenuine(aead, g, key, seals, part, i, cut)
    && (|cut| == len ==> RunGenuine(aead, g, key, seals, part, i, ends, cut))
  }

  lemma StretchFront(aead: Aead, g: Geometry, key: Bytes, seals: Seals, part: nat, i: nat, ends: bool, segs: seq<Segment>,
                     k: nat, done: Bytes, cur: Bytes, b: Bytes)
    requires g.chunkSize > 0 && k < |segs| && |done| == TotalLen(segs[..k]) && |cur| <= segs[k].len && done + cur <= b
    requires StretchGenuine(aead, g, key, seals, part, i, ends, segs[k].len, OwnBytes(segs, k, b))
    ensures FramesGenuine(aead, g, key, seals, part, i, cur)
  {
    hide FramesGenuine, RunGenuine, TotalLen;
    var own := OwnBytes(segs, k, b);
    OwnFront(segs, k, done, cur, b);
    FramesGenuinePrefix(aead, g, key, seals, part, i, own, |cur|);
  }

  lemma OwnFront(segs: seq<Segment>, k: nat, done: Bytes, cur: Bytes, b: Bytes)
    requires k < |segs| && |done| == TotalLen(segs[..k]) && |cur| <= segs[k].len && done + cur <= b
    ensures |cur| <= |OwnBytes(segs, k, b)| && OwnBytes(segs, k, b)[..|cur|] == cur
  {
    hide TotalLen;
    var own := OwnBytes(segs, k, b);
    assert b[..|done + cur|] == done + cur;
    forall i | 0 <= i < |cur| ensures own[i] == cur[i] {
      assert own[i] == b[|done| + i] == (done + cur)[|done| + i];
    }
  }

  // ---------------------------------------------------------------- full reads

  /** No forgery among the frames that a reader of the listed parts takes from `b`. */
  ghost predicate PartsGenuine(aead: Aead, g: Geometry, key: Bytes, seals: Seals, sizes: seq<PartSize>, b: Bytes)
    requires g.chunkSize > 0
  {
    var segs := PartSegments(g, ReaderOf(aead, g.alg, key), LayoutOf(g, sizes));
    forall k :: 0 <= k < |sizes| ==>
      StretchGenuine(aead, g, key, seals, sizes[k].number, 0, true, segs[k].len, OwnBytes(segs, k, b))
  }

  /** None in the frame that is taken for the footer's. */
  ghost predicate FooterGenuine(aead: Aead, alg: Alg, key: Bytes, seals: Seals, a: Answers) {
    a.frame.Some? ==> Genuine(aead, alg, key, seals, FOOTER_PART_NUMBER, 0, true, a.frame.value)
  }

  ghost predicate FooterSealed(g: Geometry, seals: Seals, f: Footer) {
    WellFormed(f) && f.alg == g.alg && SealedAt(g, seals, FOOTER_PART_NUMBER, 0, true, Record(f))
  }

  /** A text of a listed part, all of it sealed under the part's number. */
  ghost predicate SealedPart(g: Geometry, seals: Seals, size: PartSize, t: Bytes)
    requires g.chunkSize > 0
  {
    |t| == size.ptLen && SealedText(g, seals, size.number, 0, t)
  }

  ghost predicate SealedParts(g: Geometry, seals: Seals, sizes: seq<PartSize>, texts: seq<Bytes>)
    requires g.chunkSize > 0
  {
    |texts| <= |sizes| && forall k :: 0 <= k < |texts| ==> SealedPart(g, seals, sizes[k], texts[k])
  }

  /** A sealed footer and one sealed text for each part that it lists. */
  ghost predicate Deliverable(g: Geometry, seals: Seals, f: Footer, texts: seq<Bytes>)
    requires g.chunkSize > 0
  {
    FooterSealed(g, seals, f) && |texts| == |f.parts| && SealedParts(g, seals, f.parts, texts)
  }

  /** Sealed texts of the first parts and sealed chunks from the start of the next. */
  ghost predicate DeliverableFront(g: Geometry, seals: Seals, sizes: seq<PartSize>, texts: seq<Bytes>, own: Bytes)
    requires g.chunkSize > 0
  {
    |texts| < |sizes| && SealedParts(g, seals, sizes, texts) && SealedChunks(g, seals, sizes[|texts|].number, 0, own)
  }

  /** `out` is a sealed text of every part that the sealed footer `f` lists, or a front of that. */
  ghost predicate DeliversAll(g: Geometry, seals: Seals, f: Footer, out: Bytes)
    requires g.chunkSize > 0
  {
    exists texts: seq<Bytes> :: Deliverable(g, seals, f, texts) && out == Concat(texts)
  }

  ghost predicate DeliversFront(g: Geometry, seals: Seals, f: Footer, out: Bytes)
    requires g.chunkSize > 0
  {
    FooterSealed(g, seals, f)
    && exists texts: seq<Bytes>, own: Bytes :: DeliverableFront(g, seals, f.parts, texts, own) && out == Concat(texts) + own
  }

  /** A footer that loads was sealed. */
  lemma LoadedIsSealed(aead: Aead, g: Geometry, key: Bytes, seals: Seals, a: Answers, f: Footer)
    requires FooterGenuine(aead, g.alg, key, seals, a) && Loads(g.alg, ReaderOf(aead, g.alg, key)(FOOTER_PART_NUMBER), a, f)
    ensures FooterSealed(g, seals, f)
  {
    hide Record, WellFormed, OpenFrame, FrameAad;
  }

  /** What the parts of `b` read as, one text for each that reads at all. */
  function ReadTexts(segs: seq<Segment>, b: Bytes): seq<Bytes> {
    seq(|segs|, k requires 0 <= k < |segs| => var r := segs[k].read(OwnBytes(segs, k, b)); if r.Some? then r.value else [])
  }

  lemma TextsRead(segs: seq<Segment>, b: Bytes)
    ensures ReadsAs(segs, ReadTexts(segs, b), b)
  {
  }

  lemma PartReads(aead: Aead, g: Geometry, key: Bytes, seals: Seals, sizes: seq<PartSize>, b: Bytes, k: nat)
    requires g.chunkSize > 0 && Lawful(aead) && PartsGenuine(aead, g, key, seals, sizes, b) && k < |sizes|
    requires var segs := PartSegments(g, ReaderOf(aead, g.alg, key), LayoutOf(g, sizes));
             |OwnBytes(segs, k, b)| == segs[k].len && segs[k].read(OwnBytes(segs, k, b)).Some?
    ensures SealedPart(g, seals, sizes[k], ReadTexts(PartSegments(g, ReaderOf(aead, g.alg, key), LayoutOf(g, sizes)), b)[k])
  {
    hide RunGenuine, FramesGenuine, Lawful, OwnBytes, DecryptAll, SealedText, OpenerOf, CiphertextLen;
    var opens := ReaderOf(aead, g.alg, key);
    var segs := PartSegments(g, opens, LayoutOf(g, sizes));
    assert opens(sizes[k].number) == OpenerOf(aead, g.alg, key, sizes[k].number);
    AcceptedIsSealed(aead, g, key, seals, sizes[k].number, OwnBytes(segs, k, b), sizes[k].ptLen);
  }

  /** The first `k` parts, read one after the other, are sealed texts. */
  lemma PartsReadSealed(aead: Aead, g: Geometry, key: Bytes, seals: Seals, sizes: seq<PartSize>, b: Bytes, k: nat, done: Bytes)
    requires g.chunkSize > 0 && Lawful(aead) && PartsGenuine(aead, g, key, seals, sizes, b) && k <= |sizes| && done <= b
    requires var segs := PartSegments(g, ReaderOf(aead, g.alg, key), LayoutOf(g, sizes));
             |done| == TotalLen(segs[..k]) && TextOf(segs[..k], done).Some?
    ensures var segs := PartSegments(g, ReaderOf(aead, g.alg, key), LayoutOf(g, sizes));
            && TextOf(segs[..k], done).value == Concat(ReadTexts(segs, b)[..k])
            && SealedParts(g, seals, sizes, ReadTexts(segs, b)[..k])
  {
    hide PartsGenuine, Lawful, TextOf, TotalLen, ReaderOf, PartSegments, SealedPart, OwnBytes, ReadsAs;
    var segs := PartSegments(g, ReaderOf(aead, g.alg, key), LayoutOf(g, sizes));
    SegmentCount(g, ReaderOf(aead, g.alg, key), sizes);
    TextsRead(segs, b);
    ReadsTexts(segs, ReadTexts(segs, b), b, k, done);
    forall j | 0 <= j < k ensures SealedPart(g, seals, sizes[j], ReadTexts(segs, b)[j]) {
      ReadInFull(segs, b, k, done, j);
      PartReads(aead, g, key, seals, sizes, b, j);
    }
  }

  lemma SegmentCount(g: Geometry, opens: Openers, sizes: seq<PartSize>)
    requires g.chunkSize > 0
    ensures |PartSegments(g, opens, LayoutOf(g, sizes))| == |sizes|
  {
  }

  /** A full read delivers sealed texts of the parts that a sealed footer lists; one that
      fails has delivered a front of that. */
  method SealedFullGet(aead: Aead, g: Geometry, key: Bytes, ghost seals: Seals, a: Answers, body: seq<Frame>)
    returns (length: nat, out: Bytes, ok: bool)
    requires g.chunkSize > 0 && Lawful(aead) && FooterGenuine(aead, g.alg, key, seals, a)
    requires forall f :: Loads(g.alg, ReaderOf(aead, g.alg, key)(FOOTER_PART_NUMBER), a, f) ==>
               PartsGenuine(aead, g, key, seals, f.parts, Arrived(body))
    ensures ok ==> exists f :: DeliversAll(g, seals, f, out) && length == f.totalPt
    ensures !ok && out != [] ==> exists f :: DeliversFront(g, seals, f, out) && length == f.totalPt
  {
    hide FooterGenuine, PartsGenuine, PartSegments, SentParts, TextOf, TotalLen, ReaderOf, Loads, SealedParts, Lawful, DeliverableFront;
    var opens := ReaderOf(aead, g.alg, key);
    length, out, ok := FullGet(g, opens, a, body);
    if exists f :: Loads(g.alg, opens(FOOTER_PART_NUMBER), a, f) {
      ghost var f :| Loads(g.alg, opens(FOOTER_PART_NUMBER), a, f);
      LoadedIsSealed(aead, g, key, seals, a, f);
      if ok {
        ghost var texts := WholeRead(aead, g, key, seals, f.parts, Arrived(body));
        assert DeliversAll(g, seals, f, out);
      } else {
        ghost var texts, own := FrontRead(aead, g, key, seals, f.parts, Arrived(body), out);
        assert DeliversFront(g, seals, f, out);
      }
    }
  }

  lemma WholeRead(aead: Aead, g: Geometry, key: Bytes, seals: Seals, sizes: seq<PartSize>, b: Bytes) returns (texts: seq<Bytes>)
    requires g.chunkSize > 0 && Lawful(aead) && PartsGenuine(aead, g, key, seals, sizes, b)
    requires PartsText(g, ReaderOf(aead, g.alg, key), sizes, b).Some?
    ensures |texts| == |sizes| && SealedParts(g, seals, sizes, texts)
    ensures PartsText(g, ReaderOf(aead, g.alg, key), sizes, b).value == Concat(texts)
  {
    hide PartsGenuine, TextOf, TotalLen, ReaderOf, Lawful, PartSegments, SealedParts;
    var segs := PartSegments(g, ReaderOf(aead, g.alg, key), LayoutOf(g, sizes));
    SegmentCount(g, ReaderOf(aead, g.alg, key), sizes);
    assert segs[..|segs|] == segs && ReadTexts(segs, b)[..|segs|] == ReadTexts(segs, b);
    PartsReadSealed(aead, g, key, seals, sizes, b, |sizes|, b[..TotalLen(segs)]);
    texts := ReadTexts(segs, b);
  }

  lemma FrontRead(aead: Aead, g: Geometry, key: Bytes, seals: Seals, sizes: seq<PartSize>, b: Bytes, sent: Bytes)
      returns (texts: seq<Bytes>, own: Bytes)
    requires g.chunkSize > 0 && Lawful(aead) && PartsGenuine(aead, g, key, seals, sizes, b)
    requires var spans := LayoutOf(g, sizes);
             SentParts(g, ReaderOf(aead, g.alg, key), spans, PartSegments(g, ReaderOf(aead, g.alg, key), spans), b, sent)
    ensures DeliverableFront(g, seals, sizes, texts, own) && sent == Concat(texts) + own
  {
    hide FramesGenuine, RunGenuine, TextOf, TotalLen, Lawful, SealedParts, OwnBytes, Opened, SealedChunks, OpenerOf;
    var opens, spans := ReaderOf(aead, g.alg, key), LayoutOf(g, sizes);
    var segs := PartSegments(g, opens, spans);
    var k: nat, done, cur, own' :|
      InSegment(segs, k, done, cur, own', done + cur, sent) && done + cur <= b && k < |spans|
      && Opened(g, opens(spans[k].number), 0, cur) == Some(own');
    assert (done + cur)[..|done|] == done;
    PartsReadSealed(aead, g, key, seals, sizes, b, k, done);
    assert StretchGenuine(aead, g, key, seals, sizes[k].number, 0, true, segs[k].len, OwnBytes(segs, k, b));
    StretchFront(aead, g, key, seals, sizes[k].number, 0, true, segs, k, done, cur, b);
    assert opens(sizes[k].number) == OpenerOf(aead, g.alg, key, sizes[k].number);
    OpenedIsSealed(aead, g, key, seals, sizes[k].number, 0, cur);
    texts, own := ReadTexts(segs, b)[..k], own';
  }

  // ---------------------------------------------------------------- full reads of one upload

  function Texts(parts: seq<Part>): seq<Bytes> {
    seq(|parts|, k requires 0 <= k < |parts| => parts[k].pt)
  }

  lemma {:induction false} TextsAre(parts: seq<Part>)
    ensures Concat(Texts(parts)) == ObjectPt(parts)
  {
    if |parts| > 0 {
      var n := |parts| - 1;
      TextsAre(parts[..n]);
      assert Texts(parts)[..n] == Texts(parts[..n]);
    }
  }

  /** Where the key sealed one upload, only that footer and only those texts were sealed. */
  lemma OnlyUploaded(g: Geometry, seals: Seals, parts: seq<Part>, f: Footer, f': Footer, texts: seq<Bytes>)
    requires g.chunkSize > 0 && SealedObject(g, seals, parts, f) && FooterSealed(g, seals, f')
    requires SealedParts(g, seals, f'.parts, texts)
    ensures f' == f && f.parts == Sizes(parts) && texts == Texts(parts)[..|texts|]
  {
    hide SealsOnly, Record, WellFormed, FrameAad, SealedText;
    OneReading(f, f');
    forall k | 0 <= k < |texts| ensures texts[k] == Texts(parts)[k] {
      assert SealedPart(g, seals, f.parts[k], texts[k]) && SealsOnly(g, seals, parts[k].number, parts[k].pt);
      OnlyText(g, seals, parts[k].number, parts[k].pt, 0, texts[k]);
    }
  }

  lemma OnlyUploadedFront(g: Geometry, seals: Seals, parts: seq<Part>, f: Footer, texts: seq<Bytes>, own: Bytes)
    requires g.chunkSize > 0 && SealedObject(g, seals, parts, f) && FooterSealed(g, seals, f)
    requires DeliverableFront(g, seals, f.parts, texts, own)
    ensures Concat(texts) + own <= ObjectPt(parts)
  {
    hide SealsOnly, Record, WellFormed, FrameAad, SealedChunks;
    var k := |texts|;
    OnlyUploaded(g, seals, parts, f, f, texts);
    assert SealsOnly(g, seals, parts[k].number, parts[k].pt);
    OnlyFront(g, seals, parts[k].number, parts[k].pt, 0, own);
    FrontOfConcat(Texts(parts), k, own);
    TextsAre(parts);
  }

  /** A full GET of an object whose key sealed one upload of each part and one footer, from
      a backend that answers with any bytes: what the client is sent is the beginning of the
      uploaded plaintext, and all of it if no error ends the stream. */
  method UntrustedFullGet(aead: Aead, g: Geometry, key: Bytes, ghost seals: Seals, ghost parts: seq<Part>, ghost f: Footer,
                          a: Answers, body: seq<Frame>) returns (length: nat, out: Bytes, ok: bool)
    requires g.chunkSize > 0 && Lawful(aead) && SealedObject(g, seals, parts, f) && FooterGenuine(aead, g.alg, key, seals, a)
    requires PartsGenuine(aead, g, key, seals, Sizes(parts), Arrived(body))
    ensures out <= ObjectPt(parts)
    ensures ok ==> out == ObjectPt(parts) && length == f.totalPt
  {
    hide SealedObject, FooterGenuine, PartsGenuine, FooterSealed, ObjectPt, ReaderOf, Loads, Lawful, SealedParts, DeliverableFront;
    forall f' | Loads(g.alg, ReaderOf(aead, g.alg, key)(FOOTER_PART_NUMBER), a, f')
      ensures PartsGenuine(aead, g, key, seals, f'.parts, Arrived(body))
    {
      LoadedIsSealed(aead, g, key, seals, a, f');
      NoTexts(g, seals, f'.parts);
      OnlyUploaded(g, seals, parts, f, f', []);
    }
    length, out, ok := SealedFullGet(aead, g, key, seals, a, body);
    if ok {
      ghost var f' :| DeliversAll(g, seals, f', out) && length == f'.totalPt;
      ghost var texts: seq<Bytes> :| Deliverable(g, seals, f', texts) && out == Concat(texts);
      OnlyUploaded(g, seals, parts, f, f', texts);
      TextsAre(parts);
      assert Texts(parts)[..|texts|] == Texts(parts);
    } else if out != [] {
      ghost var f' :| DeliversFront(g, seals, f', out) && length == f'.totalPt;
      NoTexts(g, seals, f'.parts);
      OnlyUploaded(g, seals, parts, f, f', []);
      ghost var texts: seq<Bytes>, own: Bytes :| DeliverableFront(g, seals, f'.parts, texts, own) && out == Concat(texts) + own;
      OnlyUploadedFront(g, seals, parts, f, texts, own);
    }
  }

  lemma NoTexts(g: Geometry, seals: Seals, sizes: seq<PartSize>)
    requires g.chunkSize > 0
    ensures SealedParts(g, seals, sizes, [])
  {
  }

  // ---------------------------------------------------------------- ranged reads

  /** A part's share of a range: its plaintext from `from` to `to`. */
  datatype PartShare = PartShare(part: Part, from: nat, to: nat)

  /** The shares that the parts have in a range, in order. */
  function SharesOf(g: Geometry, parts: seq<Part>, start: nat, end: nat): seq<PartShare>
    requires g.chunkSize > 0
  {
    if |parts| == 0 then []
    else
      var n := |parts| - 1;
      var span := SpanAt(g, Sizes(parts), n);
      var before := SharesOf(g, parts[..n], start, end);
      if Touches(span, start, end) then before + [PartShare(parts[n], LocalStart(span, start), LocalEnd(span, end))] else before
  }

  /** An entry that fetches a share. */
  ghost predicate Fetches(g: Geometry, e: Entry, s: PartShare)
    requires g.chunkSize > 0
  {
    && e.span.number == s.part.number && e.span.ptLen == |s.part.pt| && s.from <= s.to <= |s.part.pt|
    && Describes(g, |s.part.pt|, s.from, s.to, e.plan)
  }

  /** Entry and share belong to the same part. */
  ghost predicate FromPart(g: Geometry, parts: seq<Part>, e: Entry, s: PartShare)
    requires g.chunkSize > 0
  {
    exists p: nat :: p < |parts| && e.span == SpanAt(g, Sizes(parts), p) && s.part == parts[p]
  }

  lemma FromEarlier(g: Geometry, parts: seq<Part>, e: Entry, s: PartShare)
    requires g.chunkSize > 0 && |parts| > 0 && FromPart(g, parts[..|parts| - 1], e, s)
    ensures FromPart(g, parts, e, s)
  {
    hide SpanAt;
    var n := |parts| - 1;
    var p: nat :| p < n && e.span == SpanAt(g, Sizes(parts[..n]), p) && s.part == parts[..n][p];
    SameSpan(g, parts, n, p);
  }

  lemma SameSpan(g: Geometry, parts: seq<Part>, n: nat, p: nat)
    requires g.chunkSize > 0 && p < n <= |parts|
    ensures SpanAt(g, Sizes(parts[..n]), p) == SpanAt(g, Sizes(parts), p)
  {
    assert Sizes(parts)[..p] == Sizes(parts[..n])[..p];
  }

  lemma FromLast(g: Geometry, parts: seq<Part>, e: Entry, s: PartShare)
    requires g.chunkSize > 0 && |parts| > 0 && e.span == SpanAt(g, Sizes(parts), |parts| - 1) && s.part == parts[|parts| - 1]
    ensures FromPart(g, parts, e, s)
  {
  }

  lemma {:induction false} SharesFetched(g: Geometry, parts: seq<Part>, start: nat, end: nat)
    requires g.chunkSize > 0 && start < end
    ensures var entries, shares := EntriesFor(g, LayoutOf(g, Sizes(parts)), start, end), SharesOf(g, parts, start, end);
            |entries| == |shares| && forall k :: 0 <= k < |shares| ==> Fetches(g, entries[k], shares[k]) && FromPart(g, parts, entries[k], shares[k])
  {
    hide Fetches, PlanRange, FromPart, Touches, SpanAt, LocalStart, LocalEnd;
    if |parts| > 0 {
      var n := |parts| - 1;
      SharesFetched(g, parts[..n], start, end);
      LayoutSnoc(g, parts);
      var span := SpanAt(g, Sizes(parts), n);
      var before, shares := EntriesFor(g, LayoutOf(g, Sizes(parts[..n])), start, end), SharesOf(g, parts[..n], start, end);
      forall k | 0 <= k < |shares| ensures FromPart(g, parts, before[k], shares[k]) {
        FromEarlier(g, parts, before[k], shares[k]);
      }
      LayoutLast(g, parts);
      if Touches(span, start, end) {
        LastFetched(g, parts, span, start, end);
      }
    }
  }

  lemma LayoutLast(g: Geometry, parts: seq<Part>)
    requires g.chunkSize > 0 && |parts| > 0
    ensures LayoutOf(g, Sizes(parts))[|parts| - 1] == SpanAt(g, Sizes(parts), |parts| - 1)
  {
  }

  lemma LastFetched(g: Geometry, parts: seq<Part>, span: PartSpan, start: nat, end: nat)
    requires g.chunkSize > 0 && |parts| > 0 && start < end
    requires span == SpanAt(g, Sizes(parts), |parts| - 1) && Touches(span, start, end)
    ensures var from, to := LocalStart(span, start), LocalEnd(span, end);
            && PlanRange(g, span.ptLen, from, to).Ok?
            && var e := Entry(span, PlanRange(g, span.ptLen, from, to).value);
               var s := PartShare(parts[|parts| - 1], from, to);
               Fetches(g, e, s) && FromPart(g, parts, e, s)
  {
    hide Describes, PlanRange, FromPart;
    var from, to := LocalStart(span, start), LocalEnd(span, end);
    TouchedIsPlanned(g, span, start, end);
    PlanDescribes(g, span.ptLen, from, to);
    FromLast(g, parts, Entry(span, PlanRange(g, span.ptLen, from, to).value), PartShare(parts[|parts| - 1], from, to));
  }

  lemma LayoutSnoc(g: Geometry, parts: seq<Part>)
    requires g.chunkSize > 0 && |parts| > 0
    ensures var n := |parts| - 1;
            && LayoutOf(g, Sizes(parts))[..n] == LayoutOf(g, Sizes(parts[..n]))
            && SpanAt(g, Sizes(parts), n).ptStart == |ObjectPt(parts[..n])|
  {
    hide CtTotal, CiphertextLen;
    var n := |parts| - 1;
    assert Sizes(parts)[..n] == Sizes(parts[..n]);
    forall k | 0 <= k < n ensures LayoutOf(g, Sizes(parts))[k] == LayoutOf(g, Sizes(parts[..n]))[k] {
      assert Sizes(parts)[..k] == Sizes(parts[..n])[..k];
    }
    PtTotalIs(parts[..n]);
  }

  lemma {:induction false} PtTotalIs(parts: seq<Part>)
    ensures PtTotal(Sizes(parts)) == |ObjectPt(parts)|
  {
    if |parts| > 0 {
      var n := |parts| - 1;
      PtTotalIs(parts[..n]);
      assert Sizes(parts)[..n] == Sizes(parts[..n]);
    }
  }

  function ShareText(s: PartShare): Bytes {
    if s.from <= s.to <= |s.part.pt| then s.part.pt[s.from..s.to] else []
  }

  function ShareTexts(shares: seq<PartShare>): seq<Bytes> {
    seq(|shares|, k requires 0 <= k < |shares| => ShareText(shares[k]))
  }

  /** The bytes of `pt` that a range selects. */
  function InRange(pt: Bytes, start: nat, end: nat): Bytes
    requires start < end
  {
    pt[Min(start, |pt|)..Min(end, |pt|)]
  }

  /** A part behind `pt` adds its share to the range, and an untouched one nothing. */
  lemma InRangeGrows(pt: Bytes, part: Part, span: PartSpan, start: nat, end: nat)
    requires start < end && span.ptStart == |pt| && span.ptLen == |part.pt|
    ensures InRange(pt + part.pt, start, end)
            == if Touches(span, start, end)
               then InRange(pt, start, end) + ShareText(PartShare(part, LocalStart(span, start), LocalEnd(span, end)))
               else InRange(pt, start, end)
  {
    var all, lo, hi := pt + part.pt, Min(start, |pt|), Min(end, |pt|);
    if Touches(span, start, end) {
      var from, to := LocalStart(span, start), LocalEnd(span, end);
      assert lo + from == Min(start, |all|) && hi + to == Min(end, |all|);
      SliceOfJoin(pt, part.pt, lo, hi, from, to);
    } else {
      assert InRange(all, start, end) == pt[lo..hi];
    }
  }

  lemma ShareTextsPush(shares: seq<PartShare>, s: PartShare)
    ensures Concat(ShareTexts(shares + [s])) == Concat(ShareTexts(shares)) + ShareText(s)
  {
    assert ShareTexts(shares + [s]) == ShareTexts(shares) + [ShareText(s)];
    ConcatPush(ShareTexts(shares), ShareText(s));
  }

  /** The shares, put together, are the range. */
  lemma {:induction false} SharesAreRange(g: Geometry, parts: seq<Part>, start: nat, end: nat)
    requires g.chunkSize > 0 && start < end
    ensures Concat(ShareTexts(SharesOf(g, parts, start, end))) == InRange(ObjectPt(parts), start, end)
  {
    hide ShareText, LocalStart, LocalEnd, Touches, ShareTexts, InRange;
    if |parts| == 0 {
      NoShares(start, end);
    } else {
      var n := |parts| - 1;
      SharesAreRange(g, parts[..n], start, end);
      LayoutSnoc(g, parts);
      var span := SpanAt(g, Sizes(parts), n);
      InRangeGrows(ObjectPt(parts[..n]), parts[n], span, start, end);
      if Touches(span, start, end) {
        TouchedEnd(span, start, end);
        ShareTextsPush(SharesOf(g, parts[..n], start, end), PartShare(parts[n], LocalStart(span, start), LocalEnd(span, end)));
      }
    }
  }

  lemma NoShares(start: nat, end: nat)
    requires start < end
    ensures Concat(ShareTexts([])) == InRange([], start, end)
  {
  }

  lemma TouchedEnd(span: PartSpan, start: nat, end: nat)
    requires Touches(span, start, end)
    ensures span.ptStart <= end
  {
  }

  /** No forgery among the frames that a reader of the entries takes from `b`. */
  ghost predicate EntriesGenuine(aead: Aead, g: Geometry, key: Bytes, seals: Seals, entries: seq<Entry>, b: Bytes)
    requires g.chunkSize > 0
  {
    var segs := EntrySegments(g, ReaderOf(aead, g.alg, key), entries);
    forall k :: 0 <= k < |entries| ==>
      StretchGenuine(aead, g, key, seals, entries[k].span.number, entries[k].plan.firstChunk, EndsPart(g, entries[k]),
                     segs[k].len, OwnBytes(segs, k, b))
  }

  /** Every entry plans a range of its part. */
  ghost predicate AllPlanned(g: Geometry, entries: seq<Entry>)
    requires g.chunkSize > 0
  {
    WellPlanned(entries) && forall k :: 0 <= k < |entries| ==> PlansSome(g, entries[k])
  }

  ghost predicate PlansSome(g: Geometry, e: Entry)
    requires g.chunkSize > 0
  {
    exists from: nat, to: nat :: from <= to <= e.span.ptLen && Describes(g, e.span.ptLen, from, to, e.plan)
  }

  ghost predicate SealedEntry(g: Geometry, seals: Seals, e: Entry, t: Bytes)
    requires g.chunkSize > 0
  {
    SealedSlice(g, seals, e.span.number, e.plan, EndsPart(g, e), t)
  }

  ghost predicate SealedEntries(g: Geometry, seals: Seals, entries: seq<Entry>, texts: seq<Bytes>)
    requires g.chunkSize > 0
  {
    |texts| <= |entries| && forall k :: 0 <= k < |texts| ==> SealedEntry(g, seals, entries[k], texts[k])
  }

  ghost predicate SealedEntriesFront(g: Geometry, seals: Seals, entries: seq<Entry>, texts: seq<Bytes>, own: Bytes)
    requires g.chunkSize > 0
  {
    && |texts| < |entries| && SealedEntries(g, seals, entries, texts)
    && SealedFront(g, seals, entries[|texts|].span.number, entries[|texts|].plan, own)
  }

  lemma {:induction false} EntriesPlanned(g: Geometry, spans: seq<PartSpan>, start: nat, end: nat)
    requires g.chunkSize > 0 && start < end
    ensures forall k :: 0 <= k < |EntriesFor(g, spans, start, end)| ==> PlansSome(g, EntriesFor(g, spans, start, end)[k])
  {
    hide Describes, PlanRange, PlansSome;
    if |spans| > 0 {
      EntriesPlanned(g, spans[..|spans| - 1], start, end);
      var span := spans[|spans| - 1];
      if Touches(span, start, end) {
        LastPlanned(g, span, start, end);
      }
    }
  }

  lemma LastPlanned(g: Geometry, span: PartSpan, start: nat, end: nat)
    requires g.chunkSize > 0 && start < end && Touches(span, start, end)
    ensures PlanRange(g, span.ptLen, LocalStart(span, start), LocalEnd(span, end)).Ok?
    ensures PlansSome(g, Entry(span, PlanRange(g, span.ptLen, LocalStart(span, start), LocalEnd(span, end)).value))
  {
    hide Describes;
    TouchedIsPlanned(g, span, start, end);
    PlanDescribes(g, span.ptLen, LocalStart(span, start), LocalEnd(span, end));
  }

  lemma EntryReads(aead: Aead, g: Geometry, key: Bytes, seals: Seals, entries: seq<Entry>, b: Bytes, k: nat)
    requires g.chunkSize > 0 && Lawful(aead) && EntriesGenuine(aead, g, key, seals, entries, b) && k < |entries|
    requires AllPlanned(g, entries)
    requires var segs := EntrySegments(g, ReaderOf(aead, g.alg, key), entries);
             |OwnBytes(segs, k, b)| == segs[k].len && segs[k].read(OwnBytes(segs, k, b)).Some?
    ensures SealedEntry(g, seals, entries[k], ReadTexts(EntrySegments(g, ReaderOf(aead, g.alg, key), entries), b)[k])
  {
    hide RunGenuine, FramesGenuine, Lawful, OwnBytes, RangeText, SealedSlice, OpenerOf, Describes, EndsPart;
    var opens, e := ReaderOf(aead, g.alg, key), entries[k];
    var segs := EntrySegments(g, opens, entries);
    assert PlansSome(g, e);
    var from: nat, to: nat :| from <= to <= e.span.ptLen && Describes(g, e.span.ptLen, from, to, e.plan);
    assert opens(e.span.number) == OpenerOf(aead, g.alg, key, e.span.number);
    SliceIsSealed(aead, g, key, seals, e.span.number, e.span.ptLen, from, to, e.plan, EndsPart(g, e), OwnBytes(segs, k, b));
  }

  lemma EntriesReadSealed(aead: Aead, g: Geometry, key: Bytes, seals: Seals, entries: seq<Entry>, b: Bytes, k: nat, done: Bytes)
    requires g.chunkSize > 0 && Lawful(aead) && EntriesGenuine(aead, g, key, seals, entries, b) && k <= |entries| && done <= b
    requires AllPlanned(g, entries)
    requires var segs := EntrySegments(g, ReaderOf(aead, g.alg, key), entries);
             |done| == TotalLen(segs[..k]) && TextOf(segs[..k], done).Some?
    ensures var segs := EntrySegments(g, ReaderOf(aead, g.alg, key), entries);
            && TextOf(segs[..k], done).value == Concat(ReadTexts(segs, b)[..k])
            && SealedEntries(g, seals, entries, ReadTexts(segs, b)[..k])
  {
    hide EntriesGenuine, Lawful, TextOf, TotalLen, ReaderOf, EntrySegment, SealedEntry, OwnBytes, ReadsAs, AllPlanned;
    var segs := EntrySegments(g, ReaderOf(aead, g.alg, key), entries);
    TextsRead(segs, b);
    ReadsTexts(segs, ReadTexts(segs, b), b, k, done);
    forall j | 0 <= j < k ensures SealedEntry(g, seals, entries[j], ReadTexts(segs, b)[j]) {
      ReadInFull(segs, b, k, done, j);
      EntryReads(aead, g, key, seals, entries, b, j);
    }
  }

  lemma EntriesWhole(aead: Aead, g: Geometry, key: Bytes, seals: Seals, entries: seq<Entry>, b: Bytes) returns (texts: seq<Bytes>)
    requires g.chunkSize > 0 && Lawful(aead) && EntriesGenuine(aead, g, key, seals, entries, b) && AllPlanned(g, entries)
    requires var segs := EntrySegments(g, ReaderOf(aead, g.alg, key), entries);
             |b| >= TotalLen(segs) && TextOf(segs, b[..TotalLen(segs)]).Some?
    ensures |texts| == |entries| && SealedEntries(g, seals, entries, texts)
    ensures var segs := EntrySegments(g, ReaderOf(aead, g.alg, key), entries);
            TextOf(segs, b[..TotalLen(segs)]).value == Concat(texts)
  {
    hide EntriesGenuine, TextOf, TotalLen, ReaderOf, Lawful, SealedEntries, AllPlanned, EntrySegment;
    var segs := EntrySegments(g, ReaderOf(aead, g.alg, key), entries);
    assert segs[..|segs|] == segs && ReadTexts(segs, b)[..|segs|] == ReadTexts(segs, b);
    EntriesReadSealed(aead, g, key, seals, entries, b, |entries|, b[..TotalLen(segs)]);
    texts := ReadTexts(segs, b);
  }

  lemma EntriesFront(aead: Aead, g: Geometry, key: Bytes, seals: Seals, entries: seq<Entry>, b: Bytes, sent: Bytes)
      returns (texts: seq<Bytes>, own: Bytes)
    requires g.chunkSize > 0 && Lawful(aead) && EntriesGenuine(aead, g, key, seals, entries, b) && AllPlanned(g, entries)
    requires SentFront(g, ReaderOf(aead, g.alg, key), entries, EntrySegments(g, ReaderOf(aead, g.alg, key), entries), b, sent)
    ensures SealedEntriesFront(g, seals, entries, texts, own) && sent == Concat(texts) + own
  {
    hide FramesGenuine, RunGenuine, TextOf, TotalLen, Lawful, SealedEntries, OwnBytes, Opened, SealedFront, OpenerOf, Describes, EndsPart,
         RangeText;
    var opens := ReaderOf(aead, g.alg, key);
    var segs := EntrySegments(g, opens, entries);
    var k: nat, done, cur, own' :|
      InSegment(segs, k, done, cur, own', done + cur, sent) && done + cur <= b && k < |entries|
      && IsFront(g, opens, entries[k], cur, own');
    var e := entries[k];
    assert (done + cur)[..|done|] == done;
    EntriesReadSealed(aead, g, key, seals, entries, b, k, done);
    assert StretchGenuine(aead, g, key, seals, e.span.number, e.plan.firstChunk, EndsPart(g, e), segs[k].len, OwnBytes(segs, k, b));
    StretchFront(aead, g, key, seals, e.span.number, e.plan.firstChunk, EndsPart(g, e), segs, k, done, cur, b);
    assert PlansSome(g, e) && opens(e.span.number) == OpenerOf(aead, g.alg, key, e.span.number);
    var from: nat, to: nat :| from <= to <= e.span.ptLen && Describes(g, e.span.ptLen, from, to, e.plan);
    FrontIsSealed(aead, g, key, seals, e.span.number, e.span.ptLen, from, to, e.plan, cur);
    texts, own := ReadTexts(segs, b)[..k], own';
  }

  /** The frames of a ranged read of the parts that a loaded footer lists. */
  ghost predicate RangeGenuine(aead: Aead, g: Geometry, key: Bytes, seals: Seals, sizes: seq<PartSize>, range: ByteRange, b: Bytes)
    requires g.chunkSize > 0
  {
    var (from, to) := ResolveRange(range, PtTotal(sizes));
    EntriesGenuine(aead, g, key, seals, RangeEntries(g, sizes, from, to), b)
  }

  lemma RangePlanned(g: Geometry, sizes: seq<PartSize>, start: nat, end: nat)
    requires g.chunkSize > 0 && WellPlanned(RangeEntries(g, sizes, start, end))
    ensures AllPlanned(g, RangeEntries(g, sizes, start, end))
  {
    hide PlansSome, EntriesFor, WellPlanned;
    if start < end {
      EntriesPlanned(g, LayoutOf(g, sizes), start, end);
    }
  }

  /** What was sent of a plan: slices of sealed chunks for all entries, or for the first ones
      and a front of the next. */
  ghost predicate SendsSealed(g: Geometry, seals: Seals, entries: seq<Entry>, sent: Bytes, complete: bool)
    requires g.chunkSize > 0
  {
    if complete
    then exists texts: seq<Bytes> :: |texts| == |entries| && SealedEntries(g, seals, entries, texts) && sent == Concat(texts)
    else exists texts: seq<Bytes>, own: Bytes :: SealedEntriesFront(g, seals, entries, texts, own) && sent == Concat(texts) + own
  }

  /** The answer to a ranged read under the footer `f`. */
  ghost predicate AnswersUnder(g: Geometry, seals: Seals, f: Footer, range: ByteRange, answer: Answer)
    requires g.chunkSize > 0
  {
    && FooterSealed(g, seals, f) && !answer.BadLength?
    && (answer.InvalidRange? ==> ResolveRange(range, PtTotal(f.parts)).0 == PtTotal(f.parts) > 0)
    && (answer.Partial? ==>
          && (answer.start, answer.end) == ResolveRange(range, PtTotal(f.parts)) && answer.start <= answer.end <= PtTotal(f.parts)
          && SendsSealed(g, seals, RangeEntries(g, f.parts, answer.start, answer.end), answer.sent, answer.complete))
  }

  /** A ranged read delivers what the plan for the parts of a sealed footer cuts out of
      sealed chunks; one that fails has delivered a front of that. */
  method SealedRangedGet(aead: Aead, g: Geometry, key: Bytes, ghost seals: Seals, a: Answers, range: ByteRange, body: seq<Frame>)
    returns (r: Result<Answer, LoadError>)
    requires g.chunkSize > 0 && Lawful(aead) && FooterGenuine(aead, g.alg, key, seals, a)
    requires forall f :: FooterSealed(g, seals, f) ==> CtTotal(g, f.parts) < TWO_64
    requires forall f :: Loads(g.alg, ReaderOf(aead, g.alg, key)(FOOTER_PART_NUMBER), a, f) ==>
               RangeGenuine(aead, g, key, seals, f.parts, range, Arrived(body))
    ensures r.Ok? <==> exists f :: Loads(g.alg, ReaderOf(aead, g.alg, key)(FOOTER_PART_NUMBER), a, f)
    ensures r.Ok? ==> exists f :: AnswersUnder(g, seals, f, range, r.value)
  {
    hide FooterGenuine, EntriesGenuine, RangeEntries, SentFront, TextOf, TotalLen, EntrySegments, ReaderOf, Loads, Lawful, FooterSealed,
         SealedEntries, SealedEntriesFront, WellPlanned, AllPlanned, PtTotal, CtTotal, ResolveRange;
    var opens := ReaderOf(aead, g.alg, key);
    var footer := LoadFooter(g.alg, opens(FOOTER_PART_NUMBER), a);
    if footer.Err? {
      return Err(footer.error);
    }
    ghost var f := footer.value;
    LoadedIsSealed(aead, g, key, seals, a, f);
    SealedTotal(g, seals, f);
    var answer := ServeMultipart(g, opens, footer.value.parts, footer.value.totalPt, range, body);
    r := Ok(answer);
    if answer.Partial? {
      ghost var entries := RangeEntries(g, f.parts, answer.start, answer.end);
      RangePlanned(g, f.parts, answer.start, answer.end);
      if answer.complete {
        ghost var texts := EntriesWhole(aead, g, key, seals, entries, Arrived(body));
      } else {
        ghost var texts, own := EntriesFront(aead, g, key, seals, entries, Arrived(body), answer.sent);
      }
    }
    assert AnswersUnder(g, seals, f, range, answer);
  }

  lemma SealedTotal(g: Geometry, seals: Seals, f: Footer)
    requires FooterSealed(g, seals, f)
    ensures f.totalPt == PtTotal(f.parts) % TWO_64
  {
  }

  // ---------------------------------------------------------------- ranged reads of one upload

  lemma EntriesAreShares(g: Geometry, seals: Seals, parts: seq<Part>, f: Footer, start: nat, end: nat, texts: seq<Bytes>)
    requires g.chunkSize > 0 && SealedObject(g, seals, parts, f) && start < end
    requires SealedEntries(g, seals, EntriesFor(g, LayoutOf(g, Sizes(parts)), start, end), texts)
    ensures var shares := SharesOf(g, parts, start, end);
            |texts| <= |shares| && texts == ShareTexts(shares)[..|texts|]
  {
    hide SealsOnly, SealedSlice, Describes, EntriesFor, SharesOf, EndsPart, WellFormed, Record, FrameAad;
    SharesFetched(g, parts, start, end);
    var entries, shares := EntriesFor(g, LayoutOf(g, Sizes(parts)), start, end), SharesOf(g, parts, start, end);
    forall k | 0 <= k < |texts| ensures texts[k] == ShareTexts(shares)[k] {
      var e, s := entries[k], shares[k];
      assert SealedEntry(g, seals, e, texts[k]) && Fetches(g, e, s) && FromPart(g, parts, e, s);
      SliceIsShare(g, seals, s.part.number, s.part.pt, s.from, s.to, e.plan, EndsPart(g, e), texts[k]);
    }
  }

  lemma EntriesFrontIsRange(g: Geometry, seals: Seals, parts: seq<Part>, f: Footer, start: nat, end: nat, texts: seq<Bytes>, own: Bytes)
    requires g.chunkSize > 0 && SealedObject(g, seals, parts, f) && start < end
    requires SealedEntriesFront(g, seals, EntriesFor(g, LayoutOf(g, Sizes(parts)), start, end), texts, own)
    ensures Concat(texts) + own <= InRange(ObjectPt(parts), start, end)
  {
    hide SealsOnly, SealedFront, Describes, EntriesFor, SharesOf, WellFormed, Record, FrameAad, SealedEntries, InRange, ObjectPt, Concat;
    EntriesAreShares(g, seals, parts, f, start, end, texts);
    SharesFetched(g, parts, start, end);
    var entries, shares, k := EntriesFor(g, LayoutOf(g, Sizes(parts)), start, end), SharesOf(g, parts, start, end), |texts|;
    var e, s := entries[k], shares[k];
    assert Fetches(g, e, s) && FromPart(g, parts, e, s);
    FrontIsShare(g, seals, s.part.number, s.part.pt, s.from, s.to, e.plan, own);
    assert own <= ShareTexts(shares)[k];
    FrontOfConcat(ShareTexts(shares), k, own);
    SharesAreRange(g, parts, start, end);
  }

  lemma EntriesAreRange(g: Geometry, seals: Seals, parts: seq<Part>, f: Footer, start: nat, end: nat, texts: seq<Bytes>)
    requires g.chunkSize > 0 && SealedObject(g, seals, parts, f) && start < end
    requires var entries := EntriesFor(g, LayoutOf(g, Sizes(parts)), start, end);
             |texts| == |entries| && SealedEntries(g, seals, entries, texts)
    ensures Concat(texts) == InRange(ObjectPt(parts), start, end)
  {
    hide SealedObject, EntriesFor, SharesOf, SealedEntries, InRange, ObjectPt;
    EntriesAreShares(g, seals, parts, f, start, end, texts);
    SharesFetched(g, parts, start, end);
    var shares := SharesOf(g, parts, start, end);
    assert ShareTexts(shares)[..|shares|] == ShareTexts(shares);
    SharesAreRange(g, parts, start, end);
  }

  /** A ranged GET of an object whose key sealed one upload of each part and one footer, from
      a backend that answers with any bytes: the span is the resolved one, what the client
      is sent is the beginning of the requested bytes, and exactly those if no error ends
      the stream. */
  method UntrustedRangedGet(aead: Aead, g: Geometry, key: Bytes, ghost seals: Seals, ghost parts: seq<Part>, ghost f: Footer,
                            a: Answers, range: ByteRange, body: seq<Frame>) returns (r: Result<Answer, LoadError>)
    requires g.chunkSize > 0 && Lawful(aead) && SealedObject(g, seals, parts, f) && CtTotal(g, Sizes(parts)) < TWO_64
    requires FooterGenuine(aead, g.alg, key, seals, a) && RangeGenuine(aead, g, key, seals, Sizes(parts), range, Arrived(body))
    ensures r.Ok? && r.value.Partial? ==>
              && (r.value.start, r.value.end) == ResolveRange(range, |ObjectPt(parts)|)
              && r.value.start <= r.value.end <= |ObjectPt(parts)|
              && r.value.sent <= ObjectPt(parts)[r.value.start..r.value.end]
              && (r.value.complete ==> r.value.sent == ObjectPt(parts)[r.value.start..r.value.end])
  {
    hide SealedObject, FooterGenuine, RangeGenuine, FooterSealed, ObjectPt, ReaderOf, Loads, Lawful, SealedEntries, SealedEntriesFront,
         EntriesFor, PtTotal, CtTotal, ResolveRange, Sizes;
    forall f' | FooterSealed(g, seals, f') ensures f'.parts == Sizes(parts) {
      NoTexts(g, seals, f'.parts);
      OnlyUploaded(g, seals, parts, f, f', []);
    }
    forall f' | Loads(g.alg, ReaderOf(aead, g.alg, key)(FOOTER_PART_NUMBER), a, f') ensures f'.parts == Sizes(parts) {
      LoadedIsSealed(aead, g, key, seals, a, f');
    }
    PtTotalIs(parts);
    r := SealedRangedGet(aead, g, key, seals, a, range, body);
    if r.Ok? && r.value.Partial? {
      ghost var f' :| AnswersUnder(g, seals, f', range, r.value);
      ghost var start, end := r.value.start, r.value.end;
      SentIsOfRange(g, seals, parts, f, start, end, r.value.sent, r.value.complete);
    }
  }

  /** Where the key sealed one upload, what was sent is the beginning of the range, or all of it. */
  lemma SentIsOfRange(g: Geometry, seals: Seals, parts: seq<Part>, f: Footer, start: nat, end: nat, sent: Bytes, complete: bool)
    requires g.chunkSize > 0 && SealedObject(g, seals, parts, f) && start <= end <= |ObjectPt(parts)|
    requires SendsSealed(g, seals, RangeEntries(g, Sizes(parts), start, end), sent, complete)
    ensures sent <= ObjectPt(parts)[start..end] && (complete ==> sent == ObjectPt(parts)[start..end])
  {
    hide SealedObject, ObjectPt, SealedEntries, SealedEntriesFront, EntriesFor, Sizes;
    var entries := RangeEntries(g, Sizes(parts), start, end);
    if complete {
      var texts: seq<Bytes> :| |texts| == |entries| && SealedEntries(g, seals, entries, texts) && sent == Concat(texts);
      if start == end {
        NothingSealed(g, seals, texts);
      } else {
        EntriesAreRange(g, seals, parts, f, start, end, texts);
      }
    } else {
      var texts: seq<Bytes>, own: Bytes :| SealedEntriesFront(g, seals, entries, texts, own) && sent == Concat(texts) + own;
      if start == end {
        NothingSealed(g, seals, texts);
      } else {
        EntriesFrontIsRange(g, seals, parts, f, start, end, texts, own);
      }
    }
  }

  lemma NothingSealed(g: Geometry, seals: Seals, texts: seq<Bytes>)
    requires g.chunkSize > 0
    ensures SealedEntries(g, seals, [], texts) ==> Concat(texts) == []
    ensures forall own :: !SealedEntriesFront(g, seals, [], texts, own)
  {
  }
}
