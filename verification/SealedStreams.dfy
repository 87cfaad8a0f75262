/** What a reader can be made to deliver is exactly what its key has sealed: chunk by
    chunk, each at its own part, index and flag. Nothing is asked here about how often a
    position was sealed. */
module SealedStreams {
  import opened Bytes
  import opened Cipher
  import opened SizeMath
  import opened FrameSpec
  import opened FrameTheorems

  /** A message that was sealed for one position. */
  ghost predicate SealedAt(g: Geometry, seals: Seals, part: nat, i: nat, last: bool, msg: Bytes) {
    (FrameAad(g.alg, part, i, last), msg) in seals
  }

  /** Full chunks that were sealed, unflagged, from position `i` on. */
  ghost predicate SealedChunks(g: Geometry, seals: Seals, part: nat, i: nat, t: Bytes)
    requires g.chunkSize > 0
    decreases |t|
  {
    t == [] || (|t| >= g.chunkSize && SealedAt(g, seals, part, i, false, t[..g.chunkSize])
                && SealedChunks(g, seals, part, i + 1, t[g.chunkSize..]))
  }

  /** A text whose chunks were sealed from position `i` to a flagged end. */
  ghost predicate SealedText(g: Geometry, seals: Seals, part: nat, i: nat, t: Bytes)
    requires g.chunkSize > 0
    decreases |t|
  {
    if |t| <= g.chunkSize then SealedAt(g, seals, part, i, true, t)
    else SealedAt(g, seals, part, i, false, t[..g.chunkSize]) && SealedText(g, seals, part, i + 1, t[g.chunkSize..])
  }

  // ---------------------------------------------------------------- what opens was sealed

  lemma {:induction false} OpenedIsSealed(aead: Aead, g: Geometry, key: Bytes, seals: Seals, part: nat, i: nat, fed: Bytes)
    requires g.chunkSize > 0 && Lawful(aead) && FramesGenuine(aead, g, key, seals, part, i, fed)
    requires Opened(g, OpenerOf(aead, g.alg, key, part), i, fed).Some?
    ensures var own := Opened(g, OpenerOf(aead, g.alg, key, part), i, fed).value;
            SealedChunks(g, seals, part, i, own) && |own| == Off(g.chunkSize, Ready(g.FrameSize(), |fed|))
    decreases |fed|
  {
    hide Lawful, FrameAad, OpenFrame;
    if |fed| > g.FrameSize() {
      var frame, rest := fed[..g.FrameSize()], fed[g.FrameSize()..];
      OpensOnlySealed(aead, g.alg, key, part, i, false, frame);
      OpenedIsSealed(aead, g, key, seals, part, i + 1, rest);
      var msg := OpenFrame(aead, g.alg, key, part, i, false, frame).value;
      var own := Opened(g, OpenerOf(aead, g.alg, key, part), i + 1, rest).value;
      assert (msg + own)[..g.chunkSize] == msg && (msg + own)[g.chunkSize..] == own;
    }
  }

  /** Lengths of ciphertexts, one full frame at a time. */
  lemma LengthStep(g: Geometry, n: nat)
    requires g.chunkSize > 0
    ensures n <= g.chunkSize ==> CiphertextLen(g.alg, n, g.chunkSize) == n + g.alg.Overhead()
    ensures n > g.chunkSize ==>
              CiphertextLen(g.alg, n, g.chunkSize) == g.FrameSize() + CiphertextLen(g.alg, n - g.chunkSize, g.chunkSize)
              && CiphertextLen(g.alg, n, g.chunkSize) > g.FrameSize()
  {
    NChunksIsReady(n, g.chunkSize);
    if n > g.chunkSize {
      NChunksIsReady(n - g.chunkSize, g.chunkSize);
      MulStep(NChunks(n - g.chunkSize, g.chunkSize), g.alg.Overhead());
      MulMono(0, NChunks(n - g.chunkSize, g.chunkSize), g.alg.Overhead());
    }
  }

  lemma {:induction false} RunIsSealed(aead: Aead, g: Geometry, key: Bytes, seals: Seals, part: nat, i: nat, ct: Bytes, n: nat)
    requires g.chunkSize > 0 && Lawful(aead) && RunGenuine(aead, g, key, seals, part, i, true, ct)
    requires |ct| == CiphertextLen(g.alg, n, g.chunkSize)
    requires var open := OpenerOf(aead, g.alg, key, part);
             Opened(g, open, i, ct).Some? && open(i + Ready(g.FrameSize(), |ct|), true, Tail(g.FrameSize(), ct)).Ok?
    ensures var open := OpenerOf(aead, g.alg, key, part);
            var t := Opened(g, open, i, ct).value + open(i + Ready(g.FrameSize(), |ct|), true, Tail(g.FrameSize(), ct)).value;
            |t| == n && SealedText(g, seals, part, i, t)
    decreases |ct|
  {
    hide Lawful, FrameAad, OpenFrame, CiphertextLen;
    LengthStep(g, n);
    var open := OpenerOf(aead, g.alg, key, part);
    if |ct| <= g.FrameSize() {
      OpensOnlySealed(aead, g.alg, key, part, i, true, ct);
      assert [] + open(i, true, ct).value == open(i, true, ct).value;
    } else {
      var frame, rest := ct[..g.FrameSize()], ct[g.FrameSize()..];
      OpensOnlySealed(aead, g.alg, key, part, i, false, frame);
      RunIsSealed(aead, g, key, seals, part, i + 1, rest, n - g.chunkSize);
      var msg := open(i, false, frame).value;
      var own, last := Opened(g, open, i + 1, rest).value, open(i + Ready(g.FrameSize(), |ct|), true, Tail(g.FrameSize(), ct)).value;
      assert msg + own + last == msg + (own + last);
      assert (msg + (own + last))[..g.chunkSize] == msg && (msg + (own + last))[g.chunkSize..] == own + last;
    }
  }

  // ---------------------------------------------------------------- what was sealed can be delivered

  /** Every chunk of `t` was sealed at its position, counted from `i`. */
  ghost predicate ChunksSealed(g: Geometry, seals: Seals, part: nat, i: nat, t: Bytes)
    requires g.chunkSize > 0
  {
    forall j: nat :: j <= Ready(g.chunkSize, |t|) ==>
      SealedAt(g, seals, part, i + j, j == Ready(g.chunkSize, |t|), ChunkAt(g.chunkSize, t, j))
  }

  lemma FirstChunkSealed(g: Geometry, seals: Seals, part: nat, i: nat, t: Bytes)
    requires g.chunkSize > 0 && |t| > g.chunkSize && ChunksSealed(g, seals, part, i, t)
    ensures SealedAt(g, seals, part, i, false, t[..g.chunkSize]) && ChunksSealed(g, seals, part, i + 1, t[g.chunkSize..])
  {
    hide SealedAt;
    var n := Ready(g.chunkSize, |t|);
    assert SealedAt(g, seals, part, i + 0, 0 == n, ChunkAt(g.chunkSize, t, 0));
    forall j: nat | j <= n - 1 ensures SealedAt(g, seals, part, i + 1 + j, j == n - 1, ChunkAt(g.chunkSize, t[g.chunkSize..], j)) {
      assert SealedAt(g, seals, part, i + (j + 1), j + 1 == n, ChunkAt(g.chunkSize, t, j + 1));
    }
  }

  lemma MoreChunksSealed(g: Geometry, seals: Seals, part: nat, i: nat, t: Bytes)
    requires g.chunkSize > 0 && |t| > g.chunkSize
    requires SealedAt(g, seals, part, i, false, t[..g.chunkSize]) && ChunksSealed(g, seals, part, i + 1, t[g.chunkSize..])
    ensures ChunksSealed(g, seals, part, i, t)
  {
    hide SealedAt;
    var n := Ready(g.chunkSize, |t|);
    forall j: nat | j <= n ensures SealedAt(g, seals, part, i + j, j == n, ChunkAt(g.chunkSize, t, j)) {
      if j > 0 {
        assert SealedAt(g, seals, part, i + 1 + (j - 1), j - 1 == n - 1, ChunkAt(g.chunkSize, t[g.chunkSize..], j - 1));
      }
    }
  }

  lemma {:induction false} SealedTextIs(g: Geometry, seals: Seals, part: nat, i: nat, t: Bytes)
    requires g.chunkSize > 0
    ensures SealedText(g, seals, part, i, t) <==> ChunksSealed(g, seals, part, i, t)
    decreases |t|
  {
    if |t| <= g.chunkSize {
      assert ChunkAt(g.chunkSize, t, 0) == t;
      assert ChunksSealed(g, seals, part, i, t) <==> SealedAt(g, seals, part, i + 0, true, t);
    } else {
      hide SealedAt, ChunksSealed;
      SealedTextIs(g, seals, part, i + 1, t[g.chunkSize..]);
      if ChunksSealed(g, seals, part, i, t) {
        FirstChunkSealed(g, seals, part, i, t);
      }
      if SealedText(g, seals, part, i, t) {
        MoreChunksSealed(g, seals, part, i, t);
      }
    }
  }

  /** Sealed chunk by chunk is sealed as one encryption seals it. */
  lemma SealedTextSeals(g: Geometry, seals: Seals, part: nat, t: Bytes)
    requires g.chunkSize > 0
    ensures SealedText(g, seals, part, 0, t) <==> SealsOf(g, part, t) <= seals
  {
    hide FrameAad, ChunkAt, SealedText;
    SealedTextIs(g, seals, part, 0, t);
    var n := Ready(g.chunkSize, |t|);
    if ChunksSealed(g, seals, part, 0, t) {
      forall s | s in SealsOf(g, part, t) ensures s in seals {
        var j: nat, last: bool, msg: Bytes :| Holds(g, t, j, last, msg) && s == (FrameAad(g.alg, part, j, last), msg);
        assert SealedAt(g, seals, part, 0 + j, j == n, ChunkAt(g.chunkSize, t, j));
      }
    }
    if SealsOf(g, part, t) <= seals {
      forall j: nat | j <= n ensures SealedAt(g, seals, part, 0 + j, j == n, ChunkAt(g.chunkSize, t, j)) {
        assert Holds(g, t, j, j == n, ChunkAt(g.chunkSize, t, j));
      }
    }
  }

  /** Some bytes of a stored length that the code accepts, none of them forged, decrypt
      to `t`. */
  ghost predicate CanDeliver(aead: Aead, g: Geometry, key: Bytes, seals: Seals, part: nat, t: Bytes)
    requires g.chunkSize > 0
  {
    exists ct ::
      && PlaintextLen(g.alg, |ct|, g.chunkSize).Ok? && RunGenuine(aead, g, key, seals, part, 0, true, ct)
      && DecryptAll(g, OpenerOf(aead, g.alg, key, part), ct) == Ok(t)
  }

  /** A stream without a forged frame can deliver a text exactly when every chunk of it was
      sealed at its own part, index and flag. */
  lemma DeliveredIsSealed(aead: Aead, g: Geometry, key: Bytes, seals: Seals, part: nat, t: Bytes)
    requires g.chunkSize > 0 && Lawful(aead)
    ensures CanDeliver(aead, g, key, seals, part, t) <==> SealedText(g, seals, part, 0, t)
  {
    hide SealedText, RunGenuine, Lawful, PlaintextLen, DecryptAll, OpenerOf;
    if CanDeliver(aead, g, key, seals, part, t) {
      var ct :| && PlaintextLen(g.alg, |ct|, g.chunkSize).Ok? && RunGenuine(aead, g, key, seals, part, 0, true, ct)
                && DecryptAll(g, OpenerOf(aead, g.alg, key, part), ct) == Ok(t);
      AcceptsOnlyCiphertextLen(g.alg, |ct|, g.chunkSize);
      AcceptedIsSealed(aead, g, key, seals, part, ct, PlaintextLen(g.alg, |ct|, g.chunkSize).value);
    }
    if SealedText(g, seals, part, 0, t) {
      SealedIsDelivered(aead, g, key, seals, part, t);
    }
  }

  lemma AcceptedIsSealed(aead: Aead, g: Geometry, key: Bytes, seals: Seals, part: nat, ct: Bytes, n: nat)
    requires g.chunkSize > 0 && Lawful(aead) && RunGenuine(aead, g, key, seals, part, 0, true, ct)
    requires |ct| == CiphertextLen(g.alg, n, g.chunkSize)
    requires DecryptAll(g, OpenerOf(aead, g.alg, key, part), ct).Ok?
    ensures var t := DecryptAll(g, OpenerOf(aead, g.alg, key, part), ct).value;
            |t| == n && SealedText(g, seals, part, 0, t)
  {
    hide SealedText, RunGenuine, Lawful, CiphertextLen;
    RunIsSealed(aead, g, key, seals, part, 0, ct, n);
  }

  function ZeroNonces(alg: Alg): Nonces {
    (i: nat) => seq(alg.NonceLen(), _ => 0)
  }

  lemma SealedIsDelivered(aead: Aead, g: Geometry, key: Bytes, seals: Seals, part: nat, t: Bytes)
    requires g.chunkSize > 0 && Lawful(aead) && SealedText(g, seals, part, 0, t)
    ensures CanDeliver(aead, g, key, seals, part, t)
  {
    hide SealedText, FramesGenuine, Genuine, Lawful, SealsOf, PlaintextLen, DecryptAll, EncryptAll, Paired;
    var nonces := ZeroNonces(g.alg);
    var seal, open := SealerOf(aead, g.alg, key, part, nonces), OpenerOf(aead, g.alg, key, part);
    var ct := EncryptAll(g, seal, t);
    SealedTextSeals(g, seals, part, t);
    HonestIsGenuine(aead, g, key, part, nonces, t);
    MoreSeals(aead, g, key, SealsOf(g, part, t), seals, part, 0, ct);
    MoreGenuine(aead, g, key, SealsOf(g, part, t), seals, part, Ready(g.FrameSize(), |ct|), true, Tail(g.FrameSize(), ct));
    PairedStreams(aead, g.alg, key, part, nonces);
    RoundTrip(g, seal, open, t);
    EncryptAllLength(g, seal, open, t);
    InvertsCiphertextLen(g.alg, |t|, g.chunkSize);
  }

  lemma MoreGenuine(aead: Aead, g: Geometry, key: Bytes, seals: Seals, more: Seals, part: nat, i: nat, last: bool, frame: Bytes)
    requires seals <= more && Genuine(aead, g.alg, key, seals, part, i, last, frame)
    ensures Genuine(aead, g.alg, key, more, part, i, last, frame)
  {
  }

  lemma {:induction false} MoreSeals(aead: Aead, g: Geometry, key: Bytes, seals: Seals, more: Seals, part: nat, i: nat, ct: Bytes)
    requires g.chunkSize > 0 && seals <= more && FramesGenuine(aead, g, key, seals, part, i, ct)
    ensures FramesGenuine(aead, g, key, more, part, i, ct)
    decreases |ct|
  {
    hide OpenFrame, FrameAad;
    if |ct| > g.FrameSize() {
      MoreSeals(aead, g, key, seals, more, part, i + 1, ct[g.FrameSize()..]);
    }
  }

  // ---------------------------------------------------------------- positions sealed once

  /** Where only the chunks of `pt` were sealed, a sealed text is `pt`. */
  lemma {:induction false} OnlyText(g: Geometry, seals: Seals, part: nat, pt: Bytes, i: nat, t: Bytes)
    requires g.chunkSize > 0 && |pt| < TWO_64 && SealsOnly(g, seals, part, pt)
    requires i <= Ready(g.chunkSize, |pt|) && SealedText(g, seals, part, i, t)
    ensures Off(g.chunkSize, i) <= |pt| && t == pt[Off(g.chunkSize, i)..]
    decreases |t|
  {
    hide Ready, Off, FrameAad, ChunkAt;
    var msg, last := if |t| <= g.chunkSize then t else t[..g.chunkSize], |t| <= g.chunkSize;
    ReadyBelow(g.chunkSize, |pt|);
    assert SealedAt(g, seals, part, i, last, msg);
    assert Holds(g, pt, i, last, msg);
    PositionOf(g, pt, i);
    if |t| > g.chunkSize {
      OnlyText(g, seals, part, pt, i + 1, t[g.chunkSize..]);
      assert t == t[..g.chunkSize] + t[g.chunkSize..];
    }
  }

  /** Chunk `i` lies at its offset. */
  lemma PositionOf(g: Geometry, pt: Bytes, i: nat)
    requires g.chunkSize > 0 && i <= Ready(g.chunkSize, |pt|)
    ensures Off(g.chunkSize, i) <= |pt|
    ensures i == Ready(g.chunkSize, |pt|) ==> ChunkAt(g.chunkSize, pt, i) == pt[Off(g.chunkSize, i)..]
    ensures i < Ready(g.chunkSize, |pt|) ==>
              Off(g.chunkSize, i + 1) <= |pt|
              && pt[Off(g.chunkSize, i)..] == ChunkAt(g.chunkSize, pt, i) + pt[Off(g.chunkSize, i + 1)..]
  {
    ChunkAtDropped(g.chunkSize, pt, i);
    OffReady(g.chunkSize, |pt|, i);
    OffNext(g.chunkSize, i);
    var rest := pt[Off(g.chunkSize, i)..];
    assert rest == rest[..Min(g.chunkSize, |rest|)] + rest[Min(g.chunkSize, |rest|)..];
  }

  lemma {:induction false} OnlyFront(g: Geometry, seals: Seals, part: nat, pt: Bytes, i: nat, t: Bytes)
    requires g.chunkSize > 0 && |pt| < TWO_64 && SealsOnly(g, seals, part, pt)
    requires i <= Ready(g.chunkSize, |pt|) && SealedChunks(g, seals, part, i, t)
    ensures Off(g.chunkSize, i) <= |pt| && t <= pt[Off(g.chunkSize, i)..]
    decreases |t|
  {
    hide Ready, Off, FrameAad, ChunkAt;
    PositionOf(g, pt, i);
    if t != [] {
      ReadyBelow(g.chunkSize, |pt|);
      assert SealedAt(g, seals, part, i, false, t[..g.chunkSize]);
      assert Holds(g, pt, i, false, t[..g.chunkSize]);
      OnlyFront(g, seals, part, pt, i + 1, t[g.chunkSize..]);
      assert t == t[..g.chunkSize] + t[g.chunkSize..];
    }
  }
}
