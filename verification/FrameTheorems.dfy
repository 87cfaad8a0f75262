/** What the codec as a whole guarantees: any cut of the plaintext encrypts to the
    same frames, any cut of those frames decrypts back, and under an AEAD that opens
    only what was sealed, tampered input yields nothing but whole chunks of the
    original from the start. */
module FrameTheorems {
  import opened Bytes
  import opened Body
  import opened Cipher
  import opened SizeMath
  import opened FrameSpec
  import opened FrameCodec

  // ---------------------------------------------------------------- any cut

  /** The encryptor's output depends only on the concatenation of its pushes. */
  method EncryptPieces(g: Geometry, seal: Sealer, pieces: seq<Bytes>) returns (ct: Bytes)
    requires g.chunkSize > 0
    ensures ct == EncryptAll(g, seal, Concat(pieces))
  {
    var enc := new Encryptor(g, seal);
    ct := [];
    for i := 0 to |pieces|
      invariant enc.Valid() && enc.g == g && enc.seal == seal
      invariant enc.fed == Concat(pieces[..i]) && enc.released == ct
    {
      ConcatStep(pieces, i);
      var out := enc.Push(pieces[i]);
      ct := ct + out;
    }
    assert pieces[..|pieces|] == pieces;
    var last := enc.Finish();
    ct := ct + last;
  }

  /** What decrypting a whole ciphertext in one go yields. */
  function DecryptAll(g: Geometry, open: Opener, ct: Bytes): Result<Bytes, Error>
    requires g.chunkSize > 0
  {
    match Opened(g, open, 0, ct)
    case None => Err(AuthFailed)
    case Some(front) =>
      match open(Ready(g.FrameSize(), |ct|), true, Tail(g.FrameSize(), ct))
      case Ok(last) => Ok(front + last)
      case Err(e) => Err(e)
  }

  /** Decrypts a response body frame by frame; `out` is all that was sent on, and
      `ok` says that the stream ended without an error frame. Both the success and
      the plaintext depend only on the payload of the body; whatever was sent before
      a failure is the opened front of some prefix of that payload. */
  method DecryptBody(g: Geometry, open: Opener, body: seq<Frame>) returns (out: Bytes, ok: bool)
    requires g.chunkSize > 0
    ensures ok <==> Clean(body) && DecryptAll(g, open, Payload(body)).Ok?
    ensures ok ==> out == DecryptAll(g, open, Payload(body)).value
    ensures !ok ==> exists n :: 0 <= n <= |Payload(body)| && Opened(g, open, 0, Payload(body)[..n]) == Some(out)
  {
    var dec := new Decryptor(g, open, 0, true);
    out := [];
    for i := 0 to |body|
      invariant dec.Valid() && dec.g == g && dec.open == open && dec.first == 0 && dec.endsObject
      invariant dec.fed == Payload(body[..i]) && dec.released == out && Clean(body[..i])
    {
      PayloadStep(body, i);
      PayloadPrefix(body, i);
      ghost var before := dec.fed;
      assert Payload(body)[..|before|] == before;
      match body[i] {
        case Trailers =>
        case TransportError =>
          return out, false;
        case Data(bytes) =>
          var r := dec.Push(bytes);
          if r.Err? {
            PayloadPrefix(body, i + 1);
            OpenedFailsOn(g, open, 0, dec.fed, Payload(body));
            return out, false;
          }
          out := out + r.value;
      }
    }
    assert body[..|body|] == body;
    var last := dec.Finish();
    if last.Err? {
      assert Payload(body)[..|Payload(body)|] == Payload(body);
      return out, false;
    }
    out := out + last.value;
    ok := true;
  }

  /** Once opening has failed on a prefix of the input, it fails on the input. */
  lemma OpenedFailsOn(g: Geometry, open: Opener, i: nat, a: Bytes, whole: Bytes)
    requires g.chunkSize > 0 && a <= whole && Opened(g, open, i, a).None?
    ensures Opened(g, open, i, whole).None?
  {
    OpenedAppend(g, open, i, a, whole[|a|..]);
    assert whole == a + whole[|a|..];
  }

  /** Decryption undoes encryption. */
  lemma RoundTrip(g: Geometry, seal: Sealer, open: Opener, pt: Bytes)
    requires g.chunkSize > 0 && Paired(g.alg, seal, open)
    ensures DecryptAll(g, open, EncryptAll(g, seal, pt)) == Ok(pt)
  {
    var m := Ready(g.chunkSize, |pt|) + 1;
    HeadOfAll(g, seal, 0, pt);
    OpensHead(g, seal, open, 0, pt, m);
    HeadCount(g, seal, open, 0, pt, m);
    HeadTail(g, seal, open, 0, pt, m);
    OffReady(g.chunkSize, |pt|, m - 1);
    assert pt == pt[..Off(g.chunkSize, m - 1)] + LastChunk(g, pt, m);
  }

  /** Cut a plaintext into any pieces, encrypt, cut the ciphertext into any other
      frames: decrypting them delivers the plaintext. */
  method RoundTripAnyCut(g: Geometry, seal: Sealer, open: Opener, pieces: seq<Bytes>, body: seq<Frame>)
    returns (ct: Bytes, out: Bytes, ok: bool)
    requires g.chunkSize > 0 && Paired(g.alg, seal, open)
    ensures |ct| == CiphertextLen(g.alg, |Concat(pieces)|, g.chunkSize)
    ensures Clean(body) && Payload(body) == ct ==> ok && out == Concat(pieces)
  {
    ct := EncryptPieces(g, seal, pieces);
    EncryptAllLength(g, seal, open, Concat(pieces));
    out, ok := DecryptBody(g, open, body);
    RoundTrip(g, seal, open, Concat(pieces));
  }

  // ---------------------------------------------------------------- tampering

  /** Chunk `j` of a plaintext. */
  function ChunkAt(chunkSize: nat, pt: Bytes, j: nat): Bytes
    requires chunkSize > 0
    decreases j
  {
    if j == 0 then pt[..Min(chunkSize, |pt|)]
    else if |pt| <= chunkSize then []
    else ChunkAt(chunkSize, pt[chunkSize..], j - 1)
  }

  /** Every chunk but the final one is full; the final one is empty only for an empty plaintext. */
  lemma {:induction false} ChunkSizes(chunkSize: nat, pt: Bytes, j: nat)
    requires chunkSize > 0 && j <= Ready(chunkSize, |pt|)
    ensures j < Ready(chunkSize, |pt|) ==> |ChunkAt(chunkSize, pt, j)| == chunkSize
    ensures j == Ready(chunkSize, |pt|) ==> (ChunkAt(chunkSize, pt, j) == [] <==> pt == [])
    decreases j
  {
    if j > 0 {
      ChunkSizes(chunkSize, pt[chunkSize..], j - 1);
    }
  }

  /** Up to `size` bytes of `b` from `at` on. */
  function Piece(b: Bytes, at: nat, size: nat): Bytes {
    b[Min(at, |b|)..Min(at + size, |b|)]
  }

  lemma PieceDropped(b: Bytes, d: nat, at: nat, size: nat)
    requires d <= |b|
    ensures Piece(b, d + at, size) == Piece(b[d..], at, size)
  {
  }

  lemma FirstFrame(g: Geometry, seal: Sealer, open: Opener, i: nat, pt: Bytes)
    requires g.chunkSize > 0 && Paired(g.alg, seal, open)
    ensures Piece(Frames(g, seal, i, pt), 0, g.FrameSize())
            == seal(i, Ready(g.chunkSize, |pt|) == 0, ChunkAt(g.chunkSize, pt, 0))
  {
    var ct := Frames(g, seal, i, pt);
    if |pt| <= g.chunkSize {
      assert |seal(i, true, pt)| <= g.FrameSize();
      assert pt[..|pt|] == pt && ct[0..|ct|] == ct;
    } else {
      assert |seal(i, false, pt[..g.chunkSize])| == g.FrameSize();
      assert ct[0..g.FrameSize()] == seal(i, false, pt[..g.chunkSize]);
    }
  }

  lemma {:induction false} ChunkAtDropped(chunkSize: nat, pt: Bytes, j: nat)
    requires chunkSize > 0 && j <= Ready(chunkSize, |pt|)
    ensures Off(chunkSize, j) <= |pt| && ChunkAt(chunkSize, pt, j) == ChunkAt(chunkSize, pt[Off(chunkSize, j)..], 0)
    decreases j
  {
    if j == 0 {
      assert pt[0..] == pt;
    } else {
      ChunkAtDropped(chunkSize, pt[chunkSize..], j - 1);
      DropDropped(pt, chunkSize, Off(chunkSize, j - 1));
    }
  }

  /** The ciphertext frame by frame: frame `j` of `n_chunks` sits at `j` frame sizes and
      seals chunk `j`; only the final one is flagged last, and it is empty only for an
      empty plaintext. */
  lemma FrameByIndex(g: Geometry, seal: Sealer, open: Opener, pt: Bytes, j: nat)
    requires g.chunkSize > 0 && Paired(g.alg, seal, open) && j < NChunks(|pt|, g.chunkSize)
    ensures var ct := EncryptAll(g, seal, pt);
            var chunk := ChunkAt(g.chunkSize, pt, j);
            && j * g.FrameSize() >= 0
            && Piece(ct, j * g.FrameSize(), g.FrameSize()) == seal(j, j + 1 == NChunks(|pt|, g.chunkSize), chunk)
            && (j + 1 < NChunks(|pt|, g.chunkSize) ==> |chunk| == g.chunkSize)
            && (j + 1 == NChunks(|pt|, g.chunkSize) ==> (chunk == [] <==> pt == []))
  {
    hide Frames, Paired, Ready, Off, NChunks;
    NChunksIsReady(|pt|, g.chunkSize);
    ChunkSizes(g.chunkSize, pt, j);
    ChunkAtDropped(g.chunkSize, pt, j);
    DropFrames(g, seal, open, 0, pt, j);
    FirstFrame(g, seal, open, j, pt[Off(g.chunkSize, j)..]);
    PieceDropped(EncryptAll(g, seal, pt), Off(g.FrameSize(), j), 0, g.FrameSize());
    OffIsProduct(g.FrameSize(), j);
  }

  /** Everything ever sealed under one key: associated data and message. */
  type Seals = iset<(Bytes, Bytes)>

  /** Position `(i, last)` of a part holds chunk `i` of `pt`. */
  predicate Holds(g: Geometry, pt: Bytes, i: nat, last: bool, msg: Bytes)
    requires g.chunkSize > 0
  {
    var n := Ready(g.chunkSize, |pt|);
    i <= n && last == (i == n) && msg == ChunkAt(g.chunkSize, pt, i)
  }

  /** What one encryption of `pt` seals. */
  ghost function SealsOf(g: Geometry, part: nat, pt: Bytes): Seals
    requires g.chunkSize > 0
  {
    iset i: nat, last: bool, msg: Bytes | Holds(g, pt, i, last, msg) :: (FrameAad(g.alg, part, i, last), msg)
  }

  /** At the positions of this part nothing but the chunks of `pt` was sealed. */
  ghost predicate SealsOnly(g: Geometry, seals: Seals, part: nat, pt: Bytes)
    requires g.chunkSize > 0
  {
    forall i: nat, last: bool, msg: Bytes ::
      i < TWO_64 && (FrameAad(g.alg, part, i, last), msg) in seals ==> Holds(g, pt, i, last, msg)
  }

  /** One encryption seals each position once: the associated data tells positions apart. */
  lemma SealedOnce(g: Geometry, part: nat, pt: Bytes)
    requires g.chunkSize > 0 && part < TWO_32 && |pt| < TWO_64
    ensures SealsOnly(g, SealsOf(g, part, pt), part, pt)
  {
    forall i: nat, last: bool, msg: Bytes | i < TWO_64 && (FrameAad(g.alg, part, i, last), msg) in SealsOf(g, part, pt)
      ensures Holds(g, pt, i, last, msg)
    {
      var j: nat, flag: bool :| Holds(g, pt, j, flag, msg) && FrameAad(g.alg, part, i, last) == FrameAad(g.alg, part, j, flag);
      ReadyBelow(g.chunkSize, |pt|);
      FrameAadInjective(g.alg, part, i, last, g.alg, part, j, flag);
    }
  }

  /** A frame that a reader tries at a position is no forgery: if it opens there, that
      message was sealed there. */
  ghost predicate Genuine(aead: Aead, alg: Alg, key: Bytes, seals: Seals, part: nat, i: nat, last: bool, frame: Bytes) {
    var r := OpenFrame(aead, alg, key, part, i, last, frame);
    r.Ok? ==> (FrameAad(alg, part, i, last), r.value) in seals
  }

  /** So for every frame strictly before the end of `fed`, each tried unflagged at its index. */
  ghost predicate FramesGenuine(aead: Aead, g: Geometry, key: Bytes, seals: Seals, part: nat, i: nat, fed: Bytes)
    requires g.chunkSize > 0
    decreases |fed|
  {
    |fed| > g.FrameSize() ==>
      && Genuine(aead, g.alg, key, seals, part, i, false, fed[..g.FrameSize()])
      && FramesGenuine(aead, g, key, seals, part, i + 1, fed[g.FrameSize()..])
  }

  /** And for the frame that remains, tried with the flag of the stream's end. */
  ghost predicate RunGenuine(aead: Aead, g: Geometry, key: Bytes, seals: Seals, part: nat, i: nat, ends: bool, ct: Bytes)
    requires g.chunkSize > 0
  {
    && FramesGenuine(aead, g, key, seals, part, i, ct)
    && Genuine(aead, g.alg, key, seals, part, i + Ready(g.FrameSize(), |ct|), ends, Tail(g.FrameSize(), ct))
  }

  /** The assumption is met by every lawful cipher on what was really sealed. */
  lemma HonestIsGenuine(aead: Aead, g: Geometry, key: Bytes, part: nat, nonces: Nonces, pt: Bytes)
    requires g.chunkSize > 0 && Lawful(aead) && ValidNonces(g.alg, nonces)
    ensures RunGenuine(aead, g, key, SealsOf(g, part, pt), part, 0, true,
                       EncryptAll(g, SealerOf(aead, g.alg, key, part, nonces), pt))
  {
    var seal, open := SealerOf(aead, g.alg, key, part, nonces), OpenerOf(aead, g.alg, key, part);
    var n := Ready(g.chunkSize, |pt|);
    PairedStreams(aead, g.alg, key, part, nonces);
    HeadOfAll(g, seal, 0, pt);
    HeadGenuine(aead, g, key, part, nonces, pt, 0, pt, n + 1);
  }

  /** The frames of `m` chunks from chunk `i` on are genuine. */
  lemma {:induction false} HeadGenuine(aead: Aead, g: Geometry, key: Bytes, part: nat, nonces: Nonces, pt: Bytes,
                                       i: nat, rest: Bytes, m: nat)
    requires g.chunkSize > 0 && Lawful(aead) && ValidNonces(g.alg, nonces)
    requires i <= Ready(g.chunkSize, |pt|) && Off(g.chunkSize, i) <= |pt| && rest == pt[Off(g.chunkSize, i)..]
    requires Ready(g.chunkSize, |pt|) == i + Ready(g.chunkSize, |rest|) && 0 < m <= Ready(g.chunkSize, |rest|) + 1
    ensures var ct := Head(g, SealerOf(aead, g.alg, key, part, nonces), i, rest, m);
            RunGenuine(aead, g, key, SealsOf(g, part, pt), part, i, i + m - 1 == Ready(g.chunkSize, |pt|), ct)
    decreases m
  {
    hide Head, SealerOf, SealsOf, Genuine;
    var seal, open := SealerOf(aead, g.alg, key, part, nonces), OpenerOf(aead, g.alg, key, part);
    var ct := Head(g, seal, i, rest, m);
    PairedStreams(aead, g.alg, key, part, nonces);
    ChunkAtDropped(g.chunkSize, pt, i);
    if m == 1 {
      HeadOne(g, seal, open, i, rest);
      SealedIsGenuine(aead, g, key, part, nonces, pt, i);
      assert LastChunk(g, rest, 1) == ChunkAt(g.chunkSize, rest, 0);
    } else {
      HeadStep(g, seal, open, i, rest, m);
      SealedIsGenuine(aead, g, key, part, nonces, pt, i);
      DropDropped(pt, Off(g.chunkSize, i), g.chunkSize);
      OffNext(g.chunkSize, i);
      HeadGenuine(aead, g, key, part, nonces, pt, i + 1, rest[g.chunkSize..], m - 1);
    }
  }

  lemma OffNext(size: nat, i: nat)
    ensures Off(size, i + 1) == Off(size, i) + size
  {
  }

  lemma SealedIsGenuine(aead: Aead, g: Geometry, key: Bytes, part: nat, nonces: Nonces, pt: Bytes, i: nat)
    requires g.chunkSize > 0 && Lawful(aead) && ValidNonces(g.alg, nonces) && i <= Ready(g.chunkSize, |pt|)
    ensures var last := i == Ready(g.chunkSize, |pt|);
            Genuine(aead, g.alg, key, SealsOf(g, part, pt), part, i, last,
                    SealerOf(aead, g.alg, key, part, nonces)(i, last, ChunkAt(g.chunkSize, pt, i)))
  {
    hide FrameAad;
    var last, msg := i == Ready(g.chunkSize, |pt|), ChunkAt(g.chunkSize, pt, i);
    OpenSeal(aead, g.alg, key, part, i, last, nonces(i), msg);
    assert Holds(g, pt, i, last, msg);
  }

  /** A genuine frame opens at a position only to the chunk of that position. */
  lemma OpensOnlyItsChunk(aead: Aead, g: Geometry, key: Bytes, seals: Seals, part: nat, pt: Bytes,
                          i: nat, last: bool, frame: Bytes)
    requires g.chunkSize > 0 && i < TWO_64 && SealsOnly(g, seals, part, pt)
    requires Genuine(aead, g.alg, key, seals, part, i, last, frame)
    requires OpenFrame(aead, g.alg, key, part, i, last, frame).Ok?
    ensures i <= Ready(g.chunkSize, |pt|) && last == (i == Ready(g.chunkSize, |pt|))
    ensures OpenFrame(aead, g.alg, key, part, i, last, frame).value == ChunkAt(g.chunkSize, pt, i)
  {
  }

  lemma {:induction false} ReadyBelow(size: nat, len: nat)
    requires size > 0
    ensures Ready(size, len) <= len
  {
    if len > size {
      ReadyBelow(size, len - size);
    }
  }

  /** The chunks `i .. i + k` of a plaintext. */
  function Chunks(chunkSize: nat, pt: Bytes, i: nat, k: nat): Bytes
    requires chunkSize > 0
    decreases k
  {
    if k == 0 then [] else ChunkAt(chunkSize, pt, i) + Chunks(chunkSize, pt, i + 1, k - 1)
  }

  lemma {:induction false} ChunksShift(chunkSize: nat, pt: Bytes, i: nat, k: nat)
    requires chunkSize > 0 && |pt| > chunkSize
    ensures Chunks(chunkSize, pt, i + 1, k) == Chunks(chunkSize, pt[chunkSize..], i, k)
    decreases k
  {
    if k > 0 {
      ChunksShift(chunkSize, pt, i + 1, k - 1);
    }
  }

  /** The first chunks, put together, are the front of the plaintext; all of them, all of it. */
  lemma {:induction false} ChunksArePrefix(chunkSize: nat, pt: Bytes, k: nat)
    requires chunkSize > 0 && k <= Ready(chunkSize, |pt|) + 1
    ensures k <= Ready(chunkSize, |pt|) ==> Off(chunkSize, k) <= |pt| && Chunks(chunkSize, pt, 0, k) == pt[..Off(chunkSize, k)]
    ensures k == Ready(chunkSize, |pt|) + 1 ==> Chunks(chunkSize, pt, 0, k) == pt
    decreases k
  {
    if k > 0 {
      if |pt| <= chunkSize {
        assert Chunks(chunkSize, pt, 1, 0) == [];
        assert pt[..|pt|] + [] == pt;
      } else {
        var rest := pt[chunkSize..];
        ChunksArePrefix(chunkSize, rest, k - 1);
        ChunksShift(chunkSize, pt, 0, k - 1);
        assert pt == pt[..chunkSize] + rest;
      }
    }
  }

  /** Whatever bytes are fed, what opens from position `i` on are the chunks from `i` on. */
  lemma {:induction false} OpenedIsAuthentic(aead: Aead, g: Geometry, key: Bytes, seals: Seals, part: nat, pt: Bytes,
                                             i: nat, fed: Bytes)
    requires g.chunkSize > 0 && |pt| < TWO_64 && SealsOnly(g, seals, part, pt)
    requires FramesGenuine(aead, g, key, seals, part, i, fed)
    requires i <= Ready(g.chunkSize, |pt|)
    requires Opened(g, OpenerOf(aead, g.alg, key, part), i, fed).Some?
    ensures i + Ready(g.FrameSize(), |fed|) <= Ready(g.chunkSize, |pt|)
    ensures Opened(g, OpenerOf(aead, g.alg, key, part), i, fed).value
            == Chunks(g.chunkSize, pt, i, Ready(g.FrameSize(), |fed|))
    decreases |fed|
  {
    hide SealsOnly, Genuine, OpenFrame, ChunkAt, Off;
    if |fed| > g.FrameSize() {
      ReadyBelow(g.chunkSize, |pt|);
      OpensOnlyItsChunk(aead, g, key, seals, part, pt, i, false, fed[..g.FrameSize()]);
      OpenedIsAuthentic(aead, g, key, seals, part, pt, i + 1, fed[g.FrameSize()..]);
    }
  }

  /** What a decryptor has released after being fed any bytes at all is a whole-chunk
      prefix of the sealed plaintext. */
  lemma ReleasedIsPrefix(aead: Aead, g: Geometry, key: Bytes, seals: Seals, part: nat, pt: Bytes, fed: Bytes)
    requires g.chunkSize > 0 && |pt| < TWO_64 && SealsOnly(g, seals, part, pt)
    requires FramesGenuine(aead, g, key, seals, part, 0, fed)
    requires Opened(g, OpenerOf(aead, g.alg, key, part), 0, fed).Some?
    ensures var k := Ready(g.FrameSize(), |fed|);
            && k <= Ready(g.chunkSize, |pt|) && Off(g.chunkSize, k) <= |pt|
            && Opened(g, OpenerOf(aead, g.alg, key, part), 0, fed).value == pt[..Off(g.chunkSize, k)]
  {
    hide SealsOnly, FramesGenuine;
    OpenedIsAuthentic(aead, g, key, seals, part, pt, 0, fed);
    ChunksArePrefix(g.chunkSize, pt, Ready(g.FrameSize(), |fed|));
  }

  /** Decryption of any bytes at all either fails or delivers the whole plaintext. */
  lemma AcceptedIsWhole(aead: Aead, g: Geometry, key: Bytes, seals: Seals, part: nat, pt: Bytes, ct: Bytes)
    requires g.chunkSize > 0 && |pt| < TWO_64 && SealsOnly(g, seals, part, pt)
    requires RunGenuine(aead, g, key, seals, part, 0, true, ct)
    requires DecryptAll(g, OpenerOf(aead, g.alg, key, part), ct).Ok?
    ensures DecryptAll(g, OpenerOf(aead, g.alg, key, part), ct) == Ok(pt)
  {
    hide SealsOnly, FramesGenuine, Genuine, OpenFrame;
    var k := Ready(g.FrameSize(), |ct|);
    OpenedIsAuthentic(aead, g, key, seals, part, pt, 0, ct);
    ReadyBelow(g.chunkSize, |pt|);
    OpensOnlyItsChunk(aead, g, key, seals, part, pt, k, true, Tail(g.FrameSize(), ct));
    ChunksSnoc(g.chunkSize, pt, 0, k);
    ChunksArePrefix(g.chunkSize, pt, k + 1);
  }

  lemma {:induction false} FramesGenuinePrefix(aead: Aead, g: Geometry, key: Bytes, seals: Seals, part: nat, i: nat,
                                               fed: Bytes, n: nat)
    requires g.chunkSize > 0 && n <= |fed| && FramesGenuine(aead, g, key, seals, part, i, fed)
    ensures FramesGenuine(aead, g, key, seals, part, i, fed[..n])
    decreases |fed|
  {
    hide Genuine;
    var fs := g.FrameSize();
    if n > fs {
      FramesGenuinePrefix(aead, g, key, seals, part, i + 1, fed[fs..], n - fs);
      assert fed[..n][..fs] == fed[..fs] && fed[..n][fs..] == fed[fs..][..n - fs];
    }
  }

  /** A body tampered with in any way, delivered in any frames: all that is ever sent
      on is a whole-chunk prefix of the sealed plaintext, and a stream that ends
      without an error has delivered all of it. */
  method DecryptUntrusted(aead: Aead, g: Geometry, key: Bytes, part: nat, ghost seals: Seals, ghost pt: Bytes, body: seq<Frame>)
    returns (out: Bytes, ok: bool)
    requires g.chunkSize > 0 && |pt| < TWO_64 && SealsOnly(g, seals, part, pt)
    requires RunGenuine(aead, g, key, seals, part, 0, true, Payload(body))
    ensures out <= pt
    ensures ok ==> out == pt
    ensures !ok ==> exists k: nat :: |out| == Off(g.chunkSize, k)
  {
    hide SealsOnly, FramesGenuine, Genuine;
    var open := OpenerOf(aead, g.alg, key, part);
    out, ok := DecryptBody(g, open, body);
    if ok {
      AcceptedIsWhole(aead, g, key, seals, part, pt, Payload(body));
    } else {
      ghost var n :| 0 <= n <= |Payload(body)| && Opened(g, open, 0, Payload(body)[..n]) == Some(out);
      FramesGenuinePrefix(aead, g, key, seals, part, 0, Payload(body), n);
      ReleasedIsPrefix(aead, g, key, seals, part, pt, Payload(body)[..n]);
      assert |out| == Off(g.chunkSize, Ready(g.FrameSize(), n));
    }
  }

  lemma {:induction false} ChunksSnoc(chunkSize: nat, pt: Bytes, i: nat, k: nat)
    requires chunkSize > 0
    ensures Chunks(chunkSize, pt, i, k + 1) == Chunks(chunkSize, pt, i, k) + ChunkAt(chunkSize, pt, i + k)
    decreases k
  {
    if k == 0 {
      assert Chunks(chunkSize, pt, i + 1, 0) == [];
      assert ChunkAt(chunkSize, pt, i) + [] == [] + ChunkAt(chunkSize, pt, i);
    } else {
      ChunksSnoc(chunkSize, pt, i + 1, k - 1);
    }
  }
}
