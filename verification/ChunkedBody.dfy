/** A request body in aws-chunked form, forwarded chunk by chunk once each chunk's
    signature has been checked against the rolling chain. */
module ChunkedBody {
  import opened Bytes
  import B = Body
  import opened ChunkedWire
  import opened ChunkedCuts
  import D = Dechunker

  /** The keyed signature of a chunk over the previous signature and the chunk's data, and
      the signature of the request itself, which starts the chain. */
  datatype Scheme = Scheme(sign: (string, Bytes) -> string, seed: string)

  function LastSignature(scheme: Scheme, chunks: seq<Chunk>): string {
    if |chunks| == 0 then scheme.seed
    else scheme.sign(LastSignature(scheme, chunks[..|chunks| - 1]), chunks[|chunks| - 1].data)
  }

  /** Every chunk carries the signature that follows from the one before it. */
  predicate Chained(scheme: Scheme, chunks: seq<Chunk>) {
    |chunks| == 0 ||
    (var n := |chunks| - 1;
     Chained(scheme, chunks[..n]) && chunks[n].signature == Some(LastSignature(scheme, chunks)))
  }

  /** What a stream must show: a chain if it is signed, nothing otherwise. */
  predicate Verified(scheme: Option<Scheme>, chunks: seq<Chunk>) {
    scheme.Some? ==> Chained(scheme.value, chunks)
  }

  function DataOf(chunks: seq<Chunk>): Bytes {
    if |chunks| == 0 then [] else DataOf(chunks[..|chunks| - 1]) + chunks[|chunks| - 1].data
  }

  lemma DataOfPush(chunks: seq<Chunk>, chunk: Chunk)
    ensures DataOf(chunks + [chunk]) == DataOf(chunks) + chunk.data
  {
    assert (chunks + [chunk])[..|chunks|] == chunks;
  }

  lemma {:induction false} ChainedPrefix(scheme: Scheme, chunks: seq<Chunk>, n: nat)
    requires Chained(scheme, chunks) && n <= |chunks|
    ensures Chained(scheme, chunks[..n])
    decreases |chunks|
  {
    if n == |chunks| {
      assert chunks[..n] == chunks;
    } else {
      ChainedPrefix(scheme, chunks[..|chunks| - 1], n);
      assert chunks[..|chunks| - 1][..n] == chunks[..n];
    }
  }

  class ChunkVerifier {
    const scheme: Scheme
    var prevSignature: string
    ghost var verified: seq<Chunk>

    ghost predicate Valid()
      reads this
    {
      Chained(scheme, verified) && prevSignature == LastSignature(scheme, verified)
    }

    constructor (scheme: Scheme)
      ensures Valid() && this.scheme == scheme && verified == []
    {
      this.scheme, prevSignature, verified := scheme, scheme.seed, [];
    }

    /** Accepts exactly the signature that comes next in the chain. */
    method VerifyAndAdvance(data: Bytes, provided: string) returns (ok: bool)
      requires Valid()
      modifies this
      ensures Valid()
      ensures ok <==> Chained(scheme, old(verified) + [Chunk(data, Some(provided))])
      ensures verified == if ok then old(verified) + [Chunk(data, Some(provided))] else old(verified)
    {
      var expected := scheme.sign(prevSignature, data);
      ok := |expected| == |provided| && expected == provided;
      assert (verified + [Chunk(data, Some(provided))])[..|verified|] == verified;
      if ok {
        prevSignature := expected;
        verified := verified + [Chunk(data, Some(provided))];
      }
    }
  }

  /** Chunks without a signature break the chain. */
  lemma Unsigned(scheme: Scheme, chunks: seq<Chunk>, chunk: Chunk)
    requires chunk.signature.None?
    ensures !Chained(scheme, chunks + [chunk])
  {
  }

  ghost predicate Tracks(scheme: Option<Scheme>, verifier: ChunkVerifier?, done: seq<Chunk>)
    reads verifier
  {
    match scheme
    case None => verifier == null
    case Some(s) => verifier != null && verifier.Valid() && verifier.scheme == s && verifier.verified == done
  }

  /** Verifies and forwards the chunks of one feed, up to the first that fails. */
  method ForwardChunks(chunks: seq<Chunk>, scheme: Option<Scheme>, verifier: ChunkVerifier?, ghost done: seq<Chunk>)
    returns (out: Bytes, ok: bool, ghost n: nat)
    requires Tracks(scheme, verifier, done) && Verified(scheme, done)
    modifies verifier
    ensures n <= |chunks| && Verified(scheme, done + chunks[..n]) && DataOf(done + chunks[..n]) == DataOf(done) + out
    ensures if ok then n == |chunks| && Tracks(scheme, verifier, done + chunks)
            else n < |chunks| && !Verified(scheme, done + chunks[..n + 1])
  {
    out, ok, n := [], true, 0;
    assert done + chunks[..0] == done;
    for i := 0 to |chunks|
      invariant ok && n == i && Tracks(scheme, verifier, done + chunks[..i])
      invariant Verified(scheme, done + chunks[..i]) && DataOf(done + chunks[..i]) == DataOf(done) + out
    {
      var chunk := chunks[i];
      ghost var before := done + chunks[..i];
      assert done + chunks[..i + 1] == before + [chunk];
      DataOfPush(before, chunk);
      if verifier != null {
        if chunk.signature.None? {
          Unsigned(scheme.value, before, chunk);
          ok := false;
          return;
        }
        var good := verifier.VerifyAndAdvance(chunk.data, chunk.signature.value);
        if !good {
          ok := false;
          return;
        }
      }
      out := out + chunk.data;
      n := i + 1;
    }
    assert chunks[..|chunks|] == chunks;
  }

  // ---------------------------------------------------------------- the body

  /** The data frames of a body, as they are fed to the decoder. */
  function Pieces(body: seq<B.Frame>): seq<Bytes> {
    if |body| == 0 then []
    else
      var before := Pieces(body[..|body| - 1]);
      if body[|body| - 1].Data? then before + [body[|body| - 1].bytes] else before
  }

  lemma {:induction false} PiecesPayload(body: seq<B.Frame>)
    ensures Concat(Pieces(body)) == B.Payload(body)
  {
    if |body| > 0 {
      var front := body[..|body| - 1];
      PiecesPayload(front);
      if body[|body| - 1].Data? {
        ConcatPush(Pieces(front), body[|body| - 1].bytes);
      }
    }
  }

  /** The stream arrives whole, decodes to its end, and every chunk of it is verified, the
      terminator included. */
  ghost predicate Acceptable(decode: Decode, scheme: Option<Scheme>, body: seq<B.Frame>) {
    var r := FeedAll(decode, START, Pieces(body));
    B.Clean(body) && r.Ok? && r.value.state.Done? && Verified(scheme, r.value.chunks)
  }

  /** A prefix of verified chunks, all decoded from the front of the body. */
  ghost predicate ForwardedFrom(decode: Decode, scheme: Option<Scheme>, body: seq<B.Frame>, k: nat, n: nat, out: Bytes) {
    && k <= |body| && FeedAll(decode, START, Pieces(body[..k])).Ok?
    && var chunks := FeedAll(decode, START, Pieces(body[..k])).value.chunks;
    n <= |chunks| && Verified(scheme, chunks[..n]) && out == DataOf(chunks[..n])
  }

  lemma PiecesStep(decode: Decode, body: seq<B.Frame>, i: nat)
    requires i < |body|
    ensures Pieces(body[..i + 1]) == if body[i].Data? then Pieces(body[..i]) + [body[i].bytes] else Pieces(body[..i])
    ensures FeedAll(decode, START, Pieces(body[..i])).Ok? ==>
              FeedAll(decode, START, Pieces(body[..i + 1]))
              == if body[i].Data? then Feed(decode, FeedAll(decode, START, Pieces(body[..i])).value, body[i].bytes)
                 else FeedAll(decode, START, Pieces(body[..i]))
  {
    hide Feed;
    assert body[..i + 1][..i] == body[..i];
    if body[i].Data? {
      var before := Pieces(body[..i]);
      assert (before + [body[i].bytes])[..|before|] == before;
    }
  }

  /** Once a feed has failed, the rest of the body cannot mend it. */
  lemma {:induction false} StaysFailed(decode: Decode, body: seq<B.Frame>, i: nat)
    requires i <= |body| && FeedAll(decode, START, Pieces(body[..i])).Err?
    ensures FeedAll(decode, START, Pieces(body)).Err?
    decreases |body| - i
  {
    if i == |body| {
      assert body[..i] == body;
    } else {
      FailedStep(decode, body, i);
      StaysFailed(decode, body, i + 1);
    }
  }

  lemma FailedStep(decode: Decode, body: seq<B.Frame>, i: nat)
    requires i < |body| && FeedAll(decode, START, Pieces(body[..i])).Err?
    ensures FeedAll(decode, START, Pieces(body[..i + 1])).Err?
  {
    assert body[..i + 1][..i] == body[..i];
    if body[i].Data? {
      var before := Pieces(body[..i]);
      assert (before + [body[i].bytes])[..|before|] == before;
    }
  }

  /** Chunks once decoded stay in front of those decoded later. */
  lemma {:induction false} ChunksStay(decode: Decode, body: seq<B.Frame>, i: nat)
    requires i <= |body| && FeedAll(decode, START, Pieces(body)).Ok?
    ensures FeedAll(decode, START, Pieces(body[..i])).Ok?
    ensures FeedAll(decode, START, Pieces(body[..i])).value.chunks <= FeedAll(decode, START, Pieces(body)).value.chunks
    decreases |body| - i
  {
    if i == |body| {
      assert body[..i] == body;
    } else {
      ChunksStay(decode, body, i + 1);
      if FeedAll(decode, START, Pieces(body[..i])).Ok? {
        PiecesStep(decode, body, i);
      } else {
        FailedStep(decode, body, i);
      }
    }
  }

  /** A chunk that breaks the chain anywhere spoils the whole stream. */
  lemma BrokenChain(decode: Decode, scheme: Option<Scheme>, body: seq<B.Frame>, i: nat, n: nat)
    requires i <= |body| && FeedAll(decode, START, Pieces(body[..i])).Ok?
    requires n <= |FeedAll(decode, START, Pieces(body[..i])).value.chunks|
    requires !Verified(scheme, FeedAll(decode, START, Pieces(body[..i])).value.chunks[..n])
    ensures !Acceptable(decode, scheme, body)
  {
    hide FeedAll, Chained;
    if FeedAll(decode, START, Pieces(body)).Ok? {
      ChunksStay(decode, body, i);
      var all := FeedAll(decode, START, Pieces(body)).value.chunks;
      var some := FeedAll(decode, START, Pieces(body[..i])).value.chunks;
      assert all[..n] == some[..n];
      if Verified(scheme, all) {
        ChainedPrefix(scheme.value, all, n);
      }
    }
  }

  /** The forwarded bytes are at every moment those of a prefix of verified chunks; the
      stream ends without an error exactly when all of it is acceptable, and then all of
      its data was forwarded. */
  method Dechunking(decode: Decode, scheme: Option<Scheme>, body: seq<B.Frame>)
    returns (out: Bytes, ok: bool, ghost k: nat, ghost n: nat)
    ensures ok <==> Acceptable(decode, scheme, body)
    ensures ForwardedFrom(decode, scheme, body, k, n, out)
    ensures ok ==> out == DataOf(FeedAll(decode, START, Pieces(body)).value.chunks)
  {
    hide FeedAll, Feed, Chained, DataOf, Pieces;
    out, ok, k, n := [], false, 0, 0;
    var dechunker := new D.Dechunker(decode);
    var verifier: ChunkVerifier? := null;
    if scheme.Some? {
      verifier := new ChunkVerifier(scheme.value);
    }
    NothingYet(decode, scheme, body);
    for i := 0 to |body|
      invariant fresh(dechunker) && (verifier != null ==> fresh(verifier)) && dechunker.decode == decode
      invariant B.Clean(body[..i]) && FeedAll(decode, START, Pieces(body[..i])) == Ok(dechunker.Now())
      invariant k == i && n == |dechunker.decoded| && ForwardedFrom(decode, scheme, body, k, n, out)
      invariant Tracks(scheme, verifier, dechunker.decoded)
    {
      PiecesStep(decode, body, i);
      assert dechunker.decoded[..n] == dechunker.decoded;
      if body[i].TransportError? {
        return;
      }
      B.CleanStep(body, i);
      if body[i].Data? {
        ghost var done := dechunker.decoded;
        var chunks := dechunker.Feed(body[i].bytes);
        if chunks.Err? {
          StaysFailed(decode, body, i + 1);
          return;
        }
        var more, good;
        ghost var m;
        more, good, m := ForwardChunks(chunks.value, scheme, verifier, done);
        out := out + more;
        n := n + m;
        assert done + chunks.value[..m] == dechunker.decoded[..n];
        k := i + 1;
        if !good {
          assert done + chunks.value[..m + 1] == dechunker.decoded[..n + 1];
          BrokenChain(decode, scheme, body, i + 1, n + 1);
          return;
        }
      }
      k := i + 1;
    }
    assert body[..|body|] == body && dechunker.decoded[..n] == dechunker.decoded;
    ok := dechunker.IsDone();
  }

  /** What an acceptable stream delivered does not depend on its framing: it is what one
      feed of the whole payload decodes to, closed by a verified empty chunk. */
  lemma AcceptableIsWhole(decode: Decode, scheme: Option<Scheme>, body: seq<B.Frame>)
    requires Acceptable(decode, scheme, body)
    ensures var chunks := FeedAll(decode, START, Pieces(body)).value.chunks;
            && Feed(decode, START, B.Payload(body)) == FeedAll(decode, START, Pieces(body))
            && |chunks| > 0 && chunks[|chunks| - 1].data == []
            && (scheme.Some? ==> chunks[|chunks| - 1].signature == Some(LastSignature(scheme.value, chunks)))
  {
    hide FeedAll, Feed, Step;
    PiecesPayload(body);
    StartWaits(decode);
    OneFeed(decode, START, Pieces(body));
    EndsWithTerminator(decode, Pieces(body));
  }

  lemma StartWaits(decode: Decode)
    ensures Step(decode, START) == Wait
  {
  }

  lemma NothingYet(decode: Decode, scheme: Option<Scheme>, body: seq<B.Frame>)
    ensures FeedAll(decode, START, Pieces(body[..0])) == Ok(START) && ForwardedFrom(decode, scheme, body, 0, 0, [])
  {
  }
}
