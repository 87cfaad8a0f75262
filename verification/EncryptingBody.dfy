/** Encryption of a request body while it streams: the upload either delivers
    exactly the promised ciphertext or visibly falls short of it. */
module EncryptingBody {
  import opened Bytes
  import opened Body
  import opened Cipher
  import opened SizeMath
  import opened FrameSpec
  import opened FrameCodec

  datatype Abort = TooLong | TooShort | BadDigest | TransportFailed

  /** The digest to check the plaintext against, when the client sent one. */
  datatype Check = Check(digest: Bytes -> Bytes, expected: Option<Bytes>) {
    predicate Accepts(pt: Bytes) {
      expected.Some? ==> digest(pt) == expected.value
    }
  }

  /** Strictly less than a whole ciphertext is out before the final frame is. */
  lemma EmittedShort(g: Geometry, seal: Sealer, open: Opener, fed: Bytes, expected: nat)
    requires g.chunkSize > 0 && Paired(g.alg, seal, open) && |fed| <= expected
    ensures |Emitted(g, seal, 0, fed)| < CiphertextLen(g.alg, expected, g.chunkSize)
  {
    FramesSplit(g, seal, 0, fed);
    EncryptAllLength(g, seal, open, fed);
    assert |seal(Ready(g.chunkSize, |fed|), true, Tail(g.chunkSize, fed))| > 0;
    if |fed| < expected {
      CiphertextLenIncreasing(g.alg, |fed|, expected, g.chunkSize);
    }
  }

  /** Why an upload is aborted, if it is: bytes beyond the declared length, a transport error
      before them, too few bytes, or the wrong digest. */
  function Verdict(check: Check, expectedLen: nat, body: seq<Frame>): Option<Abort> {
    if |Arrived(body)| > expectedLen then Some(TooLong)
    else if !Clean(body) then Some(TransportFailed)
    else if |Payload(body)| < expectedLen then Some(TooShort)
    else if !check.Accepts(Payload(body)) then Some(BadDigest)
    else None
  }

  lemma EndsLong(check: Check, expectedLen: nat, body: seq<Frame>, i: nat)
    requires i < |body| && Clean(body[..i]) && !body[i].TransportError? && |Payload(body[..i + 1])| > expectedLen
    ensures Verdict(check, expectedLen, body) == Some(TooLong)
  {
    CleanStep(body, i);
    ArrivedPrefix(body, i + 1);
  }

  lemma EndsBroken(check: Check, expectedLen: nat, body: seq<Frame>, i: nat)
    requires i < |body| && Clean(body[..i]) && body[i].TransportError? && |Payload(body[..i])| <= expectedLen
    ensures Verdict(check, expectedLen, body) == Some(TransportFailed)
  {
    ArrivedPrefix(body, i);
    assert CleanLen(body) == i;
    assert body[i] in body;
  }

  lemma EndsClean(check: Check, expectedLen: nat, body: seq<Frame>)
    requires Clean(body) && |Payload(body)| <= expectedLen
    ensures Verdict(check, expectedLen, body)
            == if |Payload(body)| < expectedLen then Some(TooShort) else if !check.Accepts(Payload(body)) then Some(BadDigest) else None
  {
    CleanArrives(body);
  }

  lemma EndsWell(check: Check, expectedLen: nat, body: seq<Frame>)
    ensures Verdict(check, expectedLen, body).None? <==> Clean(body) && |Payload(body)| == expectedLen && check.Accepts(Payload(body))
  {
    if Clean(body) {
      CleanArrives(body);
    }
  }

  /** `sent` is what went out to the backend. A clean end means the body was clean, had
      the declared length and the right digest, and exactly the promised
      `ciphertext_len` bytes went out; any abort names its reason and leaves the promise
      short. */
  method Encrypting(g: Geometry, seal: Sealer, ghost open: Opener, check: Check, expectedLen: nat, body: seq<Frame>)
    returns (sent: Bytes, abort: Option<Abort>)
    requires g.chunkSize > 0 && Paired(g.alg, seal, open)
    ensures abort.None? <==> Clean(body) && |Payload(body)| == expectedLen && check.Accepts(Payload(body))
    ensures abort.None? ==> sent == EncryptAll(g, seal, Payload(body))
    ensures abort.None? ==> |sent| == CiphertextLen(g.alg, expectedLen, g.chunkSize)
    ensures abort.Some? ==> |sent| < CiphertextLen(g.alg, expectedLen, g.chunkSize)
    ensures abort == Verdict(check, expectedLen, body)
  {
    hide Verdict, Payload, Clean, CiphertextLen, EncryptAll, Emitted, Check.Accepts;
    var enc := new Encryptor(g, seal);
    var seen := 0;
    sent := [];
    EndsWell(check, expectedLen, body);
    NothingYet(body);
    for i := 0 to |body|
      invariant enc.Valid() && enc.g == g && enc.seal == seal
      invariant enc.fed == Payload(body[..i]) && enc.released == sent && Clean(body[..i])
      invariant seen == |enc.fed| <= expectedLen
    {
      PayloadStep(body, i);
      EmittedShort(g, seal, open, enc.fed, expectedLen);
      match body[i] {
        case Trailers =>
          CleanStep(body, i);
        case TransportError =>
          EndsBroken(check, expectedLen, body, i);
          return sent, Some(TransportFailed);
        case Data(bytes) =>
          seen := seen + |bytes|;
          if seen > expectedLen {
            EndsLong(check, expectedLen, body, i);
            return sent, Some(TooLong);
          }
          CleanStep(body, i);
          var ct := enc.Push(bytes);
          sent := sent + ct;
      }
    }
    assert body[..|body|] == body;
    EndsClean(check, expectedLen, body);
    EmittedShort(g, seal, open, enc.fed, expectedLen);
    if seen != expectedLen {
      return sent, Some(TooShort);
    }
    if !check.Accepts(Payload(body)) {
      return sent, Some(BadDigest);
    }
    var last := enc.Finish();
    EncryptAllLength(g, seal, open, enc.fed);
    sent := sent + last;
    abort := None;
  }

  lemma NothingYet(body: seq<Frame>)
    ensures Payload(body[..0]) == [] && Clean(body[..0])
  {
  }
}
