/** A streamed body as the proxy sees it: a list of frames up to the end of the
    stream, any of which may be a trailers frame or a transport error. */
module Body {
  import opened Bytes

  datatype Frame = Data(bytes: Bytes) | Trailers | TransportError

  /** All data bytes of a body, in order. */
  function Payload(body: seq<Frame>): Bytes {
    if |body| == 0 then []
    else
      var before := Payload(body[..|body| - 1]);
      match body[|body| - 1]
      case Data(bytes) => before + bytes
      case _ => before
  }

  predicate Clean(body: seq<Frame>) {
    TransportError !in body
  }

  lemma PayloadStep(body: seq<Frame>, i: nat)
    requires i < |body|
    ensures Payload(body[..i + 1])
            == Payload(body[..i]) + (if body[i].Data? then body[i].bytes else [])
  {
    assert body[..i + 1][..i] == body[..i];
  }

  lemma PayloadStart(body: seq<Frame>)
    ensures Payload(body[..0]) == []
  {
  }

  lemma {:induction false} PayloadPrefix(body: seq<Frame>, i: nat)
    requires i <= |body|
    ensures Payload(body[..i]) <= Payload(body)
    decreases |body| - i
  {
    if i == |body| {
      assert body[..i] == body;
    } else {
      PayloadPrefix(body, i + 1);
      PayloadStep(body, i);
    }
  }

  /** How many frames arrive before the first transport error. */
  function CleanLen(body: seq<Frame>): (n: nat)
    ensures n <= |body| && Clean(body[..n]) && (n < |body| ==> body[n].TransportError?)
  {
    if |body| == 0 then 0
    else
      var n := CleanLen(body[..|body| - 1]);
      assert body[..|body| - 1][..n] == body[..n];
      if n == |body| - 1 && !body[n].TransportError? then
        assert body[..n + 1] == body[..n] + [body[n]];
        n + 1
      else n
  }

  /** The data that arrives before the first transport error. */
  function Arrived(body: seq<Frame>): Bytes {
    Payload(body[..CleanLen(body)])
  }

  lemma ArrivedPrefix(body: seq<Frame>, i: nat)
    requires i <= |body| && Clean(body[..i])
    ensures i <= CleanLen(body) && Payload(body[..i]) <= Arrived(body)
  {
    var n := CleanLen(body);
    assert forall k :: 0 <= k < i ==> body[..i][k] == body[k];
    PayloadPrefix(body[..n], i);
    assert body[..n][..i] == body[..i];
  }

  lemma CleanArrives(body: seq<Frame>)
    requires Clean(body)
    ensures Arrived(body) == Payload(body)
  {
    assert body[..|body|] == body;
  }

  lemma CleanStep(body: seq<Frame>, i: nat)
    requires i < |body| && Clean(body[..i]) && !body[i].TransportError?
    ensures Clean(body[..i + 1])
  {
    assert body[..i + 1] == body[..i] + [body[i]];
  }
}
