/** Streaming read of one planned range: frames are opened as they arrive, the
    leading trim is consumed across pushes and the trailing trim cuts the last chunk. */
module RangeReader {
  import opened Bytes
  import opened Body
  import opened Cipher
  import opened FrameSpec
  import opened FrameCodec
  import FrameTheorems
  import opened RangePlan

  /** How far the leading trim has got: what was sent of what was released, and how
      many bytes are still to be dropped. */
  ghost predicate Skipping(trimStart: nat, released: Bytes, sent: Bytes, toDrop: nat) {
    sent == Drop(released, trimStart) && toDrop == trimStart - Min(trimStart, |released|)
  }

  lemma SkipMore(trimStart: nat, released: Bytes, sent: Bytes, toDrop: nat, more: Bytes)
    requires Skipping(trimStart, released, sent, toDrop)
    ensures Skipping(trimStart, released + more, sent + Drop(more, toDrop), toDrop - Min(toDrop, |more|))
  {
    if |released| < trimStart {
      assert sent == [];
      assert (released + more)[Min(trimStart, |released + more|)..] == more[Min(toDrop, |more|)..];
    } else {
      assert (released + more)[trimStart..] == released[trimStart..] + more;
    }
  }

  lemma SkipLast(trimStart: nat, released: Bytes, sent: Bytes, toDrop: nat, last: Bytes, trimEnd: nat)
    requires Skipping(trimStart, released, sent, toDrop)
    ensures sent + Drop(Take(last, trimEnd), toDrop) == Trimmed(released, last, trimStart, trimEnd)
  {
    SkipMore(trimStart, released, sent, toDrop, Take(last, trimEnd));
  }

  /** The decryptor of one planned range together with the trims it still owes. */
  class RangePart {
    const g: Geometry
    const open: Opener
    const plan: Plan
    const ends: bool
    const dec: Decryptor
    var toDrop: nat
    ghost var sent: Bytes

    ghost predicate Valid()
      reads this, dec
    {
      && dec.Valid() && dec.g == g && dec.open == open && dec.first == plan.firstChunk && dec.endsObject == ends
      && Skipping(plan.trimStart, dec.released, sent, toDrop)
    }

    constructor (g: Geometry, open: Opener, plan: Plan, ends: bool)
      requires g.chunkSize > 0
      ensures Valid() && fresh(dec) && dec.fed == [] && sent == []
      ensures this.g == g && this.open == open && this.plan == plan && this.ends == ends
    {
      this.g, this.open, this.plan, this.ends := g, open, plan, ends;
      dec := new Decryptor(g, open, plan.firstChunk, ends);
      toDrop, sent := plan.trimStart, [];
    }

    /** Pushes ciphertext and sends what is left after the pending leading trim. */
    method Push(data: Bytes) returns (out: Bytes, ok: bool)
      requires Valid()
      modifies this, dec
      ensures dec.fed == old(dec.fed) + data && sent == old(sent) + out
      ensures ok <==> Opened(g, open, plan.firstChunk, dec.fed).Some?
      ensures ok ==> Valid()
      ensures !ok ==> out == []
    {
      var r := dec.Push(data);
      if r.Err? {
        return [], false;
      }
      var pt := r.value;
      SkipMore(plan.trimStart, old(dec.released), sent, toDrop, pt);
      if toDrop >= |pt| {
        assert Drop(pt, toDrop) == [];
        out, toDrop := [], toDrop - |pt|;
      } else {
        out, toDrop := pt[toDrop..], 0;
      }
      sent := sent + out;
      ok := true;
    }

    /** Opens the last frame and trims it to the requested window: together with what
        was sent before, the client has the text of the range. */
    method Finish() returns (out: Bytes, ok: bool)
      requires Valid()
      ensures var text := RangeText(g, open, plan, ends, dec.fed);
              (ok <==> text.Some?) && (ok ==> sent + out == text.value) && (!ok ==> out == [])
    {
      var last := dec.Finish();
      if last.Err? {
        return [], false;
      }
      SkipLast(plan.trimStart, dec.released, sent, toDrop, last.value, plan.trimEnd);
      var pt := if plan.trimEnd < |last.value| then last.value[..plan.trimEnd] else last.value;
      assert pt == Take(last.value, plan.trimEnd);
      if toDrop < |pt| {
        out := pt[toDrop..];
      } else {
        out := [];
      }
      ok := true;
    }
  }

  /** `out` is the trimmed front of what opens from the start of `all`. */
  ghost predicate FrontOf(g: Geometry, open: Opener, plan: Plan, all: Bytes, out: Bytes)
    requires g.chunkSize > 0
  {
    exists n: nat :: n <= |all| && Opened(g, open, plan.firstChunk, all[..n]).Some?
                     && out == Drop(Opened(g, open, plan.firstChunk, all[..n]).value, plan.trimStart)
  }

  lemma SentSoFar(g: Geometry, open: Opener, plan: Plan, all: Bytes, fed: Bytes, out: Bytes)
    requires g.chunkSize > 0 && fed <= all && Opened(g, open, plan.firstChunk, fed).Some?
    requires out == Drop(Opened(g, open, plan.firstChunk, fed).value, plan.trimStart)
    ensures FrontOf(g, open, plan, all, out)
  {
    assert all[..|fed|] == fed;
  }

  /** Serves one range of a single-part object. The stream ends without an error exactly
      when the body is the ciphertext of a readable range, and then the client got
      precisely the trimmed text; before a failure it got the front of it. */
  method DecryptingRange(g: Geometry, open: Opener, plan: Plan, totalChunks: nat, body: seq<Frame>)
    returns (out: Bytes, ok: bool)
    requires g.chunkSize > 0
    ensures var text := RangeText(g, open, plan, plan.lastChunk + 1 == totalChunks, Payload(body));
            (ok <==> Clean(body) && text.Some?) && (ok ==> out == text.value)
    ensures !ok ==> FrontOf(g, open, plan, Payload(body), out)
  {
    var part := new RangePart(g, open, plan, plan.lastChunk + 1 == totalChunks);
    out := [];
    for i := 0 to |body|
      invariant part.Valid() && fresh(part) && fresh(part.dec) && part.g == g && part.open == open && part.plan == plan
      invariant part.ends == (plan.lastChunk + 1 == totalChunks)
      invariant part.dec.fed == Payload(body[..i]) && Clean(body[..i]) && part.sent == out
    {
      PayloadStep(body, i);
      PayloadPrefix(body, i);
      SentSoFar(g, open, plan, Payload(body), part.dec.fed, out);
      match body[i] {
        case Trailers =>
        case TransportError =>
          return out, false;
        case Data(bytes) =>
          var more, pushed := part.Push(bytes);
          if !pushed {
            PayloadPrefix(body, i + 1);
            FrameTheorems.OpenedFailsOn(g, open, plan.firstChunk, part.dec.fed, Payload(body));
            return out, false;
          }
          out := out + more;
      }
    }
    assert body[..|body|] == body;
    SentSoFar(g, open, plan, Payload(body), part.dec.fed, out);
    var more, finished := part.Finish();
    return out + more, finished;
  }
}
