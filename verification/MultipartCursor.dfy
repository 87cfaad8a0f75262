/** The full read of a multipart object: a cursor walks the parts, one decryptor
    each, and stops behind the last part; the footer that follows is never touched. */
module MultipartCursor {
  import opened Bytes
  import opened Body
  import opened Cipher
  import opened FrameSpec
  import opened FrameCodec
  import opened FrameTheorems
  import opened Layout
  import opened Segments
  import opened MultipartObject

  /** The segment of the body that one part owns: all of its ciphertext. */
  function PartSegment(g: Geometry, opens: Openers, span: PartSpan): Segment
    requires g.chunkSize > 0
  {
    Segment(span.ctLen, (ct: Bytes) => PartText(g, opens(span.number), ct))
  }

  function PartText(g: Geometry, open: Opener, ct: Bytes): Option<Bytes>
    requires g.chunkSize > 0
  {
    match DecryptAll(g, open, ct)
    case Ok(pt) => Some(pt)
    case Err(_) => None
  }

  function PartSegments(g: Geometry, opens: Openers, spans: seq<PartSpan>): seq<Segment>
    requires g.chunkSize > 0
  {
    seq(|spans|, k requires 0 <= k < |spans| => PartSegment(g, opens, spans[k]))
  }

  ghost predicate IsPartSegment(g: Geometry, opens: Openers, span: PartSpan, seg: Segment)
    requires g.chunkSize > 0
  {
    seg.len == span.ctLen && forall ct :: seg.read(ct) == PartText(g, opens(span.number), ct)
  }

  ghost predicate ArePartSegments(g: Geometry, opens: Openers, spans: seq<PartSpan>, segs: seq<Segment>)
    requires g.chunkSize > 0
  {
    |segs| == |spans| && forall k :: 0 <= k < |spans| ==> IsPartSegment(g, opens, spans[k], segs[k])
  }

  lemma PartSegmentsAre(g: Geometry, opens: Openers, spans: seq<PartSpan>)
    requires g.chunkSize > 0
    ensures ArePartSegments(g, opens, spans, PartSegments(g, opens, spans))
  {
  }

  ghost predicate NonEmptySpans(spans: seq<PartSpan>) {
    forall k :: 0 <= k < |spans| ==> spans[k].ctLen > 0
  }

  /** The parts of an object, read from its ciphertext, give back its plaintext. */
  lemma {:induction false} WholeObject(g: Geometry, opens: Openers, parts: seq<Part>)
    requires Readable(g, opens, parts)
    ensures var segs := PartSegments(g, opens, LayoutOf(g, Sizes(parts)));
            TotalLen(segs) == |ObjectCt(g, parts)| && TextOf(segs, ObjectCt(g, parts)) == Some(ObjectPt(parts))
  {
    hide PartSegments, TextOf, TotalLen;
    if |parts| == 0 {
      EmptyObject(g, opens, parts);
    } else {
      var n := |parts| - 1;
      WholeObject(g, opens, parts[..n]);
      LastSpan(g, opens, parts);
      RoundTrip(g, parts[n].seal, opens(parts[n].number), parts[n].pt);
      var seg := PartSegment(g, opens, LayoutOf(g, Sizes(parts))[n]);
      assert seg.read(PartCt(g, parts[n])) == Some(parts[n].pt);
      SegmentsOfLast(g, opens, LayoutOf(g, Sizes(parts)));
      TextSnoc(PartSegments(g, opens, LayoutOf(g, Sizes(parts[..n]))), ObjectCt(g, parts[..n]), seg, PartCt(g, parts[n]),
               ObjectPt(parts[..n]), parts[n].pt);
    }
  }

  lemma EmptyObject(g: Geometry, opens: Openers, parts: seq<Part>)
    requires g.chunkSize > 0 && |parts| == 0
    ensures var segs := PartSegments(g, opens, LayoutOf(g, Sizes(parts)));
            TotalLen(segs) == |ObjectCt(g, parts)| && TextOf(segs, ObjectCt(g, parts)) == Some(ObjectPt(parts))
  {
  }

  lemma SegmentsOfLast(g: Geometry, opens: Openers, spans: seq<PartSpan>)
    requires g.chunkSize > 0 && |spans| > 0
    ensures var n := |spans| - 1;
            PartSegments(g, opens, spans) == PartSegments(g, opens, spans[..n]) + [PartSegment(g, opens, spans[n])]
  {
    hide PartSegment;
  }

  /** Nothing but the beginning of the object was ever sent: some whole parts and the
      opened front of the next. */
  ghost predicate SentParts(g: Geometry, opens: Openers, spans: seq<PartSpan>, segs: seq<Segment>, fed: Bytes, sent: Bytes)
    requires g.chunkSize > 0
  {
    exists k: nat, done, cur, own ::
      InSegment(segs, k, done, cur, own, done + cur, sent) && done + cur <= fed && k < |spans|
      && Opened(g, opens(spans[k].number), 0, cur) == Some(own)
  }

  lemma SentPartsGrows(g: Geometry, opens: Openers, spans: seq<PartSpan>, segs: seq<Segment>, fed: Bytes, sent: Bytes, fed': Bytes)
    requires g.chunkSize > 0 && SentParts(g, opens, spans, segs, fed, sent) && fed <= fed'
    ensures SentParts(g, opens, spans, segs, fed', sent)
  {
    var k: nat, done, cur, own :|
      InSegment(segs, k, done, cur, own, done + cur, sent) && done + cur <= fed && k < |spans|
      && Opened(g, opens(spans[k].number), 0, cur) == Some(own);
    assert done + cur <= fed';
  }

  lemma FailedPart(g: Geometry, opens: Openers, span: PartSpan, segs: seq<Segment>, k: nat, done: Bytes, cur: Bytes, own: Bytes, fed: Bytes, sent: Bytes)
    requires g.chunkSize > 0 && InSegment(segs, k, done, cur, own, fed, sent) && IsPartSegment(g, opens, span, segs[k])
    requires Opened(g, opens(span.number), 0, cur).None?
    ensures Unreadable(segs, fed)
  {
    forall ct | cur <= ct && |ct| == segs[k].len ensures segs[k].read(ct).None? {
      OpenedFailsOn(g, opens(span.number), 0, cur, ct);
    }
    SpoilsAll(segs, k, done, cur, fed);
  }

  /** Whether the caller feeds on, is finished, or has met a frame that does not open. */
  datatype Status = More | Finished | Failed

  class MultipartCursor {
    const g: Geometry
    const opens: Openers
    const spans: seq<PartSpan>
    ghost const segs: seq<Segment>
    var current: nat
    var dec: Decryptor
    var consumedCt: nat
    ghost var done: Bytes
    ghost var fed: Bytes
    ghost var sent: Bytes

    ghost predicate Planned() {
      g.chunkSize > 0 && NonEmptySpans(spans) && ArePartSegments(g, opens, spans, segs)
    }

    /** Part `current` is being read, or has just been read to its end. */
    ghost predicate Loaded()
      requires g.chunkSize > 0
      reads this, dec
    {
      && current < |spans| == |segs| && segs[current].len == spans[current].ctLen
      && dec.Valid() && dec.g == g && dec.open == opens(spans[current].number)
      && dec.first == 0 && dec.endsObject && consumedCt == |dec.fed|
      && InSegment(segs, current, done, dec.fed, dec.released, fed, sent)
    }

    ghost predicate Valid()
      reads this, dec
    {
      Planned() && current < |spans| && Loaded() && consumedCt < spans[current].ctLen
    }

    constructor (g: Geometry, opens: Openers, spans: seq<PartSpan>)
      requires g.chunkSize > 0 && |spans| > 0 && NonEmptySpans(spans)
      ensures Valid() && fresh(dec) && fed == [] && sent == []
      ensures this.g == g && this.opens == opens && this.spans == spans && segs == PartSegments(g, opens, spans)
    {
      this.g, this.opens, this.spans := g, opens, spans;
      segs := PartSegments(g, opens, spans);
      PartSegmentsAre(g, opens, spans);
      current, consumedCt := 0, 0;
      dec := new Decryptor(g, opens(spans[0].number), 0, true);
      done, fed, sent := [], [], [];
    }

    predicate EndedEarly()
      requires current < |spans|
      reads this
    {
      consumedCt != spans[current].ctLen
    }

    lemma Front()
      requires Planned() && Loaded()
      ensures SentParts(g, opens, spans, segs, fed, sent)
    {
      assert InSegment(segs, current, done, dec.fed, dec.released, done + dec.fed, sent);
    }

    /** Pushes bytes that all belong to the current part. */
    method PushPiece(piece: Bytes) returns (out: Bytes, ok: bool)
      requires Planned() && Loaded() && consumedCt + |piece| <= spans[current].ctLen
      modifies this, dec
      ensures dec == old(dec) && fed == old(fed) + piece && sent == old(sent) + out
      ensures ok ==> Loaded() && consumedCt == old(consumedCt) + |piece| && current == old(current)
      ensures !ok ==> Unreadable(segs, fed) && SentParts(g, opens, spans, segs, fed, sent)
    {
      hide InSegment, IsPartSegment, SentParts, Unreadable, NonEmptySpans, Opened;
      ghost var cur, own := dec.fed, dec.released;
      Front();
      consumedCt := consumedCt + |piece|;
      var r := dec.Push(piece);
      out, ok := if r.Ok? then r.value else [], r.Ok?;
      Advance(segs, current, done, cur, own, fed, sent, piece, out);
      fed, sent := fed + piece, sent + out;
      assert InSegment(segs, current, done, cur + piece, own + out, fed, sent);
      if !ok {
        assert sent == old(sent);
        FailedPart(g, opens, spans[current], segs, current, done, cur + piece, own + out, fed, sent);
        SentPartsGrows(g, opens, spans, segs, old(fed), sent, fed);
      }
    }

    /** Finishes a part that has all of its ciphertext and moves to the next one, if any. */
    method FinishPart() returns (out: Bytes, status: Status)
      requires Planned() && Loaded() && consumedCt == spans[current].ctLen
      modifies this
      ensures fed == old(fed) && sent == old(sent) + out
      ensures status.More? ==> Valid() && fresh(dec)
      ensures status.Finished? ==> |fed| == TotalLen(segs) && TextOf(segs, fed) == Some(sent)
      ensures status.Failed? ==> Unreadable(segs, fed) && SentParts(g, opens, spans, segs, fed, sent)
    {
      hide InSegment, SentParts, Unreadable, TextOf, TotalLen, NonEmptySpans;
      Front();
      var r := dec.Finish();
      out := if r.Ok? then r.value else [];
      if r.Err? {
        FailedSegment(segs, current, done, dec.fed, dec.released, fed, sent);
        return out, Failed;
      }
      Leave(segs, current, done, dec.fed, dec.released, fed, sent, out);
      done, sent := fed, sent + out;
      if current + 1 == |spans| {
        assert segs[..current + 1] == segs;
        return out, Finished;
      }
      NextPart();
      status := More;
    }

    /** Begins the next part with nothing read of it. */
    method NextPart()
      requires Planned() && current + 1 < |spans| && AtSegment(segs, current + 1, fed, sent) && done == fed
      modifies this
      ensures fed == old(fed) && sent == old(sent) && Valid() && fresh(dec)
    {
      hide InSegment, AtSegment;
      Enter(segs, current + 1, fed, sent);
      current, consumedCt := current + 1, 0;
      dec := new Decryptor(g, opens(spans[current].number), 0, true);
    }

    /** Feeds one frame of the body through the per-part decryptors. */
    method Feed(frame: Bytes) returns (out: Bytes, status: Status)
      requires Valid()
      modifies this, dec
      ensures sent == old(sent) + out && fed <= old(fed) + frame
      ensures status.More? ==> Valid() && fed == old(fed) + frame && (dec == old(dec) || fresh(dec))
      ensures status.Finished? ==> |fed| == TotalLen(segs) && TextOf(segs, fed) == Some(sent)
      ensures status.Failed? ==> Unreadable(segs, fed) && SentParts(g, opens, spans, segs, fed, sent)
    {
      hide Planned, Loaded, ArePartSegments, InSegment, NonEmptySpans, SentParts, Unreadable, TextOf, TotalLen;
      var data := frame;
      out := [];
      while |data| > 0
        invariant Valid() && (dec == old(dec) || fresh(dec))
        invariant fed + data == old(fed) + frame && sent == old(sent) + out
        decreases |data|
      {
        var take := Min(|data|, spans[current].ctLen - consumedCt);
        assert fed + data == fed + data[..take] + data[take..];
        var more, pushed := PushPiece(data[..take]);
        data := data[take..];
        out := out + more;
        if !pushed {
          return out, Failed;
        }
        if consumedCt < spans[current].ctLen {
          continue;
        }
        more, status := FinishPart();
        out := out + more;
        if !status.More? {
          return;
        }
      }
      status := More;
    }
  }

  /** The client gets the text of all parts if and only if all of their bytes arrived
      before any transport error and can be read; what follows the last part, footer and
      trailer, makes no difference. */
  method DecryptingMultipart(g: Geometry, opens: Openers, spans: seq<PartSpan>, body: seq<Frame>)
    returns (out: Bytes, ok: bool)
    requires g.chunkSize > 0 && NonEmptySpans(spans)
    ensures var segs := PartSegments(g, opens, spans);
            && (ok <==> |Arrived(body)| >= TotalLen(segs) && TextOf(segs, Arrived(body)[..TotalLen(segs)]).Some?)
            && (ok ==> out == TextOf(segs, Arrived(body)[..TotalLen(segs)]).value)
            && (!ok ==> SentParts(g, opens, spans, segs, Arrived(body), out))
  {
    hide ArePartSegments, NonEmptySpans, SentParts, Unreadable, PartSegments, TextOf, TotalLen, InSegment, Payload;
    if |spans| == 0 {
      NoParts(g, opens, spans, Arrived(body));
      return [], true;
    }
    var cursor := new MultipartCursor(g, opens, spans);
    out := [];
    PayloadStart(body);
    for i := 0 to |body|
      invariant cursor.Valid() && fresh(cursor) && fresh(cursor.dec) && Clean(body[..i])
      invariant cursor.g == g && cursor.opens == opens && cursor.spans == spans && cursor.segs == PartSegments(g, opens, spans)
      invariant cursor.fed == Payload(body[..i]) && cursor.sent == out
    {
      PayloadStep(body, i);
      ArrivedPrefix(body, i);
      match body[i] {
        case Trailers =>
          CleanStep(body, i);
        case TransportError =>
          assert CleanLen(body) == i;
          StoppedShort(cursor);
          return out, false;
        case Data(bytes) =>
          CleanStep(body, i);
          ArrivedPrefix(body, i + 1);
          var more, status := cursor.Feed(bytes);
          out := out + more;
          match status {
            case More =>
            case Finished =>
              assert Arrived(body)[..|cursor.fed|] == cursor.fed;
              return out, true;
            case Failed =>
              SpoiledParts(g, opens, spans, cursor.segs, cursor.fed, Arrived(body), out);
              return out, false;
          }
      }
    }
    assert body[..|body|] == body;
    CleanArrives(body);
    StoppedShort(cursor);
    ok := !cursor.EndedEarly();
  }

  lemma NoParts(g: Geometry, opens: Openers, spans: seq<PartSpan>, all: Bytes)
    requires g.chunkSize > 0 && |spans| == 0
    ensures var segs := PartSegments(g, opens, spans);
            TotalLen(segs) == 0 && TextOf(segs, all[..0]) == Some([])
  {
  }

  /** A cursor that wants more has seen less than all parts. */
  lemma StoppedShort(cursor: MultipartCursor)
    requires cursor.Valid()
    ensures |cursor.fed| < TotalLen(cursor.segs)
    ensures SentParts(cursor.g, cursor.opens, cursor.spans, cursor.segs, cursor.fed, cursor.sent)
  {
    cursor.Front();
    TotalLenStep(cursor.segs, cursor.current);
    TotalLenPrefix(cursor.segs, cursor.current + 1);
  }

  lemma SpoiledParts(g: Geometry, opens: Openers, spans: seq<PartSpan>, segs: seq<Segment>, fed: Bytes, all: Bytes, sent: Bytes)
    requires g.chunkSize > 0 && fed <= all && Unreadable(segs, fed) && SentParts(g, opens, spans, segs, fed, sent)
    ensures |all| >= TotalLen(segs) ==> TextOf(segs, all[..TotalLen(segs)]).None?
    ensures SentParts(g, opens, spans, segs, all, sent)
  {
    hide SentParts, TextOf, TotalLen;
    SentPartsGrows(g, opens, spans, segs, fed, sent, all);
    if |all| >= TotalLen(segs) {
      PrefixesCompare(all[..TotalLen(segs)], fed, all);
    }
  }
}
