/** Serving a byte range of a multipart object, from the plan to the last byte sent. */
module RangeService {
  import opened Bytes
  import opened Body
  import opened Cipher
  import opened SizeMath
  import opened FrameSpec
  import opened RangePlan
  import opened RangeReader
  import opened Layout
  import opened Segments
  import opened MultipartObject
  import opened RangeCursor

  /** What the client has got in the end: the text of the planned stretch, if and only if
      all of it arrived before any transport error and can be read. */
  method DecryptingMultipartRange(g: Geometry, opens: Openers, entries: seq<Entry>, body: seq<Frame>)
    returns (out: Bytes, ok: bool)
    requires g.chunkSize > 0 && WellPlanned(entries)
    ensures var segs := EntrySegments(g, opens, entries);
            && (ok <==> |Arrived(body)| >= TotalLen(segs) && TextOf(segs, Arrived(body)[..TotalLen(segs)]).Some?)
            && (ok ==> out == TextOf(segs, Arrived(body)[..TotalLen(segs)]).value)
            && (!ok ==> SentFront(g, opens, entries, segs, Arrived(body), out))
  {
    hide AreSegments, WellPlanned, SentFront, Unreadable, EntrySegments, TextOf, TotalLen, InSegment, AtSegment, Payload;
    hide RangeCursor.Valid, RangeCursor.Loaded, RangeCursor.Planned;
    if |entries| == 0 {
      NothingPlanned(g, opens, Arrived(body));
      return [], true;
    }
    var cursor := new RangeCursor(g, opens, entries);
    out := [];
    PayloadStart(body);
    for i := 0 to |body|
      invariant cursor.Valid() && fresh(cursor.Objects()) && Clean(body[..i])
      invariant cursor.g == g && cursor.opens == opens && cursor.entries == entries && cursor.segs == EntrySegments(g, opens, entries)
      invariant cursor.fed == Payload(body[..i]) && cursor.sent == out
    {
      PayloadStep(body, i);
      ArrivedPrefix(body, i);
      match body[i] {
        case Trailers =>
          CleanStep(body, i);
        case TransportError =>
          assert CleanLen(body) == i;
          Outcome(cursor, Arrived(body));
          return out, cursor.IsDone();
        case Data(bytes) =>
          if cursor.IsDone() {
            Outcome(cursor, Arrived(body));
            return out, true;
          }
          CleanStep(body, i);
          ArrivedPrefix(body, i + 1);
          var more, fed := cursor.Feed(bytes);
          out := out + more;
          if !fed {
            Spoiled(g, opens, entries, cursor.segs, cursor.fed, Arrived(body), out);
            return out, false;
          }
      }
    }
    assert body[..|body|] == body;
    CleanArrives(body);
    Outcome(cursor, Arrived(body));
    ok := cursor.IsDone();
  }

  /** A cursor that has finished read the stretch; one that has not, has seen too little. */
  lemma Outcome(cursor: RangeCursor, all: Bytes)
    requires cursor.Valid() && cursor.fed <= all && (cursor.part != null ==> cursor.fed == all)
    ensures cursor.part == null ==>
              |all| >= TotalLen(cursor.segs) && TextOf(cursor.segs, all[..TotalLen(cursor.segs)]) == Some(cursor.sent)
    ensures cursor.part != null ==>
              |all| < TotalLen(cursor.segs) && SentFront(cursor.g, cursor.opens, cursor.entries, cursor.segs, all, cursor.sent)
  {
    var segs := cursor.segs;
    if cursor.part == null {
      assert segs[..|segs|] == segs;
      assert all[..|cursor.done|] == cursor.done;
    } else {
      cursor.Front();
      TotalLenStep(segs, cursor.next - 1);
      TotalLenPrefix(segs, cursor.next);
    }
  }

  lemma Spoiled(g: Geometry, opens: Openers, entries: seq<Entry>, segs: seq<Segment>, fed: Bytes, all: Bytes, sent: Bytes)
    requires g.chunkSize > 0 && fed <= all && Unreadable(segs, fed) && SentFront(g, opens, entries, segs, fed, sent)
    ensures |all| >= TotalLen(segs) ==> TextOf(segs, all[..TotalLen(segs)]).None?
    ensures SentFront(g, opens, entries, segs, all, sent)
  {
    hide SentFront, TextOf, TotalLen;
    FrontGrows(g, opens, entries, segs, fed, sent, all);
    if |all| >= TotalLen(segs) {
      PrefixesCompare(all[..TotalLen(segs)], fed, all);
    }
  }

  // ---------------------------------------------------------------- Range header

  /** A parsed `Range` value: `first-last`, `first-` or `-suffix`, as 64-bit numbers. */
  datatype ByteRange = ByteRange(first: Option<nat>, last: Option<nat>)

  /** The half-open span a range names in a plaintext of `ptLen` bytes. */
  function ResolveRange(range: ByteRange, ptLen: nat): (nat, nat) {
    match range
    case ByteRange(Some(first), Some(last)) =>
      var start := Min(first, ptLen);
      var end := Min(if last + 1 < TWO_64 then last + 1 else TWO_64 - 1, ptLen);
      (start, if end < start then start else end)
    case ByteRange(Some(first), None) => (Min(first, ptLen), ptLen)
    case ByteRange(None, Some(suffix)) => (if suffix < ptLen then ptLen - suffix else 0, ptLen)
    case ByteRange(None, None) => (0, ptLen)
  }

  /** The byte positions a range selects, as section 14.1.2 of RFC 9110 defines them. */
  predicate Selects(range: ByteRange, ptLen: nat, i: nat) {
    i < ptLen &&
    match range
    case ByteRange(Some(first), Some(last)) => first <= i <= last
    case ByteRange(Some(first), None) => first <= i
    case ByteRange(None, Some(suffix)) => ptLen <= i + suffix
    case ByteRange(None, None) => true
  }

  /** The resolved span holds exactly the selected bytes. */
  lemma ResolveRangeExact(range: ByteRange, ptLen: nat, i: nat)
    requires ptLen < TWO_64
    ensures var (start, end) := ResolveRange(range, ptLen);
            start <= end <= ptLen && (start <= i < end <==> Selects(range, ptLen, i))
  {
  }

  // ---------------------------------------------------------------- ranged GET

  /** The answer to a ranged GET: the stored length is none of a ciphertext, the range is
      not satisfiable, or the span it covers, the backend bytes it fetched and what it sent
      of them. */
  datatype Answer =
    | BadLength
    | InvalidRange
    | Partial(start: nat, end: nat, ctStart: nat, ctEnd: nat, sent: Bytes, complete: bool)

  /** A ranged GET of a single-part object, whatever length and body the backend returns. */
  method ServeSingle(g: Geometry, open: Opener, storedLen: nat, range: ByteRange, body: seq<Frame>) returns (answer: Answer)
    requires g.chunkSize > 0
    ensures answer.BadLength? <==> PlaintextLen(g.alg, storedLen, g.chunkSize).Err?
    ensures !answer.BadLength? ==>
              var ptLen := PlaintextLen(g.alg, storedLen, g.chunkSize).value;
              var (start, end) := ResolveRange(range, ptLen);
              var plan := PlanRange(g, ptLen, start, end);
              && (answer.InvalidRange? <==> plan.Err?)
              && (answer.Partial? ==>
                    && (answer.start, answer.end, answer.ctStart, answer.ctEnd) == (start, end, plan.value.ctStart, plan.value.ctEnd)
                    && var text := RangeText(g, open, plan.value, EndsAt(g, ptLen, plan.value), Payload(body));
                       && (answer.complete <==> Clean(body) && text.Some?) && (answer.complete ==> answer.sent == text.value)
                       && (!answer.complete ==> FrontOf(g, open, plan.value, Payload(body), answer.sent)))
  {
    hide PlaintextLen, PlanRange, RangeText, FrontOf, Payload, Clean;
    var ptLen := PlaintextLen(g.alg, storedLen, g.chunkSize);
    if ptLen.Err? {
      return BadLength;
    }
    var (start, end) := ResolveRange(range, ptLen.value);
    var plan := PlanRange(g, ptLen.value, start, end);
    if plan.Err? {
      return InvalidRange;
    }
    var sent, complete := DecryptingRange(g, open, plan.value, NChunks(ptLen.value, g.chunkSize), body);
    answer := Partial(start, end, plan.value.ctStart, plan.value.ctEnd, sent, complete);
  }

  /** The plaintext length comes from the stored length, and the fetched slice of the
      ciphertext, in any frames, is delivered as exactly the selected bytes. */
  method RangedGetSingle(g: Geometry, ghost seal: Sealer, open: Opener, ghost pt: Bytes, storedLen: nat,
                         range: ByteRange, body: seq<Frame>) returns (answer: Answer)
    requires g.chunkSize > 0 && Paired(g.alg, seal, open) && storedLen == |EncryptAll(g, seal, pt)|
    ensures var (start, end) := ResolveRange(range, |pt|);
            && !answer.BadLength?
            && (answer.InvalidRange? <==> !(start <= end <= |pt| && (start < |pt| || |pt| == 0)))
            && (answer.Partial? ==>
                  && answer.start == start <= answer.end == end <= |pt|
                  && answer.ctStart < answer.ctEnd <= storedLen
                  && (Clean(body) && Payload(body) == EncryptAll(g, seal, pt)[answer.ctStart..answer.ctEnd] ==>
                        answer.complete && answer.sent == pt[start..end]))
  {
    hide PlaintextLen, PlanRange, RangeText, FrontOf, Payload, Paired, EncryptAll;
    EncryptAllLength(g, seal, open, pt);
    InvertsCiphertextLen(g.alg, |pt|, g.chunkSize);
    answer := ServeSingle(g, open, storedLen, range, body);
    ghost var (start, end) := ResolveRange(range, |pt|);
    PlanAccepts(g, |pt|, start, end);
    if answer.Partial? {
      PlanYieldsRange(g, seal, open, pt, start, end);
    }
  }

  lemma {:induction false} EntriesWellPlanned(g: Geometry, spans: seq<PartSpan>, start: nat, end: nat)
    requires g.chunkSize > 0 && start < end
    ensures WellPlanned(EntriesFor(g, spans, start, end))
  {
    if |spans| > 0 {
      EntriesWellPlanned(g, spans[..|spans| - 1], start, end);
      var span := spans[|spans| - 1];
      if Touches(span, start, end) {
        TouchedIsPlanned(g, span, start, end);
        PlanNonEmpty(g, span.ptLen, LocalStart(span, start), LocalEnd(span, end));
      }
    }
  }

  /** The plan for a range of the listed parts. */
  function RangeEntries(g: Geometry, sizes: seq<PartSize>, start: nat, end: nat): seq<Entry>
    requires g.chunkSize > 0
  {
    if start < end then EntriesFor(g, LayoutOf(g, sizes), start, end) else []
  }

  /** A ranged GET of a multipart object in the 64-bit arithmetic of the code, whatever body
      the backend returns. The listed parts have a ciphertext of less than 2^64 bytes. */
  method ServeMultipart(g: Geometry, opens: Openers, sizes: seq<PartSize>, totalPt: nat, range: ByteRange, body: seq<Frame>)
    returns (answer: Answer)
    requires g.chunkSize > 0 && CtTotal(g, sizes) < TWO_64 && totalPt == PtTotal(sizes) % TWO_64
    ensures var (start, end) := ResolveRange(range, PtTotal(sizes));
            var entries := RangeEntries(g, sizes, start, end);
            var segs := EntrySegments(g, opens, entries);
            && !answer.BadLength? && start <= end <= PtTotal(sizes) && WellPlanned(entries)
            && (answer.InvalidRange? <==> start == PtTotal(sizes) > 0)
            && (answer.Partial? ==>
                  && answer.start == start && answer.end == end
                  && (|entries| > 0 ==> answer.ctStart == Wrap64(GlobalStart(entries)) && answer.ctEnd == Wrap64(GlobalEnd(entries)))
                  && (|entries| == 0 ==> answer.ctStart == answer.ctEnd == 0)
                  && (answer.complete <==>
                        |Arrived(body)| >= TotalLen(segs) && TextOf(segs, Arrived(body)[..TotalLen(segs)]).Some?)
                  && (answer.complete ==> answer.sent == TextOf(segs, Arrived(body)[..TotalLen(segs)]).value)
                  && (!answer.complete ==> SentFront(g, opens, entries, segs, Arrived(body), answer.sent)))
  {
    hide EntrySegments, TextOf, TotalLen, SentFront, EntriesFor, WellPlanned, Arrived, PtTotal, CtTotal, GlobalStart, GlobalEnd,
         LayoutOf, SizesOf, Fit64;
    PtBelowCt(g, sizes);
    var spans := LayoutOf64(g, sizes);
    var (start, end) := ResolveRange(range, totalPt);
    ResolveRangeExact(range, totalPt, 0);
    if start < end {
      EntriesWellPlanned(g, spans, start, end);
    } else {
      NothingPlanned(g, opens, Arrived(body));
    }
    var plan := PlanMultipartRange(g, spans, start, end);
    if plan.Err? {
      return InvalidRange;
    }
    if |plan.value| == 0 {
      NothingPlanned(g, opens, Arrived(body));
      return Partial(start, end, 0, 0, [], true);
    }
    var from, to := Wrap64(GlobalStart(plan.value)), Wrap64(GlobalEnd(plan.value));
    var sent, complete := DecryptingMultipartRange(g, opens, plan.value, body);
    answer := Partial(start, end, from, to, sent, complete);
  }

  lemma NothingPlanned(g: Geometry, opens: Openers, all: Bytes)
    requires g.chunkSize > 0
    ensures WellPlanned([])
    ensures var segs := EntrySegments(g, opens, []); TotalLen(segs) == 0 && TextOf(segs, all[..0]) == Some([])
  {
  }

  /** For every list of parts, range and framing of the fetched stretch, exactly the selected
      bytes are delivered. The stored length is a 64-bit number. */
  method RangedGetMultipart(g: Geometry, opens: Openers, ghost parts: seq<Part>, sizes: seq<PartSize>, totalPt: nat,
                            range: ByteRange, body: seq<Frame>) returns (answer: Answer)
    requires Readable(g, opens, parts) && |ObjectCt(g, parts)| < TWO_64
    requires sizes == Sizes(parts) && totalPt == PtTotal(sizes) % TWO_64
    ensures var (start, end) := ResolveRange(range, |ObjectPt(parts)|);
            && !answer.BadLength?
            && (answer.InvalidRange? <==> start == |ObjectPt(parts)| > 0)
            && (answer.Partial? ==>
                  && answer.start == start <= answer.end == end <= |ObjectPt(parts)|
                  && answer.ctStart <= answer.ctEnd <= |ObjectCt(g, parts)|
                  && (Clean(body) && Payload(body) == ObjectCt(g, parts)[answer.ctStart..answer.ctEnd] ==>
                        answer.complete && answer.sent == ObjectPt(parts)[start..end]))
  {
    hide EntrySegments, TextOf, TotalLen, SentFront, Contiguous, Paired, ObjectCt, ObjectPt, EntriesFor, WellPlanned, Payload, Arrived,
         PtTotal, CtTotal, LayoutOf;
    LayoutTotals(g, opens, parts);
    answer := ServeMultipart(g, opens, sizes, totalPt, range, body);
    if answer.Partial? && answer.start < answer.end {
      RangeOfObject(g, opens, parts, answer.start, answer.end);
    }
    if Clean(body) {
      CleanArrives(body);
    }
    if answer.Partial? {
      WholeStretch(Payload(body));
      NothingPlanned(g, opens, Arrived(body));
      NothingSelected(ObjectPt(parts), answer.start);
    }
  }

  lemma NothingSelected(pt: Bytes, start: nat)
    requires start <= |pt|
    ensures pt[start..start] == []
  {
  }

  /** Laying out the parts of an object with a 64-bit length. */
  method LayoutOf64(g: Geometry, sizes: seq<PartSize>) returns (spans: seq<PartSpan>)
    requires g.chunkSize > 0 && CtTotal(g, sizes) < TWO_64
    ensures spans == LayoutOf(g, sizes) && Fit64(g, spans) && SizesOf(spans) == sizes
  {
    spans := PartLayout(g, sizes);
    LayoutOfObject(g, sizes);
    assert spans == LayoutOf(g, sizes);
    ObjectFits(g, sizes);
  }

  lemma WholeStretch(b: Bytes)
    ensures b[..|b|] == b
  {
  }
}
