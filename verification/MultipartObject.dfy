/** A completed multipart object: its parts' ciphertexts in order. The parts that a
    range touches own one contiguous stretch of it, and reading that stretch part by
    part yields exactly the requested bytes. */
module MultipartObject {
  import opened Bytes
  import opened Cipher
  import opened SizeMath
  import opened FrameSpec
  import opened RangePlan
  import opened Layout
  import opened Segments

  /** A part as it was uploaded: its number, the sealer of that upload and its plaintext. */
  datatype Part = Part(number: nat, seal: Sealer, pt: Bytes)

  function PartCt(g: Geometry, part: Part): Bytes
    requires g.chunkSize > 0
  {
    EncryptAll(g, part.seal, part.pt)
  }

  function ObjectCt(g: Geometry, parts: seq<Part>): Bytes
    requires g.chunkSize > 0
  {
    if |parts| == 0 then [] else ObjectCt(g, parts[..|parts| - 1]) + PartCt(g, parts[|parts| - 1])
  }

  function ObjectPt(parts: seq<Part>): Bytes {
    if |parts| == 0 then [] else ObjectPt(parts[..|parts| - 1]) + parts[|parts| - 1].pt
  }

  /** What the footer records of the parts. */
  function Sizes(parts: seq<Part>): seq<PartSize> {
    seq(|parts|, k requires 0 <= k < |parts| => PartSize(parts[k].number, |parts[k].pt|))
  }

  /** The openers of a reader, by part number. */
  type Openers = nat -> Opener

  /** The readers of all parts of an object under its one key. */
  function ReaderOf(aead: Aead, alg: Alg, key: Bytes): Openers {
    (number: nat) => OpenerOf(aead, alg, key, number)
  }

  ghost predicate Readable(g: Geometry, opens: Openers, parts: seq<Part>) {
    g.chunkSize > 0 && forall k :: 0 <= k < |parts| ==> Paired(g.alg, parts[k].seal, opens(parts[k].number))
  }

  /** The segment of the body that one plan entry owns. */
  function EntrySegment(g: Geometry, opens: Openers, e: Entry): Segment
    requires g.chunkSize > 0
  {
    Segment(if e.plan.ctStart <= e.plan.ctEnd then e.plan.ctEnd - e.plan.ctStart else 0,
            (ct: Bytes) => RangeText(g, opens(e.span.number), e.plan, EndsPart(g, e), ct))
  }

  /** Whether the last frame of an entry is the final one of its part. */
  predicate EndsPart(g: Geometry, e: Entry)
    requires g.chunkSize > 0
  {
    EndsAt(g, e.span.ptLen, e.plan)
  }

  function EntrySegments(g: Geometry, opens: Openers, entries: seq<Entry>): seq<Segment>
    requires g.chunkSize > 0
  {
    seq(|entries|, k requires 0 <= k < |entries| => EntrySegment(g, opens, entries[k]))
  }

  function GlobalStart(entries: seq<Entry>): nat
    requires |entries| > 0
  {
    entries[0].span.ctStart + entries[0].plan.ctStart
  }

  function GlobalEnd(entries: seq<Entry>): nat
    requires |entries| > 0
  {
    entries[|entries| - 1].span.ctStart + entries[|entries| - 1].plan.ctEnd
  }

  /** Each entry ends, in the object, where the next one starts. */
  ghost predicate Contiguous(entries: seq<Entry>) {
    forall i {:trigger entries[i]} :: 0 <= i < |entries| - 1 ==>
      entries[i].span.ctStart + entries[i].plan.ctEnd == entries[i + 1].span.ctStart + entries[i + 1].plan.ctStart
  }

  // ---------------------------------------------------------------- layout facts

  lemma {:induction false} LayoutTotals(g: Geometry, opens: Openers, parts: seq<Part>)
    requires Readable(g, opens, parts)
    ensures PtTotal(Sizes(parts)) == |ObjectPt(parts)| && CtTotal(g, Sizes(parts)) == |ObjectCt(g, parts)|
  {
    if |parts| > 0 {
      var n := |parts| - 1;
      LayoutTotals(g, opens, parts[..n]);
      assert Sizes(parts)[..n] == Sizes(parts[..n]);
      EncryptAllLength(g, parts[n].seal, opens(parts[n].number), parts[n].pt);
    }
  }

  /** The span of the last part: it starts where the parts before it end. */
  lemma LastSpan(g: Geometry, opens: Openers, parts: seq<Part>)
    requires Readable(g, opens, parts) && |parts| > 0
    ensures var n := |parts| - 1;
            var span := LayoutOf(g, Sizes(parts))[n];
            && LayoutOf(g, Sizes(parts))[..n] == LayoutOf(g, Sizes(parts[..n]))
            && span.number == parts[n].number && span.ptStart == |ObjectPt(parts[..n])| && span.ptLen == |parts[n].pt|
            && span.ctStart == |ObjectCt(g, parts[..n])| && span.ctLen == |PartCt(g, parts[n])|
  {
    var n := |parts| - 1;
    assert Sizes(parts)[..n] == Sizes(parts[..n]);
    forall k | 0 <= k < n ensures LayoutOf(g, Sizes(parts))[k] == LayoutOf(g, Sizes(parts[..n]))[k] {
      assert Sizes(parts)[..k] == Sizes(parts[..n])[..k];
    }
    assert Readable(g, opens, parts[..n]);
    LayoutTotals(g, opens, parts[..n]);
    EncryptAllLength(g, parts[n].seal, opens(parts[n].number), parts[n].pt);
  }

  // ---------------------------------------------------------------- ranges

  /** A plan from the start of a part fetches from its start; one to the end of a part,
      to its end. */
  lemma PlanEdges(g: Geometry, ptLen: nat, start: nat, end: nat)
    requires g.chunkSize > 0 && PlanRange(g, ptLen, start, end).Ok?
    ensures var plan := PlanRange(g, ptLen, start, end).value;
            && (start == 0 ==> plan.ctStart == 0)
            && (end == ptLen ==> plan.ctEnd == CiphertextLen(g.alg, ptLen, g.chunkSize))
  {
    PlanDescribes(g, ptLen, start, end);
    var plan := PlanRange(g, ptLen, start, end).value;
    if start == 0 {
      DivUnique(0, g.chunkSize, 0, 0);
    }
    if end == ptLen {
      OffReady(g.chunkSize, ptLen, plan.lastChunk);
    }
  }

  /** What holds after planning a range over the first parts, whose ciphertext is `ct`
      and plaintext `pt`: nothing is planned for a range that lies beyond them; otherwise
      the entries own the stretch from the global start to the global end, which reaches
      the end of these parts if the range goes on, and reading it yields the part of the
      range that lies in them. */
  ghost predicate CoveredBy(g: Geometry, opens: Openers, entries: seq<Entry>, ct: Bytes, pt: Bytes, start: nat, end: nat)
    requires g.chunkSize > 0 && start < end
  {
    var segs := EntrySegments(g, opens, entries);
    if start >= |pt| then entries == []
    else
      && |entries| > 0 && Contiguous(entries)
      && GlobalStart(entries) <= GlobalEnd(entries) <= |ct|
      && (end > |pt| ==> GlobalEnd(entries) == |ct|)
      && GlobalEnd(entries) - GlobalStart(entries) == TotalLen(segs)
      && TextOf(segs, ct[GlobalStart(entries)..GlobalEnd(entries)]) == Some(pt[start..Min(end, |pt|)])
  }

  ghost predicate Covers(g: Geometry, opens: Openers, parts: seq<Part>, start: nat, end: nat)
    requires g.chunkSize > 0 && start < end
  {
    CoveredBy(g, opens, EntriesFor(g, LayoutOf(g, Sizes(parts)), start, end), ObjectCt(g, parts), ObjectPt(parts), start, end)
  }

  /** An entry's share of its part: where it lies and what it reads to. */
  ghost predicate Share(g: Geometry, opens: Openers, e: Entry, partCt: Bytes, partPt: Bytes, ls: nat, le: nat)
    requires g.chunkSize > 0
  {
    && ls <= le <= |partPt| && e.plan.ctStart < e.plan.ctEnd <= |partCt|
    && EntrySegment(g, opens, e).read(partCt[e.plan.ctStart..e.plan.ctEnd]) == Some(partPt[ls..le])
    && (ls == 0 ==> e.plan.ctStart == 0)
    && (le == |partPt| ==> e.plan.ctEnd == |partCt|)
  }

  /** A touched part's entry is its share of the range. */
  lemma LastShare(g: Geometry, opens: Openers, part: Part, span: PartSpan, start: nat, end: nat)
    requires g.chunkSize > 0 && Paired(g.alg, part.seal, opens(part.number))
    requires span.number == part.number && span.ptLen == |part.pt| && start < end && Touches(span, start, end)
    ensures var ls, le := LocalStart(span, start), LocalEnd(span, end);
            && PlanRange(g, span.ptLen, ls, le).Ok?
            && Share(g, opens, Entry(span, PlanRange(g, span.ptLen, ls, le).value), PartCt(g, part), part.pt, ls, le)
  {
    TouchedIsPlanned(g, span, start, end);
    var ls, le := LocalStart(span, start), LocalEnd(span, end);
    PlanYieldsRange(g, part.seal, opens(part.number), part.pt, ls, le);
    PlanEdges(g, span.ptLen, ls, le);
    EncryptAllLength(g, part.seal, opens(part.number), part.pt);
  }

  lemma SegmentsSnoc(g: Geometry, opens: Openers, entries: seq<Entry>, e: Entry)
    requires g.chunkSize > 0
    ensures EntrySegments(g, opens, entries + [e]) == EntrySegments(g, opens, entries) + [EntrySegment(g, opens, e)]
  {
  }

  /** Appending one segment to a run that has been read. */
  lemma TextSnoc(segs: seq<Segment>, b: Bytes, seg: Segment, more: Bytes, text: Bytes, t: Bytes)
    requires |b| == TotalLen(segs) && TextOf(segs, b) == Some(text) && |more| == seg.len && seg.read(more) == Some(t)
    ensures TotalLen(segs + [seg]) == |b + more|
    ensures TextOf(segs + [seg], b + more) == Some(text + t)
  {
    var all := segs + [seg];
    assert all[..|segs|] == segs && all[..|segs| + 1] == all;
    TextOfStep(all, |segs|, b, more);
  }

  lemma CoverPast(g: Geometry, opens: Openers, entries: seq<Entry>, ct: Bytes, pt: Bytes, partCt: Bytes, partPt: Bytes,
                  start: nat, end: nat)
    requires g.chunkSize > 0 && start < end && CoveredBy(g, opens, entries, ct, pt, start, end)
    requires end <= |pt| || start >= |pt| + |partPt|
    ensures CoveredBy(g, opens, entries, ct + partCt, pt + partPt, start, end)
  {
    if start < |pt| {
      var from, to := GlobalStart(entries), GlobalEnd(entries);
      assert (ct + partCt)[from..to] == ct[from..to];
      assert (pt + partPt)[start..end] == pt[start..end];
    }
  }

  lemma CoverFirst(g: Geometry, opens: Openers, ct: Bytes, pt: Bytes, e: Entry, partCt: Bytes, partPt: Bytes,
                   ls: nat, le: nat, start: nat, end: nat)
    requires g.chunkSize > 0 && start < end && |pt| <= start < |pt| + |partPt|
    requires Share(g, opens, e, partCt, partPt, ls, le) && e.span.ctStart == |ct|
    requires ls == start - |pt| && le == Min(end - |pt|, |partPt|)
    ensures CoveredBy(g, opens, [e], ct + partCt, pt + partPt, start, end)
  {
    var seg := EntrySegment(g, opens, e);
    var own := partCt[e.plan.ctStart..e.plan.ctEnd];
    TextSnoc([], [], seg, own, [], partPt[ls..le]);
    assert [] + [seg] == EntrySegments(g, opens, [e]);
    assert [] + own == own && [] + partPt[ls..le] == partPt[ls..le];
    assert (ct + partCt)[|ct| + e.plan.ctStart..|ct| + e.plan.ctEnd] == own;
    assert (pt + partPt)[start..Min(end, |pt + partPt|)] == partPt[ls..le];
  }

  lemma CoverExtend(g: Geometry, opens: Openers, before: seq<Entry>, ct: Bytes, pt: Bytes, e: Entry,
                    partCt: Bytes, partPt: Bytes, le: nat, start: nat, end: nat)
    requires g.chunkSize > 0 && start < |pt| < end && CoveredBy(g, opens, before, ct, pt, start, end)
    requires Share(g, opens, e, partCt, partPt, 0, le) && e.span.ctStart == |ct|
    requires le == Min(end - |pt|, |partPt|)
    ensures CoveredBy(g, opens, before + [e], ct + partCt, pt + partPt, start, end)
  {
    var seg := EntrySegment(g, opens, e);
    var own := partCt[0..e.plan.ctEnd];
    var from := GlobalStart(before);
    SegmentsSnoc(g, opens, before, e);
    TextSnoc(EntrySegments(g, opens, before), ct[from..|ct|], seg, own, pt[start..|pt|], partPt[0..le]);
    SliceOfJoin(ct, partCt, from, |ct|, 0, e.plan.ctEnd);
    SliceOfJoin(pt, partPt, start, |pt|, 0, le);
  }

  /** A touched part extends the cover by its entry. */
  lemma CoverTouched(g: Geometry, opens: Openers, before: seq<Entry>, ct: Bytes, pt: Bytes, part: Part, span: PartSpan,
                     start: nat, end: nat)
    requires g.chunkSize > 0 && Paired(g.alg, part.seal, opens(part.number))
    requires span.number == part.number && span.ptStart == |pt| && span.ptLen == |part.pt| && span.ctStart == |ct|
    requires start < end && Touches(span, start, end) && CoveredBy(g, opens, before, ct, pt, start, end)
    ensures PlanRange(g, span.ptLen, LocalStart(span, start), LocalEnd(span, end)).Ok?
    ensures var e := Entry(span, PlanRange(g, span.ptLen, LocalStart(span, start), LocalEnd(span, end)).value);
            CoveredBy(g, opens, before + [e], ct + PartCt(g, part), pt + part.pt, start, end)
  {
    LastShare(g, opens, part, span, start, end);
    var ls, le := LocalStart(span, start), LocalEnd(span, end);
    var e := Entry(span, PlanRange(g, span.ptLen, ls, le).value);
    hide PlanRange, PartCt, Share;
    if start < |pt| {
      CoverExtend(g, opens, before, ct, pt, e, PartCt(g, part), part.pt, le, start, end);
    } else {
      CoverFirst(g, opens, ct, pt, e, PartCt(g, part), part.pt, ls, le, start, end);
      assert before == [] && [] + [e] == [e];
    }
  }

  lemma {:induction false} CoversAll(g: Geometry, opens: Openers, parts: seq<Part>, start: nat, end: nat)
    requires Readable(g, opens, parts) && start < end
    ensures Covers(g, opens, parts, start, end)
  {
    hide CoveredBy, PlanRange, PartCt, Paired, LocalStart, LocalEnd, SpanAt;
    if |parts| == 0 {
      CoversNothing(g, opens, start, end);
      assert LayoutOf(g, Sizes(parts)) == [];
    } else {
      var n := |parts| - 1;
      CoversAll(g, opens, parts[..n], start, end);
      LastSpan(g, opens, parts);
      var pt, ct := ObjectPt(parts[..n]), ObjectCt(g, parts[..n]);
      var span := LayoutOf(g, Sizes(parts))[n];
      var before := EntriesFor(g, LayoutOf(g, Sizes(parts[..n])), start, end);
      if Touches(span, start, end) {
        CoverTouched(g, opens, before, ct, pt, parts[n], span, start, end);
      } else {
        CoverPast(g, opens, before, ct, pt, PartCt(g, parts[n]), parts[n].pt, start, end);
      }
    }
  }

  lemma CoversNothing(g: Geometry, opens: Openers, start: nat, end: nat)
    requires g.chunkSize > 0 && start < end
    ensures CoveredBy(g, opens, [], [], [], start, end)
  {
  }

  /** For every list of parts (empty parts and gaps in the numbering included) and every
      non-empty range inside the object: the planned entries own one contiguous stretch
      of the object, and reading that stretch segment by segment yields exactly the
      requested bytes. */
  lemma RangeOfObject(g: Geometry, opens: Openers, parts: seq<Part>, start: nat, end: nat)
    requires Readable(g, opens, parts) && start < end <= |ObjectPt(parts)|
    ensures var entries := EntriesFor(g, LayoutOf(g, Sizes(parts)), start, end);
            var segs := EntrySegments(g, opens, entries);
            && |entries| > 0 && Contiguous(entries)
            && GlobalStart(entries) <= GlobalEnd(entries) <= |ObjectCt(g, parts)|
            && GlobalEnd(entries) - GlobalStart(entries) == TotalLen(segs)
            && TextOf(segs, ObjectCt(g, parts)[GlobalStart(entries)..GlobalEnd(entries)])
               == Some(ObjectPt(parts)[start..end])
  {
    CoversAll(g, opens, parts, start, end);
  }
}
