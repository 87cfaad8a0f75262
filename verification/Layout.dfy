/** Multipart object layout: where each part lies in the plaintext and in the
    ciphertext, and which ciphertext of which parts a plaintext range needs. */
module Layout {
  import opened Bytes
  import opened Cipher
  import opened SizeMath
  import opened RangePlan

  /** A footer entry: the client's part number and the part's plaintext size. */
  datatype PartSize = PartSize(number: nat, ptLen: nat)

  datatype PartSpan = PartSpan(number: nat, ptStart: nat, ptLen: nat, ctStart: nat, ctLen: nat)

  function PtTotal(parts: seq<PartSize>): nat {
    if |parts| == 0 then 0 else PtTotal(parts[..|parts| - 1]) + parts[|parts| - 1].ptLen
  }

  function CtTotal(g: Geometry, parts: seq<PartSize>): nat
    requires g.chunkSize > 0
  {
    if |parts| == 0 then 0
    else CtTotal(g, parts[..|parts| - 1]) + CiphertextLen(g.alg, parts[|parts| - 1].ptLen, g.chunkSize)
  }

  /** Part `k` starts where the parts listed before it end, in both coordinate spaces. */
  function SpanAt(g: Geometry, parts: seq<PartSize>, k: nat): PartSpan
    requires g.chunkSize > 0 && k < |parts|
  {
    PartSpan(parts[k].number, PtTotal(parts[..k]), parts[k].ptLen,
             CtTotal(g, parts[..k]), CiphertextLen(g.alg, parts[k].ptLen, g.chunkSize))
  }

  /** The layout of the listed parts. */
  function LayoutOf(g: Geometry, sizes: seq<PartSize>): seq<PartSpan>
    requires g.chunkSize > 0
  {
    seq(|sizes|, k requires 0 <= k < |sizes| => SpanAt(g, sizes, k))
  }

  lemma TotalsStep(g: Geometry, parts: seq<PartSize>, k: nat)
    requires g.chunkSize > 0 && k < |parts|
    ensures PtTotal(parts[..k + 1]) == PtTotal(parts[..k]) + parts[k].ptLen
    ensures CtTotal(g, parts[..k + 1]) == CtTotal(g, parts[..k]) + CiphertextLen(g.alg, parts[k].ptLen, g.chunkSize)
  {
    assert parts[..k + 1][..k] == parts[..k];
  }

  lemma {:induction false} TotalsGrow(g: Geometry, parts: seq<PartSize>, k: nat)
    requires g.chunkSize > 0 && k <= |parts|
    ensures PtTotal(parts[..k]) <= CtTotal(g, parts[..k]) <= CtTotal(g, parts)
    decreases |parts| - k
  {
    hide CiphertextLen;
    PtBelowCt(g, parts[..k]);
    if k == |parts| {
      assert parts[..k] == parts;
    } else {
      TotalsGrow(g, parts, k + 1);
      TotalsStep(g, parts, k);
    }
  }

  lemma {:induction false} PtBelowCt(g: Geometry, parts: seq<PartSize>)
    requires g.chunkSize > 0
    ensures PtTotal(parts) <= CtTotal(g, parts)
  {
    if |parts| > 0 {
      var n := |parts| - 1;
      PtBelowCt(g, parts[..n]);
      MulMono(0, NChunks(parts[n].ptLen, g.chunkSize), g.alg.Overhead());
    }
  }

  // ---------------------------------------------------------------- 64-bit layouts

  /** Offsets as the 64-bit code adds them up, wrapping on overflow. */
  function PtOffset64(parts: seq<PartSize>): nat {
    if |parts| == 0 then 0 else Wrap64(PtOffset64(parts[..|parts| - 1]) + parts[|parts| - 1].ptLen)
  }

  function CtOffset64(g: Geometry, parts: seq<PartSize>): nat
    requires g.chunkSize > 0
  {
    if |parts| == 0 then 0
    else Wrap64(CtOffset64(g, parts[..|parts| - 1]) + CiphertextLen64(g.alg, parts[|parts| - 1].ptLen, g.chunkSize))
  }

  function Span64(g: Geometry, parts: seq<PartSize>, k: nat): PartSpan
    requires g.chunkSize > 0 && k < |parts|
  {
    PartSpan(parts[k].number, PtOffset64(parts[..k]), parts[k].ptLen,
             CtOffset64(g, parts[..k]), CiphertextLen64(g.alg, parts[k].ptLen, g.chunkSize))
  }

  method PartLayout(g: Geometry, parts: seq<PartSize>) returns (spans: seq<PartSpan>)
    requires g.chunkSize > 0
    ensures |spans| == |parts| && forall k :: 0 <= k < |parts| ==> spans[k] == Span64(g, parts, k)
  {
    var ptOff, ctOff := 0, 0;
    spans := [];
    for i := 0 to |parts|
      invariant ptOff == PtOffset64(parts[..i]) && ctOff == CtOffset64(g, parts[..i])
      invariant |spans| == i && forall k :: 0 <= k < i ==> spans[k] == Span64(g, parts, k)
    {
      var ctLen := CiphertextLen64(g.alg, parts[i].ptLen, g.chunkSize);
      spans := spans + [PartSpan(parts[i].number, ptOff, parts[i].ptLen, ctOff, ctLen)];
      assert parts[..i + 1][..i] == parts[..i];
      ptOff := Wrap64(ptOff + parts[i].ptLen);
      ctOff := Wrap64(ctOff + ctLen);
    }
  }

  lemma {:induction false} Offsets64(g: Geometry, parts: seq<PartSize>)
    requires g.chunkSize > 0
    ensures PtOffset64(parts) == Wrap64(PtTotal(parts)) && CtOffset64(g, parts) == Wrap64(CtTotal(g, parts))
  {
    if |parts| > 0 {
      var n := |parts| - 1;
      hide CiphertextLen, CiphertextLen64, Wrap64;
      Offsets64(g, parts[..n]);
      CiphertextLenWraps(g.alg, parts[n].ptLen, g.chunkSize);
      WrapFirst(PtTotal(parts[..n]), parts[n].ptLen);
      WrapBoth(CtTotal(g, parts[..n]), CiphertextLen(g.alg, parts[n].ptLen, g.chunkSize));
    }
  }

  /** One span is computed rightly exactly when its offsets and its length fit. */
  lemma SpanExact(g: Geometry, parts: seq<PartSize>, k: nat)
    requires g.chunkSize > 0 && k < |parts|
    ensures Span64(g, parts, k) == SpanAt(g, parts, k)
            <==> CtTotal(g, parts[..k]) < TWO_64 && CiphertextLen(g.alg, parts[k].ptLen, g.chunkSize) < TWO_64
  {
    hide CiphertextLen, CiphertextLen64, Wrap64, PtTotal, CtTotal, PtOffset64, CtOffset64;
    Offsets64(g, parts[..k]);
    PtBelowCt(g, parts[..k]);
    CiphertextLenWraps(g.alg, parts[k].ptLen, g.chunkSize);
    WrapExact(PtTotal(parts[..k]));
    WrapExact(CtTotal(g, parts[..k]));
    WrapExact(CiphertextLen(g.alg, parts[k].ptLen, g.chunkSize));
  }

  /** The 64-bit layout is the true one exactly when the parts before the last, together,
      and the last part, alone, have ciphertexts below 2^64 bytes: where the last part ends
      is never computed. */
  lemma LayoutExact(g: Geometry, parts: seq<PartSize>)
    requires g.chunkSize > 0 && |parts| > 0
    ensures var n := |parts| - 1;
            (forall k :: 0 <= k < |parts| ==> Span64(g, parts, k) == SpanAt(g, parts, k))
            <==> CtTotal(g, parts[..n]) < TWO_64 && CiphertextLen(g.alg, parts[n].ptLen, g.chunkSize) < TWO_64
  {
    hide CiphertextLen, CtTotal, PtTotal, Span64, SpanAt;
    var n := |parts| - 1;
    SpanExact(g, parts, n);
    if CtTotal(g, parts[..n]) < TWO_64 && CiphertextLen(g.alg, parts[n].ptLen, g.chunkSize) < TWO_64 {
      forall k | 0 <= k < n ensures Span64(g, parts, k) == SpanAt(g, parts, k) {
        SpanExact(g, parts, k);
        assert parts[..n][..k] == parts[..k] && parts[..n][..k + 1] == parts[..k + 1];
        TotalsGrow(g, parts[..n], k);
        TotalsGrow(g, parts[..n], k + 1);
        TotalsStep(g, parts, k);
      }
    }
  }

  /** An input on which it is not: behind two parts of 2^63 bytes the third one is laid out
      at the offset of the first. */
  lemma LayoutWraps(g: Geometry)
    requires g.chunkSize > 0
    ensures var parts := [PartSize(1, TWO_63), PartSize(2, TWO_63), PartSize(3, 1)];
            Span64(g, parts, 2).ptStart == Span64(g, parts, 0).ptStart && SpanAt(g, parts, 2).ptStart == TWO_64
  {
    hide CiphertextLen64, CiphertextLen;
    var parts := [PartSize(1, TWO_63), PartSize(2, TWO_63), PartSize(3, 1)];
    var one, two := [parts[0]], [parts[0], parts[1]];
    assert parts[..2] == two && two[..1] == one && one[..0] == [] && parts[..0] == [];
    assert PtTotal([]) == 0 && PtOffset64([]) == 0;
    assert PtTotal(one) == TWO_63 && PtOffset64(one) == TWO_63;
    assert PtTotal(two) == TWO_64 && PtOffset64(two) == 0;
  }

  /** No object with a 64-bit length is affected. */
  lemma LayoutOfObject(g: Geometry, parts: seq<PartSize>)
    requires g.chunkSize > 0 && CtTotal(g, parts) < TWO_64
    ensures forall k :: 0 <= k < |parts| ==> Span64(g, parts, k) == SpanAt(g, parts, k)
  {
    hide CiphertextLen, CtTotal, PtTotal, Span64, SpanAt;
    if |parts| > 0 {
      var n := |parts| - 1;
      LayoutExact(g, parts);
      TotalsStep(g, parts, n);
      assert parts[..n + 1] == parts;
    }
  }

  // ---------------------------------------------------------------- ranges

  /** One touched part with the plan for its own ciphertext. */
  datatype Entry = Entry(span: PartSpan, plan: Plan)

  predicate Touches(span: PartSpan, start: nat, end: nat) {
    span.ptStart < end && start < span.ptStart + span.ptLen
  }

  function LocalStart(span: PartSpan, start: nat): nat {
    Min(if start < span.ptStart then 0 else start - span.ptStart, span.ptLen)
  }

  function LocalEnd(span: PartSpan, end: nat): nat
    requires span.ptStart <= end
  {
    Min(end - span.ptStart, span.ptLen)
  }

  /** A touched part always has a plan for its share of a non-empty range. */
  lemma TouchedIsPlanned(g: Geometry, span: PartSpan, start: nat, end: nat)
    requires g.chunkSize > 0 && start < end && Touches(span, start, end)
    ensures PlanRange(g, span.ptLen, LocalStart(span, start), LocalEnd(span, end)).Ok?
  {
  }

  /** The plan of a range: every touched part in order, each with its own share. */
  function EntriesFor(g: Geometry, spans: seq<PartSpan>, start: nat, end: nat): seq<Entry>
    requires g.chunkSize > 0 && start < end
  {
    if |spans| == 0 then []
    else
      var span := spans[|spans| - 1];
      var before := EntriesFor(g, spans[..|spans| - 1], start, end);
      if !Touches(span, start, end) then before
      else
        TouchedIsPlanned(g, span, start, end);
        before + [Entry(span, PlanRange(g, span.ptLen, LocalStart(span, start), LocalEnd(span, end)).value)]
  }

  /** What the spans record of the parts. */
  function SizesOf(spans: seq<PartSpan>): seq<PartSize> {
    seq(|spans|, k requires 0 <= k < |spans| => PartSize(spans[k].number, spans[k].ptLen))
  }

  lemma SizesOfStep(spans: seq<PartSpan>, i: nat)
    requires i < |spans|
    ensures PtTotal(SizesOf(spans[..i + 1])) == PtTotal(SizesOf(spans[..i])) + spans[i].ptLen
    ensures PtOffset64(SizesOf(spans[..i + 1])) == Wrap64(PtOffset64(SizesOf(spans[..i])) + spans[i].ptLen)
  {
    assert SizesOf(spans[..i + 1])[..i] == SizesOf(spans[..i]);
  }

  /** Spans on which the arithmetic of the planner stays within 64 bits. */
  ghost predicate Fit64(g: Geometry, spans: seq<PartSpan>)
    requires g.chunkSize > 0
  {
    && PtTotal(SizesOf(spans)) < TWO_64
    && forall k :: 0 <= k < |spans| ==>
         spans[k].ptStart + spans[k].ptLen < TWO_64 && CiphertextLen(g.alg, spans[k].ptLen, g.chunkSize) < TWO_64
  }

  method PlanMultipartRange(g: Geometry, spans: seq<PartSpan>, start: nat, end: nat) returns (r: Result<seq<Entry>, Error>)
    requires g.chunkSize > 0
    ensures var total := PtOffset64(SizesOf(spans));
            !(start <= end <= total && (start < total || total == 0)) ==> r == Err(InvalidLength)
    ensures Fit64(g, spans) ==>
              var total := PtTotal(SizesOf(spans));
              && (r.Ok? <==> start <= end <= total && (start < total || total == 0))
              && (r.Ok? ==> r.value == (if start == end then [] else EntriesFor(g, spans, start, end)))
  {
    hide PtTotal, PtOffset64, SizesOf, CiphertextLen, PlanRange, PlanRange64;
    var total := 0;
    NoSizes(spans);
    for i := 0 to |spans|
      invariant total == PtOffset64(SizesOf(spans[..i]))
    {
      SizesOfStep(spans, i);
      total := Wrap64(total + spans[i].ptLen);
    }
    assert spans[..|spans|] == spans;
    Offsets64(g, SizesOf(spans));
    if start > end || end > total || (start == total && total > 0) {
      return Err(InvalidLength);
    }
    if start == end {
      return Ok([]);
    }
    var out := [];
    for i := 0 to |spans|
      invariant Fit64(g, spans) ==> out == EntriesFor(g, spans[..i], start, end)
    {
      assert spans[..i + 1][..i] == spans[..i];
      var span := spans[i];
      var spanEnd := Wrap64(span.ptStart + span.ptLen);
      if end <= span.ptStart || start >= spanEnd {
        continue;
      }
      if Fit64(g, spans) {
        PlannedShare(g, span, start, end);
      }
      var plan :- PlanRange64(g, span.ptLen, LocalStart(span, start), LocalEnd(span, end));
      out := out + [Entry(span, plan)];
    }
    return Ok(out);
  }

  lemma NoSizes(spans: seq<PartSpan>)
    ensures PtOffset64(SizesOf(spans[..0])) == 0
  {
  }

  /** A touched part's plan stays below the part's ciphertext length. */
  lemma PlannedShare(g: Geometry, span: PartSpan, start: nat, end: nat)
    requires g.chunkSize > 0 && start < end && Touches(span, start, end)
    requires CiphertextLen(g.alg, span.ptLen, g.chunkSize) < TWO_64
    ensures var from, to := LocalStart(span, start), LocalEnd(span, end);
            && PlanRange(g, span.ptLen, from, to).Ok?
            && PlanRange64(g, span.ptLen, from, to) == PlanRange(g, span.ptLen, from, to)
  {
    hide PlanRange, PlanRange64, CiphertextLen;
    TouchedIsPlanned(g, span, start, end);
    PlanWithin(g, span.ptLen, LocalStart(span, start), LocalEnd(span, end));
    Plan64Exact(g, span.ptLen, LocalStart(span, start), LocalEnd(span, end));
  }

  /** The layout of an object with a 64-bit length meets the condition of the planner. */
  lemma ObjectFits(g: Geometry, sizes: seq<PartSize>)
    requires g.chunkSize > 0 && CtTotal(g, sizes) < TWO_64
    ensures Fit64(g, LayoutOf(g, sizes)) && SizesOf(LayoutOf(g, sizes)) == sizes
  {
    hide CiphertextLen, CtTotal, PtTotal;
    assert SizesOf(LayoutOf(g, sizes)) == sizes;
    PtBelowCt(g, sizes);
    forall k | 0 <= k < |sizes|
      ensures SpanAt(g, sizes, k).ptStart + sizes[k].ptLen < TWO_64 && CiphertextLen(g.alg, sizes[k].ptLen, g.chunkSize) < TWO_64
    {
      TotalsStep(g, sizes, k);
      TotalsGrow(g, sizes, k + 1);
    }
  }
}
