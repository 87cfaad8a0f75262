/** Mapping a plaintext byte range of one part onto the ciphertext that covers it,
    and what decrypting and trimming that ciphertext yields. */
module RangePlan {
  import opened Bytes
  import opened Cipher
  import opened SizeMath
  import opened FrameSpec

  datatype Plan = Plan(ctStart: nat, ctEnd: nat, firstChunk: nat, lastChunk: nat, trimStart: nat, trimEnd: nat)

  function PlanRange(g: Geometry, ptLen: nat, start: nat, end: nat): Result<Plan, Error>
    requires g.chunkSize > 0
  {
    if start > end || end > ptLen || (start == ptLen && ptLen > 0) then Err(InvalidLength)
    else
      var lastByte := if end == 0 then 0 else end - 1;
      var firstChunk := start / g.chunkSize;
      var lastChunk := if end == start then firstChunk else lastByte / g.chunkSize;
      var trimStart := start % g.chunkSize;
      var trimEnd := if end == start then trimStart else lastByte % g.chunkSize + 1;
      MulNat(firstChunk, g.FrameSize());
      MulNat(lastChunk + 1, g.FrameSize());
      var ctEnd :=
        if lastChunk + 1 == NChunks(ptLen, g.chunkSize) then CiphertextLen(g.alg, ptLen, g.chunkSize)
        else (lastChunk + 1) * g.FrameSize();
      Ok(Plan(firstChunk * g.FrameSize(), ctEnd, firstChunk, lastChunk, trimStart, trimEnd))
  }

  /** Whether the last planned frame is the one that ends a part of `ptLen` bytes. */
  predicate EndsAt(g: Geometry, ptLen: nat, plan: Plan)
    requires g.chunkSize > 0
  {
    plan.lastChunk + 1 == NChunks(ptLen, g.chunkSize)
  }

  lemma MulNat(a: nat, b: nat)
    ensures a * b >= 0
  {
  }

  /** A range within the part is planned, unless it is empty and starts at the end of a
      part that holds bytes. */
  lemma PlanAccepts(g: Geometry, ptLen: nat, start: nat, end: nat)
    requires g.chunkSize > 0
    ensures PlanRange(g, ptLen, start, end).Ok? <==> start <= end <= ptLen && (start < ptLen || ptLen == 0)
  {
  }

  /** Where a byte of a part lies: its chunk and its place in the chunk. */
  lemma ByteInChunk(size: nat, len: nat, x: nat)
    requires size > 0 && x < len
    ensures x / size <= Ready(size, len) && Off(size, x / size) + x % size == x
  {
    DivFacts(x, size);
    OffIsProduct(size, x / size);
    ReadyReaches(size, len, x / size);
  }

  lemma {:induction false} ReadyReaches(size: nat, len: nat, q: nat)
    requires size > 0 && Off(size, q) < len
    ensures q <= Ready(size, len)
  {
    if q > 0 {
      ReadyReaches(size, len - size, q - 1);
    }
  }

  /** What a plan means, in chunks: which run of frames it fetches and how the trims
      cut the first and the last of their chunks. */
  ghost predicate Describes(g: Geometry, ptLen: nat, start: nat, end: nat, plan: Plan)
    requires g.chunkSize > 0
  {
    && plan.firstChunk <= plan.lastChunk <= Ready(g.chunkSize, ptLen)
    && plan.ctStart == Off(g.FrameSize(), plan.firstChunk)
    && (plan.lastChunk < Ready(g.chunkSize, ptLen) ==> plan.ctEnd == Off(g.FrameSize(), plan.lastChunk + 1))
    && (plan.lastChunk == Ready(g.chunkSize, ptLen) ==> plan.ctEnd == CiphertextLen(g.alg, ptLen, g.chunkSize))
    && Off(g.chunkSize, plan.firstChunk) + plan.trimStart == start
    && Off(g.chunkSize, plan.lastChunk) + plan.trimEnd == end
    && plan.trimEnd <= g.chunkSize
  }

  lemma PlanDescribes(g: Geometry, ptLen: nat, start: nat, end: nat)
    requires g.chunkSize > 0 && PlanRange(g, ptLen, start, end).Ok?
    ensures Describes(g, ptLen, start, end, PlanRange(g, ptLen, start, end).value)
  {
    var plan := PlanRange(g, ptLen, start, end).value;
    NChunksIsReady(ptLen, g.chunkSize);
    OffIsProduct(g.FrameSize(), plan.firstChunk);
    OffIsProduct(g.FrameSize(), plan.lastChunk + 1);
    if ptLen == 0 {
      DivUnique(0, g.chunkSize, 0, 0);
    } else {
      ByteInChunk(g.chunkSize, ptLen, start);
      if start < end {
        ByteInChunk(g.chunkSize, ptLen, end - 1);
        DivMono(start, end - 1, g.chunkSize);
      }
    }
  }

  lemma DivMono(a: nat, b: nat, d: nat)
    requires d > 0 && a <= b
    ensures a / d <= b / d
  {
    DivFacts(a, d);
    DivFacts(b, d);
    MulStep(b / d, d);
    if b / d < a / d {
      MulMono(b / d + 1, a / d, d);
    }
  }

  // ---------------------------------------------------------------- 64-bit plans

  /** The plan as the 64-bit code computes it. */
  function PlanRange64(g: Geometry, ptLen: nat, start: nat, end: nat): Result<Plan, Error>
    requires g.chunkSize > 0
  {
    match PlanRange(g, ptLen, start, end)
    case Err(e) => Err(e)
    case Ok(plan) =>
      MulNat(plan.firstChunk, g.FrameSize());
      MulNat(plan.lastChunk + 1, g.FrameSize());
      var ctEnd :=
        if plan.lastChunk + 1 == NChunks(ptLen, g.chunkSize) then CiphertextLen64(g.alg, ptLen, g.chunkSize)
        else Wrap64((plan.lastChunk + 1) * g.FrameSize());
      Ok(plan.(ctStart := Wrap64(plan.firstChunk * g.FrameSize()), ctEnd := ctEnd))
  }

  /** It is right exactly when the planned stretch ends below 2^64. */
  lemma Plan64Exact(g: Geometry, ptLen: nat, start: nat, end: nat)
    requires g.chunkSize > 0 && PlanRange(g, ptLen, start, end).Ok?
    ensures PlanRange64(g, ptLen, start, end) == PlanRange(g, ptLen, start, end)
            <==> PlanRange(g, ptLen, start, end).value.ctEnd < TWO_64
  {
    hide Wrap64, CiphertextLen64, CiphertextLen;
    var plan := PlanRange(g, ptLen, start, end).value;
    PlanNonEmpty(g, ptLen, start, end);
    CiphertextLenWraps(g.alg, ptLen, g.chunkSize);
    WrapExact(plan.ctStart);
    WrapExact(plan.ctEnd);
  }

  lemma PlanNonEmpty(g: Geometry, ptLen: nat, start: nat, end: nat)
    requires g.chunkSize > 0 && PlanRange(g, ptLen, start, end).Ok?
    ensures var plan := PlanRange(g, ptLen, start, end).value; plan.ctStart < plan.ctEnd
  {
    PlanDescribes(g, ptLen, start, end);
    var plan := PlanRange(g, ptLen, start, end).value;
    OffAdd(g.FrameSize(), plan.firstChunk, plan.lastChunk - plan.firstChunk);
    OffAdd(g.FrameSize(), plan.lastChunk, 1);
    if plan.lastChunk == Ready(g.chunkSize, ptLen) {
      FullLength(g, ptLen);
    }
  }

  /** The ciphertext of a part is longer than its full frames. */
  lemma FullLength(g: Geometry, ptLen: nat)
    requires g.chunkSize > 0
    ensures Off(g.FrameSize(), Ready(g.chunkSize, ptLen)) < CiphertextLen(g.alg, ptLen, g.chunkSize)
  {
    var k := Ready(g.chunkSize, ptLen);
    NChunksIsReady(ptLen, g.chunkSize);
    OffIsProduct(g.alg.Overhead(), k + 1);
    OffSum(g.chunkSize, g.alg.Overhead(), k);
    OffReady(g.chunkSize, ptLen, k);
  }

  lemma PlanWithin(g: Geometry, ptLen: nat, start: nat, end: nat)
    requires g.chunkSize > 0 && PlanRange(g, ptLen, start, end).Ok?
    ensures PlanRange(g, ptLen, start, end).value.ctEnd <= CiphertextLen(g.alg, ptLen, g.chunkSize)
  {
    hide CiphertextLen, PlanRange, Off;
    PlanDescribes(g, ptLen, start, end);
    var k, plan := Ready(g.chunkSize, ptLen), PlanRange(g, ptLen, start, end).value;
    FullLength(g, ptLen);
    if plan.lastChunk < k {
      OffAdd(g.FrameSize(), plan.lastChunk + 1, k - (plan.lastChunk + 1));
    }
  }

  // ---------------------------------------------------------------- trimming

  function Drop(b: Bytes, n: nat): Bytes { b[Min(n, |b|)..] }

  function Take(b: Bytes, n: nat): Bytes { b[..Min(n, |b|)] }

  /** The opened chunks of a range: the front loses `trimStart` bytes, the last chunk is
      cut at `trimEnd`. */
  function Trimmed(front: Bytes, last: Bytes, trimStart: nat, trimEnd: nat): Bytes {
    Drop(front + Take(last, trimEnd), trimStart)
  }

  /** What reading the ciphertext `ct` of a plan yields; `ends` says whether its last
      frame is the final one of the part. */
  function RangeText(g: Geometry, open: Opener, plan: Plan, ends: bool, ct: Bytes): Option<Bytes>
    requires g.chunkSize > 0
  {
    match Opened(g, open, plan.firstChunk, ct)
    case None => None
    case Some(front) =>
      match open(plan.firstChunk + Ready(g.FrameSize(), |ct|), ends, Tail(g.FrameSize(), ct))
      case Ok(last) => Some(Trimmed(front, last, plan.trimStart, plan.trimEnd))
      case Err(_) => None
  }

  /** The planned slice of the ciphertext is a run of whole frames. */
  lemma PlanSlice(g: Geometry, seal: Sealer, open: Opener, pt: Bytes, start: nat, end: nat, plan: Plan)
    requires g.chunkSize > 0 && Paired(g.alg, seal, open) && Describes(g, |pt|, start, end, plan)
    ensures Off(g.chunkSize, plan.firstChunk) <= |pt|
    ensures plan.ctStart < plan.ctEnd <= |EncryptAll(g, seal, pt)|
    ensures EncryptAll(g, seal, pt)[plan.ctStart..plan.ctEnd]
            == Head(g, seal, plan.firstChunk, pt[Off(g.chunkSize, plan.firstChunk)..], plan.lastChunk - plan.firstChunk + 1)
  {
    hide Head, Paired, Frames, Ready, CiphertextLen;
    var a, m := plan.firstChunk, plan.lastChunk - plan.firstChunk + 1;
    DropFrames(g, seal, open, 0, pt, a);
    var rest := pt[Off(g.chunkSize, a)..];
    TakeFrames(g, seal, open, a, rest, m);
    HeadOfAll(g, seal, a, rest);
    HeadNonEmpty(g, seal, open, a, rest, m);
    EncryptAllLength(g, seal, open, pt);
    OffAdd(g.FrameSize(), a, m);
    var ct := EncryptAll(g, seal, pt);
    assert ct[plan.ctStart..] == Frames(g, seal, a, rest);
    assert a + m == plan.lastChunk + 1;
    assert |Head(g, seal, a, rest, m)| == plan.ctEnd - plan.ctStart;
    assert ct[plan.ctStart..plan.ctEnd] == ct[plan.ctStart..][..plan.ctEnd - plan.ctStart];
  }

  lemma {:induction false} OffAdd(size: nat, i: nat, j: nat)
    ensures Off(size, i + j) == Off(size, i) + Off(size, j)
  {
    if i > 0 {
      OffAdd(size, i - 1, j);
    }
  }

  lemma TrimToRange(rest: Bytes, done: nat, size: nat, trimStart: nat, trimEnd: nat)
    requires done <= |rest| && trimEnd <= size && trimStart <= done + trimEnd <= |rest|
    ensures Trimmed(rest[..done], rest[done..Min(done + size, |rest|)], trimStart, trimEnd)
            == rest[trimStart..done + trimEnd]
  {
    var last := rest[done..Min(done + size, |rest|)];
    assert rest[..done] + last[..trimEnd] == rest[..done + trimEnd];
  }

  /** Reading a run of `m` frames and trimming it yields the bytes between the trims. */
  lemma RunYields(g: Geometry, seal: Sealer, open: Opener, rest: Bytes, m: nat, plan: Plan)
    requires g.chunkSize > 0 && Paired(g.alg, seal, open)
    requires 0 < m <= Ready(g.chunkSize, |rest|) + 1 && plan.trimEnd <= g.chunkSize
    requires plan.trimStart <= Off(g.chunkSize, m - 1) + plan.trimEnd <= |rest|
    ensures RangeText(g, open, plan, m == Ready(g.chunkSize, |rest|) + 1, Head(g, seal, plan.firstChunk, rest, m))
            == Some(rest[plan.trimStart..Off(g.chunkSize, m - 1) + plan.trimEnd])
  {
    var a := plan.firstChunk;
    OpensHead(g, seal, open, a, rest, m);
    HeadCount(g, seal, open, a, rest, m);
    HeadTail(g, seal, open, a, rest, m);
    TrimToRange(rest, Off(g.chunkSize, m - 1), g.chunkSize, plan.trimStart, plan.trimEnd);
    assert a + m - 1 == a + Ready(g.FrameSize(), |Head(g, seal, a, rest, m)|);
  }

  /** The same plan, seen from the first chunk it fetches. */
  lemma FromFirstChunk(g: Geometry, ptLen: nat, start: nat, end: nat, plan: Plan)
    requires g.chunkSize > 0 && start <= end <= ptLen && Describes(g, ptLen, start, end, plan)
    ensures var skip := Off(g.chunkSize, plan.firstChunk);
            var m := plan.lastChunk - plan.firstChunk + 1;
            var stop := Off(g.chunkSize, m - 1) + plan.trimEnd;
            && skip <= ptLen && 0 < m <= Ready(g.chunkSize, ptLen - skip) + 1
            && (m == Ready(g.chunkSize, ptLen - skip) + 1 <==> plan.lastChunk == Ready(g.chunkSize, ptLen))
            && plan.trimStart <= stop <= ptLen - skip && start == skip + plan.trimStart && end == skip + stop
  {
    OffAdd(g.chunkSize, plan.firstChunk, plan.lastChunk - plan.firstChunk);
    ReadyAfter(g.chunkSize, ptLen, plan.firstChunk);
  }

  lemma {:induction false} ReadyAfter(size: nat, len: nat, a: nat)
    requires size > 0 && a <= Ready(size, len)
    ensures Off(size, a) <= len && Ready(size, len - Off(size, a)) == Ready(size, len) - a
  {
    if a > 0 {
      ReadyAfter(size, len - size, a - 1);
    }
  }

  lemma DescribedYields(g: Geometry, seal: Sealer, open: Opener, pt: Bytes, start: nat, end: nat, plan: Plan)
    requires g.chunkSize > 0 && Paired(g.alg, seal, open)
    requires start <= end <= |pt| && Describes(g, |pt|, start, end, plan)
    ensures plan.ctStart < plan.ctEnd <= |EncryptAll(g, seal, pt)|
    ensures RangeText(g, open, plan, plan.lastChunk == Ready(g.chunkSize, |pt|),
                      EncryptAll(g, seal, pt)[plan.ctStart..plan.ctEnd]) == Some(pt[start..end])
  {
    hide Head, Paired, EncryptAll, Ready, RangeText;
    PlanSlice(g, seal, open, pt, start, end, plan);
    FromFirstChunk(g, |pt|, start, end, plan);
    var m := plan.lastChunk - plan.firstChunk + 1;
    var skip := Off(g.chunkSize, plan.firstChunk);
    RunYields(g, seal, open, pt[skip..], m, plan);
    SliceDropped(pt, skip, plan.trimStart, Off(g.chunkSize, m - 1) + plan.trimEnd);
  }

  /** Reading the planned slice of the ciphertext yields exactly `pt[start..end]`. */
  lemma PlanYieldsRange(g: Geometry, seal: Sealer, open: Opener, pt: Bytes, start: nat, end: nat)
    requires g.chunkSize > 0 && Paired(g.alg, seal, open) && PlanRange(g, |pt|, start, end).Ok?
    ensures start <= end <= |pt|
    ensures var plan := PlanRange(g, |pt|, start, end).value;
            && plan.ctStart < plan.ctEnd <= |EncryptAll(g, seal, pt)|
            && RangeText(g, open, plan, plan.lastChunk + 1 == NChunks(|pt|, g.chunkSize),
                         EncryptAll(g, seal, pt)[plan.ctStart..plan.ctEnd]) == Some(pt[start..end])
  {
    PlanDescribes(g, |pt|, start, end);
    NChunksIsReady(|pt|, g.chunkSize);
    DescribedYields(g, seal, open, pt, start, end, PlanRange(g, |pt|, start, end).value);
  }
}
