/** What untrusted reads assume of their bytes holds of every object that was really
    uploaded, under every lawful cipher. */
module HonestReads {
  import opened Bytes
  import opened Cipher
  import opened FrameSpec
  import opened FrameTheorems
  import opened SealedStreams
  import opened SizeMath
  import opened RangePlan
  import opened Layout
  import opened Segments
  import opened MultipartObject
  import opened MultipartCursor
  import opened FooterCodec
  import opened SealedFooter
  import opened UntrustedReads

  /** Parts and footer as they are uploaded: each sealed under the key for its number. */
  ghost predicate SealedWith(aead: Aead, g: Geometry, key: Bytes, number: nat, seal: Sealer) {
    exists nonces: Nonces :: ValidNonces(g.alg, nonces) && seal == SealerOf(aead, g.alg, key, number, nonces)
  }

  ghost predicate Uploaded(aead: Aead, g: Geometry, key: Bytes, parts: seq<Part>) {
    forall k :: 0 <= k < |parts| ==> SealedWith(aead, g, key, parts[k].number, parts[k].seal)
  }

  lemma PartIsGenuine(aead: Aead, g: Geometry, key: Bytes, seals: Seals, part: Part)
    requires g.chunkSize > 0 && Lawful(aead) && SealedWith(aead, g, key, part.number, part.seal)
    requires SealsOf(g, part.number, part.pt) <= seals
    ensures RunGenuine(aead, g, key, seals, part.number, 0, true, PartCt(g, part))
  {
    hide SealsOf, OpenFrame, FrameAad, FramesGenuine, Lawful;
    var nonces: Nonces :| ValidNonces(g.alg, nonces) && part.seal == SealerOf(aead, g.alg, key, part.number, nonces);
    HonestIsGenuine(aead, g, key, part.number, nonces, part.pt);
    MoreSeals(aead, g, key, SealsOf(g, part.number, part.pt), seals, part.number, 0, PartCt(g, part));
  }

  lemma UploadedIsReadable(aead: Aead, g: Geometry, key: Bytes, parts: seq<Part>)
    requires g.chunkSize > 0 && Lawful(aead) && Uploaded(aead, g, key, parts)
    ensures Readable(g, ReaderOf(aead, g.alg, key), parts)
  {
    hide Paired, SealerOf, OpenerOf, Lawful;
    forall k | 0 <= k < |parts| ensures Paired(g.alg, parts[k].seal, ReaderOf(aead, g.alg, key)(parts[k].number)) {
      assert SealedWith(aead, g, key, parts[k].number, parts[k].seal);
      var nonces: Nonces :| ValidNonces(g.alg, nonces) && parts[k].seal == SealerOf(aead, g.alg, key, parts[k].number, nonces);
      PairedStreams(aead, g.alg, key, parts[k].number, nonces);
    }
  }

  /** Part `k` of an object lies where its segment looks for it. */
  lemma OwnPart(g: Geometry, opens: Openers, parts: seq<Part>, k: nat, b: Bytes)
    requires Readable(g, opens, parts) && k < |parts| && ObjectCt(g, parts) <= b
    ensures var segs := PartSegments(g, opens, LayoutOf(g, Sizes(parts)));
            |segs[k..]| > 0 && OwnBytes(segs, k, b) == PartCt(g, parts[k]) && segs[k].len == |PartCt(g, parts[k])|
  {
    hide Paired, PartCt, TotalLen, TextOf, OwnBytes;
    var segs := PartSegments(g, opens, LayoutOf(g, Sizes(parts)));
    var before, upTo := parts[..k], parts[..k + 1];
    assert upTo[..k] == before;
    SegmentsOfFront(g, opens, parts, k);
    WholeObject(g, opens, before);
    LastSpan(g, opens, upTo);
    SpansOfFront(g, parts, k + 1);
    ObjectFront(g, parts, k + 1);
    assert ObjectCt(g, upTo) == ObjectCt(g, before) + PartCt(g, parts[k]);
    OwnSlice(segs, k, b, ObjectCt(g, before), PartCt(g, parts[k]));
  }

  lemma OwnSlice(segs: seq<Segment>, k: nat, b: Bytes, x: Bytes, y: Bytes)
    requires k < |segs| && TotalLen(segs[..k]) == |x| && segs[k].len == |y| && x + y <= b
    ensures OwnBytes(segs, k, b) == y
  {
    hide TotalLen;
    assert b[..|x + y|] == x + y;
  }

  lemma SpansOfFront(g: Geometry, parts: seq<Part>, k: nat)
    requires g.chunkSize > 0 && k <= |parts|
    ensures LayoutOf(g, Sizes(parts))[..k] == LayoutOf(g, Sizes(parts[..k]))
  {
    hide CtTotal, PtTotal, CiphertextLen;
    forall j | 0 <= j < k ensures LayoutOf(g, Sizes(parts))[j] == LayoutOf(g, Sizes(parts[..k]))[j] {
      assert Sizes(parts)[..j] == Sizes(parts[..k])[..j];
    }
  }

  lemma SegmentsOfFront(g: Geometry, opens: Openers, parts: seq<Part>, k: nat)
    requires g.chunkSize > 0 && k <= |parts|
    ensures PartSegments(g, opens, LayoutOf(g, Sizes(parts)))[..k] == PartSegments(g, opens, LayoutOf(g, Sizes(parts[..k])))
  {
    SpansOfFront(g, parts, k);
    var spans := LayoutOf(g, Sizes(parts));
    assert PartSegments(g, opens, spans)[..k] == PartSegments(g, opens, spans[..k]);
  }

  lemma {:induction false} ObjectFront(g: Geometry, parts: seq<Part>, k: nat)
    requires g.chunkSize > 0 && k <= |parts|
    ensures ObjectCt(g, parts[..k]) <= ObjectCt(g, parts)
    decreases |parts| - k
  {
    hide PartCt;
    if k == |parts| {
      assert parts[..k] == parts;
    } else {
      ObjectFront(g, parts, k + 1);
      assert parts[..k + 1][..k] == parts[..k];
    }
  }

  /** The assumptions are met by every lawful cipher and every object it sealed: served as
      it was stored, no frame of parts or footer is a forgery, whatever else was sealed. */
  lemma HonestObject(aead: Aead, g: Geometry, key: Bytes, seals: Seals, parts: seq<Part>, fseal: Sealer, f: Footer)
    requires g.chunkSize > 0 && Lawful(aead) && Uploaded(aead, g, key, parts)
    requires SealedWith(aead, g, key, FOOTER_PART_NUMBER, fseal)
    requires WellFormed(f) && f.alg == g.alg && f.parts == Sizes(parts) && ClientNumbers(Sizes(parts))
    requires SealsOfObject(g, parts, f) <= seals
    ensures var stored := ObjectCt(g, parts) + SealFooter(fseal, f);
            && FooterGenuine(aead, g.alg, key, seals, Served(stored)) && PartsGenuine(aead, g, key, seals, Sizes(parts), stored)
  {
    hide SealsOf, FramesGenuine, Lawful, WellFormed, ObjectCt, SealFooter, SealedWith, RunGenuine, OwnBytes, PartCt, FooterGenuine, Served;
    var stored := ObjectCt(g, parts) + SealFooter(fseal, f);
    var opens, spans := ReaderOf(aead, g.alg, key), LayoutOf(g, Sizes(parts));
    var segs := PartSegments(g, opens, spans);
    UploadedIsReadable(aead, g, key, parts);
    forall k | 0 <= k < |parts|
      ensures StretchGenuine(aead, g, key, seals, Sizes(parts)[k].number, 0, true, segs[k].len, OwnBytes(segs, k, stored))
    {
      OwnPart(g, opens, parts, k, stored);
      assert SealedWith(aead, g, key, parts[k].number, parts[k].seal);
      PartOfObject(g, parts, f, k);
      PartIsGenuine(aead, g, key, seals, parts[k]);
      RunFrames(aead, g, key, seals, parts[k].number, 0, true, PartCt(g, parts[k]));
    }
    FooterIsGenuine(aead, g, key, seals, ObjectCt(g, parts), fseal, f);
  }

  lemma PartOfObject(g: Geometry, parts: seq<Part>, f: Footer, k: nat)
    requires g.chunkSize > 0 && k < |parts|
    ensures SealsOf(g, parts[k].number, parts[k].pt) <= SealsOfObject(g, parts, f)
  {
  }

  /** The answers of a backend that serves an object with its footer. */
  lemma ServedFooter(alg: Alg, fseal: Sealer, open: Opener, before: Bytes, f: Footer)
    requires Paired(alg, fseal, open) && WellFormed(f) && f.alg == alg && ClientNumbers(f.parts)
    ensures Served(before + SealFooter(fseal, f)).frame == Some(fseal(0, true, Record(f)))
  {
    hide Record, Trailer, ParseTrailer;
    var frame := fseal(0, true, Record(f));
    CompletedFooterFits(fseal, open, f);
    var stored := before + SealFooter(fseal, f);
    var end := |stored| - TRAILER_LEN;
    assert stored == before + frame + Trailer(|frame|);
    assert stored[end..] == Trailer(|frame|) && stored[end - |frame|..end] == frame;
    ParseTrailerExact(stored[end..], |frame|);
  }

  lemma FooterIsGenuine(aead: Aead, g: Geometry, key: Bytes, seals: Seals, before: Bytes, fseal: Sealer, f: Footer)
    requires Lawful(aead) && SealedWith(aead, g, key, FOOTER_PART_NUMBER, fseal) && f.alg == g.alg
    requires WellFormed(f) && ClientNumbers(f.parts) && (FrameAad(g.alg, FOOTER_PART_NUMBER, 0, true), Record(f)) in seals
    ensures FooterGenuine(aead, g.alg, key, seals, Served(before + SealFooter(fseal, f)))
  {
    hide Lawful, Record, WellFormed, FrameAad, OpenFrame, SealerOf, Served, SealFooter;
    var nonces: Nonces :| ValidNonces(g.alg, nonces) && fseal == SealerOf(aead, g.alg, key, FOOTER_PART_NUMBER, nonces);
    PairedStreams(aead, g.alg, key, FOOTER_PART_NUMBER, nonces);
    var open := OpenerOf(aead, g.alg, key, FOOTER_PART_NUMBER);
    ServedFooter(g.alg, fseal, open, before, f);
    assert open(0, true, fseal(0, true, Record(f))) == Ok(Record(f));
  }

  // ---------------------------------------------------------------- what can be served

  /** Some answers without a forgery load `f` and read as `t`. */
  ghost predicate CanServe(aead: Aead, g: Geometry, key: Bytes, seals: Seals, f: Footer, t: Bytes)
    requires g.chunkSize > 0
  {
    exists a, b :: ServesAs(aead, g, key, seals, f, t, a, b)
  }

  ghost predicate ServesAs(aead: Aead, g: Geometry, key: Bytes, seals: Seals, f: Footer, t: Bytes, a: Answers, b: Bytes)
    requires g.chunkSize > 0
  {
    && FooterGenuine(aead, g.alg, key, seals, a) && Loads(g.alg, ReaderOf(aead, g.alg, key)(FOOTER_PART_NUMBER), a, f)
    && PartsGenuine(aead, g, key, seals, f.parts, b) && PartsText(g, ReaderOf(aead, g.alg, key), f.parts, b) == Some(t)
  }

  /** Exactly the deliverable texts can be served: a sealed footer decides the sizes, and
      every part may be any text of its size that was sealed under its number. */
  lemma ServedIsSealed(aead: Aead, g: Geometry, key: Bytes, seals: Seals, f: Footer, t: Bytes)
    requires g.chunkSize > 0 && Lawful(aead) && ClientNumbers(f.parts)
    ensures CanServe(aead, g, key, seals, f, t) <==> exists texts: seq<Bytes> :: Deliverable(g, seals, f, texts) && t == Concat(texts)
  {
    hide Lawful, FooterGenuine, Loads, PartsGenuine, PartsText, ReaderOf, FooterSealed, SealedParts;
    if CanServe(aead, g, key, seals, f, t) {
      var a, b :| ServesAs(aead, g, key, seals, f, t, a, b);
      LoadedIsSealed(aead, g, key, seals, a, f);
      var texts := WholeRead(aead, g, key, seals, f.parts, b);
      assert Deliverable(g, seals, f, texts);
    }
    if exists texts: seq<Bytes> :: Deliverable(g, seals, f, texts) && t == Concat(texts) {
      var texts: seq<Bytes> :| Deliverable(g, seals, f, texts) && t == Concat(texts);
      SealedIsServed(aead, g, key, seals, f, texts);
    }
  }

  /** The parts of one upload of the given texts. */
  function PartsWith(aead: Aead, g: Geometry, key: Bytes, sizes: seq<PartSize>, texts: seq<Bytes>): seq<Part>
    requires |texts| == |sizes|
  {
    seq(|texts|, k requires 0 <= k < |texts| =>
      Part(sizes[k].number, SealerOf(aead, g.alg, key, sizes[k].number, ZeroNonces(g.alg)), texts[k]))
  }

  lemma SealedIsServed(aead: Aead, g: Geometry, key: Bytes, seals: Seals, f: Footer, texts: seq<Bytes>)
    requires g.chunkSize > 0 && Lawful(aead) && ClientNumbers(f.parts) && Deliverable(g, seals, f, texts)
    ensures CanServe(aead, g, key, seals, f, Concat(texts))
  {
    hide Lawful, FooterGenuine, Loads, PartsGenuine, PartsText, WellFormed, ClientNumbers, SealFooter, ObjectCt, Served, Paired, SealedWith,
         SealsOfObject, EndsWithFooter;
    var opens := ReaderOf(aead, g.alg, key);
    var parts := PartsWith(aead, g, key, f.parts, texts);
    var fseal := SealerOf(aead, g.alg, key, FOOTER_PART_NUMBER, ZeroNonces(g.alg));
    UploadWith(aead, g, key, seals, f, texts);
    HonestObject(aead, g, key, seals, parts, fseal, f);
    UploadedIsReadable(aead, g, key, parts);
    PairedStreams(aead, g.alg, key, FOOTER_PART_NUMBER, ZeroNonces(g.alg));
    var stored := ObjectCt(g, parts) + SealFooter(fseal, f);
    assert opens(FOOTER_PART_NUMBER) == OpenerOf(aead, g.alg, key, FOOTER_PART_NUMBER);
    SealedLoads(g.alg, fseal, opens(FOOTER_PART_NUMBER), ObjectCt(g, parts), f);
    ServedLoads(g.alg, opens(FOOTER_PART_NUMBER), stored, f);
    StoredReads(g, opens, parts, SealFooter(fseal, f));
    TextsAre(parts);
    assert Texts(parts) == texts;
    assert ServesAs(aead, g, key, seals, f, Concat(texts), Served(stored), stored);
  }

  lemma UploadWith(aead: Aead, g: Geometry, key: Bytes, seals: Seals, f: Footer, texts: seq<Bytes>)
    requires g.chunkSize > 0 && Deliverable(g, seals, f, texts)
    ensures var parts := PartsWith(aead, g, key, f.parts, texts);
            && Uploaded(aead, g, key, parts) && Sizes(parts) == f.parts && SealsOfObject(g, parts, f) <= seals
            && SealedWith(aead, g, key, FOOTER_PART_NUMBER, SealerOf(aead, g.alg, key, FOOTER_PART_NUMBER, ZeroNonces(g.alg)))
  {
    hide WellFormed, Record, FrameAad, SealsOf, SealedText, SealerOf;
    var parts := PartsWith(aead, g, key, f.parts, texts);
    assert ValidNonces(g.alg, ZeroNonces(g.alg));
    forall k | 0 <= k < |parts| ensures SealsOf(g, parts[k].number, parts[k].pt) <= seals {
      assert SealedPart(g, seals, f.parts[k], texts[k]);
      SealedTextSeals(g, seals, parts[k].number, parts[k].pt);
    }
    assert Sizes(parts) == f.parts;
  }

  /** No other text of a listed size was ever sealed under one of the part numbers. */
  ghost predicate SoleTexts(g: Geometry, seals: Seals, sizes: seq<PartSize>, texts: seq<Bytes>)
    requires g.chunkSize > 0 && |texts| == |sizes|
  {
    forall k, t :: 0 <= k < |sizes| && SealedPart(g, seals, sizes[k], t) ==> t == texts[k]
  }

  /** So the uploaded plaintext is all that can be served under its footer exactly when its
      texts are the only ones of their sizes and numbers. */
  lemma OnlyUploadIsServed(aead: Aead, g: Geometry, key: Bytes, seals: Seals, f: Footer, texts: seq<Bytes>)
    requires g.chunkSize > 0 && Lawful(aead) && ClientNumbers(f.parts) && Deliverable(g, seals, f, texts)
    ensures (forall t :: CanServe(aead, g, key, seals, f, t) ==> t == Concat(texts)) <==> SoleTexts(g, seals, f.parts, texts)
  {
    hide Lawful, CanServe, FooterSealed, SealedPart, ClientNumbers, Concat;
    if SoleTexts(g, seals, f.parts, texts) {
      forall t | CanServe(aead, g, key, seals, f, t) ensures t == Concat(texts) {
        ServedIsSealed(aead, g, key, seals, f, t);
        var texts': seq<Bytes> :| Deliverable(g, seals, f, texts') && t == Concat(texts');
        assert forall k :: 0 <= k < |texts| ==> texts'[k] == texts[k];
        assert texts' == texts;
      }
    }
    if forall t :: CanServe(aead, g, key, seals, f, t) ==> t == Concat(texts) {
      forall k, t | 0 <= k < |texts| && SealedPart(g, seals, f.parts[k], t) ensures t == texts[k] {
        OtherText(aead, g, key, seals, f, texts, k, t);
      }
    }
  }

  /** A second sealed text of a part can take its place. */
  lemma OtherText(aead: Aead, g: Geometry, key: Bytes, seals: Seals, f: Footer, texts: seq<Bytes>, k: nat, t: Bytes)
    requires g.chunkSize > 0 && Lawful(aead) && ClientNumbers(f.parts) && Deliverable(g, seals, f, texts)
    requires k < |texts| && SealedPart(g, seals, f.parts[k], t)
    ensures CanServe(aead, g, key, seals, f, Concat(texts[k := t]))
    ensures Concat(texts[k := t]) == Concat(texts) ==> t == texts[k]
  {
    hide Lawful, CanServe, FooterSealed, ClientNumbers, SealedText;
    assert SealedPart(g, seals, f.parts[k], texts[k]);
    SealedIsServed(aead, g, key, seals, f, texts[k := t]);
    if Concat(texts[k := t]) == Concat(texts) {
      SameTexts(texts[k := t], texts);
    }
  }

  /** Texts of the same lengths are told apart by their concatenation. */
  lemma {:induction false} SameTexts(a: seq<Bytes>, b: seq<Bytes>)
    requires |a| == |b| && (forall k :: 0 <= k < |a| ==> |a[k]| == |b[k]|) && Concat(a) == Concat(b)
    ensures a == b
  {
    if |a| > 0 {
      var n := |a| - 1;
      var x, y := Concat(a[..n]), Concat(b[..n]);
      SameLength(a[..n], b[..n]);
      assert (x + a[n])[..|x|] == x && (y + b[n])[..|x|] == y && (x + a[n])[|x|..] == a[n] && (y + b[n])[|x|..] == b[n];
      SameTexts(a[..n], b[..n]);
      assert a == a[..n] + [a[n]] && b == b[..n] + [b[n]];
    }
  }

  lemma {:induction false} SameLength(a: seq<Bytes>, b: seq<Bytes>)
    requires |a| == |b| && forall k :: 0 <= k < |a| ==> |a[k]| == |b[k]|
    ensures |Concat(a)| == |Concat(b)|
  {
    if |a| > 0 {
      SameLength(a[..|a| - 1], b[..|a| - 1]);
    }
  }

  /** A case that is not ruled out: when parts were uploaded again with other contents of
      the same sizes, under the one key of the upload, any mixture of the two uploads can
      be served without a forgery, and the read ends without an error. */
  lemma ReuploadsMix(aead: Aead, g: Geometry, key: Bytes, first: seq<Part>, second: seq<Part>, f: Footer, mixed: seq<Bytes>)
    requires g.chunkSize > 0 && Lawful(aead) && WellFormed(f) && f.alg == g.alg && ClientNumbers(f.parts)
    requires f.parts == Sizes(first) && f.parts == Sizes(second) && |mixed| == |f.parts|
    requires forall k :: 0 <= k < |mixed| ==> mixed[k] == first[k].pt || mixed[k] == second[k].pt
    ensures CanServe(aead, g, key, SealsOfObject(g, first, f) + SealsOfObject(g, second, f), f, Concat(mixed))
  {
    hide Lawful, CanServe, WellFormed, ClientNumbers, SealsOf, Record, FrameAad, SealedText;
    var seals := SealsOfObject(g, first, f) + SealsOfObject(g, second, f);
    forall k | 0 <= k < |mixed| ensures SealedPart(g, seals, f.parts[k], mixed[k]) {
      assert Sizes(first)[k] == f.parts[k] == Sizes(second)[k];
      PartOfObject(g, first, f, k);
      PartOfObject(g, second, f, k);
      SealedTextSeals(g, seals, f.parts[k].number, mixed[k]);
    }
    assert Deliverable(g, seals, f, mixed);
    SealedIsServed(aead, g, key, seals, f, mixed);
  }

  // ---------------------------------------------------------------- ranges

  /** So is every planned slice of a part. */
  lemma SliceIsGenuine(aead: Aead, g: Geometry, key: Bytes, seals: Seals, part: Part, start: nat, end: nat, plan: Plan)
    requires g.chunkSize > 0 && Lawful(aead) && SealedWith(aead, g, key, part.number, part.seal)
    requires SealsOf(g, part.number, part.pt) <= seals && start <= end <= |part.pt|
    requires Describes(g, |part.pt|, start, end, plan)
    ensures plan.ctStart < plan.ctEnd <= |PartCt(g, part)|
    ensures RunGenuine(aead, g, key, seals, part.number, plan.firstChunk, plan.lastChunk == Ready(g.chunkSize, |part.pt|),
                       PartCt(g, part)[plan.ctStart..plan.ctEnd])
  {
    hide SealsOf, OpenFrame, FrameAad, FramesGenuine, Lawful, Head, Paired, Ready, Off;
    var nonces: Nonces :| ValidNonces(g.alg, nonces) && part.seal == SealerOf(aead, g.alg, key, part.number, nonces);
    PairedStreams(aead, g.alg, key, part.number, nonces);
    hide SealerOf, OpenerOf;
    var pt, first, m := part.pt, plan.firstChunk, plan.lastChunk - plan.firstChunk + 1;
    PlanSlice(g, part.seal, OpenerOf(aead, g.alg, key, part.number), pt, start, end, plan);
    ReadyAfter(g.chunkSize, |pt|, first);
    FromFirstChunk(g, |pt|, start, end, plan);
    var slice := PartCt(g, part)[plan.ctStart..plan.ctEnd];
    HeadGenuine(aead, g, key, part.number, nonces, pt, first, pt[Off(g.chunkSize, first)..], m);
    MoreSeals(aead, g, key, SealsOf(g, part.number, pt), seals, part.number, first, slice);
  }

  /** Where each entry lies in the one stretch that a range is served from. */
  lemma {:induction false} EntryOffset(g: Geometry, opens: Openers, entries: seq<Entry>, k: nat)
    requires g.chunkSize > 0 && k < |entries| && Contiguous(entries)
    requires forall j :: 0 <= j < |entries| ==> entries[j].plan.ctStart <= entries[j].plan.ctEnd
    ensures TotalLen(EntrySegments(g, opens, entries)[..k])
            == entries[k].span.ctStart + entries[k].plan.ctStart - GlobalStart(entries)
    decreases k
  {
    var segs := EntrySegments(g, opens, entries);
    if k > 0 {
      EntryOffset(g, opens, entries, k - 1);
      TotalLenStep(segs, k - 1);
      assert entries[k - 1 + 1] == entries[k];
    }
  }

  /** Part `p` lies in the object where the layout says. */
  lemma PartInObject(g: Geometry, opens: Openers, parts: seq<Part>, p: nat)
    requires Readable(g, opens, parts) && p < |parts|
    ensures var span := SpanAt(g, Sizes(parts), p);
            && span.ctStart + |PartCt(g, parts[p])| <= |ObjectCt(g, parts)|
            && ObjectCt(g, parts)[span.ctStart..span.ctStart + |PartCt(g, parts[p])|] == PartCt(g, parts[p])
  {
    hide Paired, PartCt;
    var before, upTo := parts[..p], parts[..p + 1];
    assert upTo[..p] == before;
    LayoutTotals(g, opens, before);
    assert Sizes(parts)[..p] == Sizes(before);
    ObjectFront(g, parts, p + 1);
    assert ObjectCt(g, upTo) == ObjectCt(g, before) + PartCt(g, parts[p]);
  }

  lemma EntryIsGenuine(aead: Aead, g: Geometry, key: Bytes, seals: Seals, parts: seq<Part>, e: Entry, s: PartShare,
                       segs: seq<Segment>, k: nat, from: nat, b: Bytes)
    requires g.chunkSize > 0 && Lawful(aead) && Uploaded(aead, g, key, parts)
    requires forall p :: 0 <= p < |parts| ==> SealsOf(g, parts[p].number, parts[p].pt) <= seals
    requires Fetches(g, e, s) && FromPart(g, parts, e, s) && k < |segs| && e.plan.ctStart <= e.plan.ctEnd
    requires segs[k].len == e.plan.ctEnd - e.plan.ctStart && TotalLen(segs[..k]) == e.span.ctStart + e.plan.ctStart - from
    requires from <= |ObjectCt(g, parts)| && from + |b| <= |ObjectCt(g, parts)| && b == ObjectCt(g, parts)[from..from + |b|]
    requires e.span.ctStart + e.plan.ctEnd <= from + |b|
    ensures StretchGenuine(aead, g, key, seals, e.span.number, e.plan.firstChunk, EndsPart(g, e), segs[k].len, OwnBytes(segs, k, b))
  {
    hide SealsOf, FramesGenuine, RunGenuine, Lawful, Describes, PartCt, ObjectCt, SealedWith, SpanAt, TotalLen;
    var p: nat :| p < |parts| && e.span == SpanAt(g, Sizes(parts), p) && s.part == parts[p];
    UploadedIsReadable(aead, g, key, parts);
    PartInObject(g, ReaderOf(aead, g.alg, key), parts, p);
    assert SealedWith(aead, g, key, parts[p].number, parts[p].seal);
    SliceIsGenuine(aead, g, key, seals, parts[p], s.from, s.to, e.plan);
    NChunksIsReady(|parts[p].pt|, g.chunkSize);
    var at := e.span.ctStart;
    SliceOfSlice(ObjectCt(g, parts), from, |b|, at, |PartCt(g, parts[p])|, e.plan.ctStart, e.plan.ctEnd);
    RunFrames(aead, g, key, seals, e.span.number, e.plan.firstChunk, EndsPart(g, e), OwnBytes(segs, k, b));
  }

  lemma SliceOfSlice(b: Bytes, from: nat, n: nat, at: nat, len: nat, x: nat, y: nat)
    requires from + n <= |b| && at + len <= |b| && x <= y <= len && from <= at + x && at + y <= from + n
    ensures b[from..from + n][at + x - from..at + y - from] == b[at..at + len][x..y]
  {
    NestedSlice(b, from, from + n, at + x - from, at + y - from);
    NestedSlice(b, at, at + len, x, y);
    assert from + (at + x - from) == at + x && from + (at + y - from) == at + y;
  }

  lemma NestedSlice(b: Bytes, low: nat, high: nat, x: nat, y: nat)
    requires low <= high <= |b| && x <= y <= high - low
    ensures b[low..high][x..y] == b[low + x..low + y]
  {
    var inner, outer := b[low..high][x..y], b[low + x..low + y];
    assert |inner| == |outer|;
    forall i | 0 <= i < |inner| ensures inner[i] == outer[i] {
      assert inner[i] == b[low..high][x + i] == b[low + (x + i)];
      assert outer[i] == b[low + x + i];
    }
  }

  /** The stretch of the object that serves a range meets the assumption of the ranged read. */
  lemma HonestRange(aead: Aead, g: Geometry, key: Bytes, seals: Seals, parts: seq<Part>, f: Footer, start: nat, end: nat)
    requires g.chunkSize > 0 && Lawful(aead) && Uploaded(aead, g, key, parts) && start < end <= |ObjectPt(parts)|
    requires SealsOfObject(g, parts, f) <= seals
    ensures var entries := EntriesFor(g, LayoutOf(g, Sizes(parts)), start, end);
            && |entries| > 0 && GlobalStart(entries) <= GlobalEnd(entries) <= |ObjectCt(g, parts)|
            && EntriesGenuine(aead, g, key, seals, entries, ObjectCt(g, parts)[GlobalStart(entries)..GlobalEnd(entries)])
  {
    hide SealsOf, Lawful, Fetches, FromPart, TextOf, ObjectCt, ObjectPt, StretchGenuine, TotalLen, Uploaded, Contiguous, Paired, SealsOfObject;
    var opens := ReaderOf(aead, g.alg, key);
    UploadedIsReadable(aead, g, key, parts);
    RangeOfObject(g, opens, parts, start, end);
    SharesFetched(g, parts, start, end);
    var entries, shares := EntriesFor(g, LayoutOf(g, Sizes(parts)), start, end), SharesOf(g, parts, start, end);
    var segs, from := EntrySegments(g, opens, entries), GlobalStart(entries);
    var b := ObjectCt(g, parts)[from..GlobalEnd(entries)];
    EntriesOrdered(aead, g, entries, shares);
    forall p | 0 <= p < |parts| ensures SealsOf(g, parts[p].number, parts[p].pt) <= seals {
      PartOfObject(g, parts, f, p);
    }
    forall k | 0 <= k < |entries|
      ensures StretchGenuine(aead, g, key, seals, entries[k].span.number, entries[k].plan.firstChunk,
                             EndsPart(g, entries[k]), segs[k].len, OwnBytes(segs, k, b))
    {
      EntryOffset(g, opens, entries, k);
      EntryEnds(g, opens, entries, k);
      EntryIsGenuine(aead, g, key, seals, parts, entries[k], shares[k], segs, k, from, b);
    }
  }

  /** A single-part body with one frame too many is no forgery either, and is delivered: two
      frames where the range needs the first one read as the range and a chunk beyond it. */
  lemma OverlongBody(aead: Aead, g: Geometry, key: Bytes, nonces: Nonces, pt: Bytes, start: nat, end: nat)
    requires g.chunkSize > 0 && Lawful(aead) && ValidNonces(g.alg, nonces)
    requires Ready(g.chunkSize, |pt|) >= 2 && start < end <= g.chunkSize
    ensures PlanRange(g, |pt|, start, end).Ok?
    ensures var plan := PlanRange(g, |pt|, start, end).value;
            var ct := Head(g, SealerOf(aead, g.alg, key, 0, nonces), 0, pt, 2);
            && !EndsAt(g, |pt|, plan) && end + g.chunkSize <= |pt|
            && RunGenuine(aead, g, key, SealsOf(g, 0, pt), 0, plan.firstChunk, false, ct)
            && RangeText(g, OpenerOf(aead, g.alg, key, 0), plan, false, ct) == Some(pt[start..end + g.chunkSize])
  {
    hide SealsOf, Lawful, Head, Paired, RangeText, RunGenuine, PlanRange, NChunks;
    var seal, open := SealerOf(aead, g.alg, key, 0, nonces), OpenerOf(aead, g.alg, key, 0);
    PlanInFirst(g, |pt|, start, end);
    var plan := PlanRange(g, |pt|, start, end).value;
    NChunksIsReady(|pt|, g.chunkSize);
    OffReady(g.chunkSize, |pt|, 1);
    assert pt[0..] == pt && Off(g.chunkSize, 1) == g.chunkSize;
    HeadGenuine(aead, g, key, 0, nonces, pt, 0, pt, 2);
    PairedStreams(aead, g.alg, key, 0, nonces);
    hide SealerOf, OpenerOf;
    RunYields(g, seal, open, pt, 2, plan);
  }

  lemma PlanInFirst(g: Geometry, ptLen: nat, start: nat, end: nat)
    requires g.chunkSize > 0 && start < end <= g.chunkSize && end <= ptLen
    ensures PlanRange(g, ptLen, start, end).Ok?
    ensures var plan := PlanRange(g, ptLen, start, end).value;
            plan.firstChunk == 0 && plan.lastChunk == 0 && plan.trimStart == start && plan.trimEnd == end
  {
    DivUnique(start, g.chunkSize, 0, start);
    DivUnique(end - 1, g.chunkSize, 0, end - 1);
  }

  lemma EntriesOrdered(aead: Aead, g: Geometry, entries: seq<Entry>, shares: seq<PartShare>)
    requires g.chunkSize > 0 && Lawful(aead) && |entries| == |shares|
    requires forall k :: 0 <= k < |shares| ==> Fetches(g, entries[k], shares[k])
    ensures forall k :: 0 <= k < |entries| ==> entries[k].plan.ctStart <= entries[k].plan.ctEnd
  {
    hide Describes, Lawful;
    forall k | 0 <= k < |entries| ensures entries[k].plan.ctStart <= entries[k].plan.ctEnd {
      var s := shares[k];
      assert Fetches(g, entries[k], s);
      PlannedFrames(aead, g, |s.part.pt|, s.from, s.to, entries[k].plan);
    }
  }

  lemma EntryEnds(g: Geometry, opens: Openers, entries: seq<Entry>, k: nat)
    requires g.chunkSize > 0 && k < |entries| && Contiguous(entries)
    requires forall j :: 0 <= j < |entries| ==> entries[j].plan.ctStart <= entries[j].plan.ctEnd
    ensures entries[k].span.ctStart + entries[k].plan.ctEnd <= GlobalEnd(entries)
    decreases |entries| - k
  {
    if k + 1 < |entries| {
      EntryEnds(g, opens, entries, k + 1);
      assert entries[k].span.ctStart + entries[k].plan.ctEnd == entries[k + 1].span.ctStart + entries[k + 1].plan.ctStart;
    }
  }
}
