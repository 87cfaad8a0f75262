/** The sealed footer at the end of a completed multipart object, and the full read that
    starts from it. */
module SealedFooter {
  import opened Bytes
  import opened Body
  import opened Cipher
  import opened SizeMath
  import opened Layout
  import opened Segments
  import opened FooterCodec
  import opened MultipartObject
  import opened MultipartCursor

  function Trailer(footerLen: nat): (b: Bytes)
    ensures |b| == TRAILER_LEN
  {
    FOOTER_MAGIC + LittleEndian(footerLen, 8)
  }

  /** The body of the footer part: one frame at the reserved part number, index 0, marked
      last, and the trailer with the frame's length. */
  function SealFooter(seal: Sealer, f: Footer): Bytes {
    var frame := seal(0, true, Record(f));
    frame + Trailer(|frame|)
  }

  function ParseTrailer(trailer: Bytes): Result<nat, Error> {
    if |trailer| != TRAILER_LEN || trailer[..8] != FOOTER_MAGIC then Err(InvalidFooter)
    else
      var footerLen := FromLittleEndian(trailer[8..]);
      if footerLen == 0 || footerLen > MAX_FOOTER_LEN then Err(InvalidFooter) else Ok(footerLen)
  }

  /** The accepted trailers are the ones written for a frame of permitted length. */
  lemma ParseTrailerExact(trailer: Bytes, n: nat)
    ensures ParseTrailer(trailer) == Ok(n) <==> trailer == Trailer(n) && 1 <= n <= MAX_FOOTER_LEN
  {
    Pow256Widths();
    if trailer == Trailer(n) && n <= MAX_FOOTER_LEN {
      assert trailer[8..] == LittleEndian(n, 8) && trailer[..8] == FOOTER_MAGIC;
      LittleEndianRoundTrip(n, 8);
    }
    if |trailer| == TRAILER_LEN {
      LittleEndianReencode(trailer[8..]);
      assert trailer == trailer[..8] + trailer[8..];
    }
  }

  /** Opens the frame and decodes the record inside; the record must name the algorithm
      that its frame was opened with. */
  method OpenFooter(alg: Alg, open: Opener, frame: Bytes) returns (r: Result<Footer, Error>)
    ensures r.Ok? <==> exists f :: WellFormed(f) && f.alg == alg && open(0, true, frame) == Ok(Record(f))
    ensures r.Ok? ==> WellFormed(r.value) && r.value.alg == alg && open(0, true, frame) == Ok(Record(r.value))
    ensures open(0, true, frame).Err? ==> r == Err(open(0, true, frame).error)
  {
    hide Record, WellFormed;
    var record :- open(0, true, frame);
    var footer :- DecodeRecord(record);
    if exists f :: WellFormed(f) && f.alg == alg && open(0, true, frame) == Ok(Record(f)) {
      ghost var f :| WellFormed(f) && f.alg == alg && open(0, true, frame) == Ok(Record(f));
      OneReading(f, footer);
    }
    if alg != footer.alg {
      return Err(InvalidFooter);
    }
    return Ok(footer);
  }

  lemma OneReading(f: Footer, f': Footer)
    requires WellFormed(f) && WellFormed(f') && Record(f) == Record(f')
    ensures f == f'
  {
    RecordInjective(f, f');
  }

  /** `stored` ends with a frame that opens to the record of `f` and with its trailer. */
  ghost predicate EndsWithFooter(alg: Alg, open: Opener, stored: Bytes, f: Footer) {
    WellFormed(f) && f.alg == alg && exists n: nat :: HoldsFrame(open, stored, n, f)
  }

  ghost predicate HoldsFrame(open: Opener, stored: Bytes, n: nat, f: Footer) {
    && 1 <= n <= MAX_FOOTER_LEN && n + TRAILER_LEN <= |stored|
    && var end := |stored| - TRAILER_LEN;
    stored[end..] == Trailer(n) && open(0, true, stored[end - n..end]) == Ok(Record(f))
  }

  /** What a backend answers while a footer is loaded: the stored length it announced and
      the bodies of the two ranged requests, nothing where a request failed. */
  datatype Answers = Answers(ctLen: nat, trailer: Option<Bytes>, frame: Option<Bytes>)

  /** Why a footer does not load: no trailer that fits the announced length or a failed
      request, or a frame that cannot be read. */
  datatype LoadError = BadGateway | Unreadable(error: Error)

  ghost predicate Announces(a: Answers, n: nat) {
    1 <= n <= MAX_FOOTER_LEN && n + TRAILER_LEN <= a.ctLen && a.trailer == Some(Trailer(n))
  }

  /** The second answer, of whatever length, opens to the record of `f`. */
  ghost predicate Loads(alg: Alg, open: Opener, a: Answers, f: Footer) {
    && (exists n: nat :: Announces(a, n)) && a.frame.Some?
    && WellFormed(f) && f.alg == alg && open(0, true, a.frame.value) == Ok(Record(f))
  }

  /** Fetches the trailer, then the frame it announces. */
  method LoadFooter(alg: Alg, open: Opener, a: Answers) returns (r: Result<Footer, LoadError>)
    ensures r.Ok? <==> exists f :: Loads(alg, open, a, f)
    ensures r.Ok? ==> Loads(alg, open, a, r.value)
    ensures r == Err(BadGateway) <==> a.frame.None? || !exists n: nat :: Announces(a, n)
  {
    hide Record, WellFormed, ParseTrailer, Trailer;
    if a.ctLen < TRAILER_LEN || a.trailer.None? {
      return Err(BadGateway);
    }
    var trailer := ParseTrailer(a.trailer.value);
    if trailer.Err? {
      forall n: nat ensures !Announces(a, n) {
        ParseTrailerExact(a.trailer.value, n);
      }
      return Err(BadGateway);
    }
    var footerLen := trailer.value;
    ParseTrailerExact(a.trailer.value, footerLen);
    forall n: nat | Announces(a, n) ensures n == footerLen {
      ParseTrailerExact(a.trailer.value, n);
    }
    if a.ctLen - TRAILER_LEN < footerLen || a.frame.None? {
      return Err(BadGateway);
    }
    assert Announces(a, footerLen);
    var footer := OpenFooter(alg, open, a.frame.value);
    if footer.Err? {
      return Err(Unreadable(footer.error));
    }
    assert Loads(alg, open, a, footer.value);
    return Ok(footer.value);
  }

  /** The answers hold one footer at most. */
  lemma LoadsUnique(alg: Alg, open: Opener, a: Answers, f: Footer, f': Footer)
    requires Loads(alg, open, a, f) && Loads(alg, open, a, f')
    ensures f == f'
  {
    OneReading(f, f');
  }

  /** The answers of a backend that serves `stored`. */
  function Served(stored: Bytes): Answers {
    if |stored| < TRAILER_LEN then Answers(|stored|, None, None)
    else
      var end := |stored| - TRAILER_LEN;
      match ParseTrailer(stored[end..])
      case Ok(n) => Answers(|stored|, Some(stored[end..]), if n <= end then Some(stored[end - n..end]) else None)
      case Err(_) => Answers(|stored|, Some(stored[end..]), None)
  }

  /** From such a backend loads the footer that the object ends with, and no other. */
  lemma ServedLoads(alg: Alg, open: Opener, stored: Bytes, f: Footer)
    ensures Loads(alg, open, Served(stored), f) <==> EndsWithFooter(alg, open, stored, f)
  {
    hide Record, WellFormed, Trailer, ParseTrailer;
    if |stored| >= TRAILER_LEN {
      var end := |stored| - TRAILER_LEN;
      if EndsWithFooter(alg, open, stored, f) {
        var n: nat :| HoldsFrame(open, stored, n, f);
        ParseTrailerExact(stored[end..], n);
        assert Announces(Served(stored), n);
      }
      if Loads(alg, open, Served(stored), f) {
        var n: nat :| Announces(Served(stored), n);
        ParseTrailerExact(stored[end..], n);
        assert HoldsFrame(open, stored, n, f);
      }
    }
  }

  /** An object has one footer. */
  lemma FooterUnique(alg: Alg, open: Opener, stored: Bytes, f: Footer, f': Footer)
    requires EndsWithFooter(alg, open, stored, f) && EndsWithFooter(alg, open, stored, f')
    ensures f == f'
  {
    hide EndsWithFooter, Loads;
    ServedLoads(alg, open, stored, f);
    ServedLoads(alg, open, stored, f');
    LoadsUnique(alg, open, Served(stored), f, f');
  }

  // ---------------------------------------------------------------- the size cap

  /** The part numbers a client may list. */
  predicate ClientNumbers(parts: seq<PartSize>) {
    Ascending(parts) && forall k :: 0 <= k < |parts| ==> 1 <= parts[k].number <= MAX_PART_NUMBER
  }

  lemma {:induction false} NumbersGrow(parts: seq<PartSize>, k: nat)
    requires ClientNumbers(parts) && k < |parts|
    ensures k < parts[k].number
  {
    if k > 0 {
      NumbersGrow(parts, k - 1);
    }
  }

  /** Distinct numbers up to 10000 keep every footer under the cap of the trailer. */
  lemma CompletedFooterFits(seal: Sealer, open: Opener, f: Footer)
    requires Paired(f.alg, seal, open) && Representable(f) && ClientNumbers(f.parts)
    ensures |f.parts| <= MAX_PART_NUMBER && 1 <= |seal(0, true, Record(f))| <= MAX_FOOTER_LEN
  {
    if |f.parts| > 0 {
      NumbersGrow(f.parts, |f.parts| - 1);
    }
    RecordShape(f);
  }

  /** A sealed footer is found again behind whatever precedes it. */
  lemma SealedLoads(alg: Alg, seal: Sealer, open: Opener, before: Bytes, f: Footer)
    requires Paired(alg, seal, open) && WellFormed(f) && f.alg == alg && ClientNumbers(f.parts)
    ensures EndsWithFooter(alg, open, before + SealFooter(seal, f), f)
  {
    var frame := seal(0, true, Record(f));
    CompletedFooterFits(seal, open, f);
    var stored := before + SealFooter(seal, f);
    var end := |stored| - TRAILER_LEN;
    assert stored == before + frame + Trailer(|frame|);
    assert stored[end..] == Trailer(|frame|) && stored[end - |frame|..end] == frame;
    assert HoldsFrame(open, stored, |frame|, f);
  }

  // ---------------------------------------------------------------- full GET

  /** What the parts that a footer lists read as, if all of their bytes arrived. */
  function PartsText(g: Geometry, opens: Openers, sizes: seq<PartSize>, arrived: Bytes): Option<Bytes>
    requires g.chunkSize > 0
  {
    var segs := PartSegments(g, opens, LayoutOf(g, sizes));
    if |arrived| < TotalLen(segs) then None else TextOf(segs, arrived[..TotalLen(segs)])
  }

  /** A full GET of a multipart object: the announced length is the footer's total, and
      the stream ends without an error exactly when the listed parts arrived and open. */
  method FullGet(g: Geometry, opens: Openers, a: Answers, body: seq<Frame>)
    returns (length: nat, out: Bytes, ok: bool)
    requires g.chunkSize > 0
    ensures (exists f :: Loads(g.alg, opens(FOOTER_PART_NUMBER), a, f)) || (!ok && out == [])
    ensures forall f :: Loads(g.alg, opens(FOOTER_PART_NUMBER), a, f) ==>
              var spans := LayoutOf(g, f.parts);
              var text := PartsText(g, opens, f.parts, Arrived(body));
              && length == f.totalPt && (ok <==> text.Some?) && (ok ==> out == text.value)
              && (!ok ==> SentParts(g, opens, spans, PartSegments(g, opens, spans), Arrived(body), out))
  {
    hide Loads, TextOf, TotalLen, PartSegments, SentParts;
    var r := LoadFooter(g.alg, opens(FOOTER_PART_NUMBER), a);
    if r.Err? {
      return 0, [], false;
    }
    forall f | Loads(g.alg, opens(FOOTER_PART_NUMBER), a, f) ensures f == r.value {
      LoadsUnique(g.alg, opens(FOOTER_PART_NUMBER), a, f, r.value);
    }
    length := r.value.totalPt;
    var spans := LayoutOf(g, r.value.parts);
    SpansAreNonEmpty(g, r.value.parts);
    out, ok := DecryptingMultipart(g, opens, spans, body);
  }

  lemma SpansAreNonEmpty(g: Geometry, sizes: seq<PartSize>)
    requires g.chunkSize > 0
    ensures NonEmptySpans(LayoutOf(g, sizes))
  {
    forall k | 0 <= k < |sizes| ensures CiphertextLen(g.alg, sizes[k].ptLen, g.chunkSize) > 0 {
      NChunksBounds(sizes[k].ptLen, g.chunkSize);
      var n := NChunks(sizes[k].ptLen, g.chunkSize);
      assert n >= 1;
      MulMono(1, n, g.alg.Overhead());
    }
  }

  /** The footer a Complete seals over its parts. */
  function FooterOf(alg: Alg, sizes: seq<PartSize>, md5: Option<Bytes>): Footer {
    Footer(alg, sizes, PtTotal(sizes) % TWO_64, md5)
  }

  /** Parts that are stored in order read back, whatever follows them. */
  lemma StoredReads(g: Geometry, opens: Openers, parts: seq<Part>, more: Bytes)
    requires Readable(g, opens, parts)
    ensures PartsText(g, opens, Sizes(parts), ObjectCt(g, parts) + more) == Some(ObjectPt(parts))
  {
    hide TextOf, TotalLen, PartSegments, ObjectCt, ObjectPt;
    WholeObject(g, opens, parts);
    assert (ObjectCt(g, parts) + more)[..|ObjectCt(g, parts)|] == ObjectCt(g, parts);
  }

  /** A completed multipart object, its parts' ciphertexts in order and the sealed footer,
      reads back as the parts' plaintexts. */
  lemma CompletedReads(g: Geometry, opens: Openers, parts: seq<Part>, md5: Option<Bytes>, seal: Sealer)
    requires Readable(g, opens, parts) && Paired(g.alg, seal, opens(FOOTER_PART_NUMBER))
    requires WellFormed(FooterOf(g.alg, Sizes(parts), md5)) && ClientNumbers(Sizes(parts))
    ensures var f := FooterOf(g.alg, Sizes(parts), md5);
            var stored := ObjectCt(g, parts) + SealFooter(seal, f);
            && EndsWithFooter(g.alg, opens(FOOTER_PART_NUMBER), stored, f)
            && PartsText(g, opens, f.parts, stored) == Some(ObjectPt(parts))
            && f.totalPt == |ObjectPt(parts)| % TWO_64
  {
    hide EndsWithFooter, TextOf, TotalLen, PartSegments, SealFooter, ObjectCt, ObjectPt, WellFormed;
    var f := FooterOf(g.alg, Sizes(parts), md5);
    var stored := ObjectCt(g, parts) + SealFooter(seal, f);
    SealedLoads(g.alg, seal, opens(FOOTER_PART_NUMBER), ObjectCt(g, parts), f);
    StoredReads(g, opens, parts, SealFooter(seal, f));
    LayoutTotals(g, opens, parts);
  }
}
