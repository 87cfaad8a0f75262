/** The grammar of aws-chunked: which lines say what, and a printer that the decoder
    inverts. */
module ChunkedPrinter {
  import opened Bytes
  import opened Text
  import opened Numerals
  import opened ChunkedWire
  import opened ChunkedCuts

  // ---------------------------------------------------------------- header lines

  /** The text before the first semicolon, and the extension behind it. */
  predicate Heads(line: string, sizeText: string, extension: string) {
    ';' !in sizeText && ((line == sizeText && extension == "") || line == sizeText + [';'] + extension)
  }

  ghost predicate Claims(extension: string, signature: Option<string>) {
    match signature
    case None => extension == ""
    case Some(sig) => exists text :: extension == SIGNATURE_EXTENSION + text && sig == Trim(text)
  }

  /** The line gives this size, in hexadecimal digits of either case behind any number of
      zeros, and this signature; blanks around either do not matter. */
  ghost predicate HeaderSays(line: string, size: nat, signature: Option<string>) {
    exists sizeText, extension :: Heads(line, sizeText, extension) && Denotes(Trim(sizeText), 16, size) && Claims(extension, signature)
  }

  lemma SplitHead(line: string)
    ensures var pair := match SplitOnce(line, ';') case Some(pair) => pair case None => (line, "");
            forall a, b :: Heads(line, a, b) <==> (a, b) == pair
  {
    SplitIs(line, ';');
    forall a, b | Heads(line, a, b) ensures (a, b) == match SplitOnce(line, ';') case Some(pair) => pair case None => (line, "") {
      if line == a + [';'] + b {
        SplitFirst(a, ';', b);
      } else {
        SplitNone(line, ';');
      }
    }
  }

  lemma ClaimsExact(extension: string, signature: Option<string>)
    ensures Claims(extension, signature)
            <==> if extension == "" then signature == None
                 else SIGNATURE_EXTENSION <= extension && signature == Some(Trim(extension[|SIGNATURE_EXTENSION|..]))
  {
    hide Trim;
    if SIGNATURE_EXTENSION <= extension {
      assert extension == SIGNATURE_EXTENSION + extension[|SIGNATURE_EXTENSION|..];
    }
    forall text | extension == SIGNATURE_EXTENSION + text ensures extension[|SIGNATURE_EXTENSION|..] == text {
    }
  }

  /** A header line parses to what it says, if that is within the limit, and to nothing else. */
  lemma HeaderExact(line: string, size: nat, signature: Option<string>)
    ensures ParseChunkHeader(line) == Ok((size, signature)) <==> HeaderSays(line, size, signature) && size <= MAX_DECLARED_CHUNK
  {
    hide ParseUnsigned, Trim, Denotes, Claims, Heads, SplitOnce;
    SplitHead(line);
    var (sizeText, extension) := match SplitOnce(line, ';') case Some(pair) => pair case None => (line, "");
    assert Heads(line, sizeText, extension);
    ParseExact(Trim(sizeText), 16, TWO_64, size);
    ClaimsExact(extension, signature);
  }

  /** A size above the limit is told apart from what is no 64-bit number at all. */
  lemma TooLargeExact(line: string)
    ensures ParseChunkHeader(line) == Err(ChunkTooLarge)
            <==> exists sizeText, extension, n: nat ::
                   Heads(line, sizeText, extension) && Denotes(Trim(sizeText), 16, n) && MAX_DECLARED_CHUNK < n < TWO_64
    ensures ParseChunkHeader(line).Ok? || ParseChunkHeader(line).error in {ChunkTooLarge, MalformedHeader}
  {
    hide ParseUnsigned, Trim, Denotes, Heads, SplitOnce;
    SplitHead(line);
    var (sizeText, extension) := match SplitOnce(line, ';') case Some(pair) => pair case None => (line, "");
    assert Heads(line, sizeText, extension);
    forall n: nat ensures ParseHex(Trim(sizeText)) == Some(n) <==> Denotes(Trim(sizeText), 16, n) && n < TWO_64 {
      ParseExact(Trim(sizeText), 16, TWO_64, n);
    }
  }

  // ---------------------------------------------------------------- trailer lines

  ghost predicate TrailerSays(line: string, trailer: (string, string)) {
    exists name, value :: ':' !in name && line == name + [':'] + value && trailer == (Trim(name), Trim(value))
  }

  lemma TrailerExact(decode: Decode, line: Bytes, trailer: (string, string))
    ensures TrailerLine(decode, line) == Ok(trailer) <==> decode(line).Some? && TrailerSays(decode(line).value, trailer)
  {
    hide Trim;
    if decode(line).Some? {
      var text := decode(line).value;
      SplitIs(text, ':');
      forall name, value | ':' !in name && text == name + [':'] + value ensures SplitOnce(text, ':') == Some((name, value)) {
        SplitFirst(name, ':', value);
      }
    }
  }

  // ---------------------------------------------------------------- the stream

  /** A chunk with the bytes of its header line, and a trailer with those of its own. */
  datatype Spelled = Spelled(line: Bytes, chunk: Chunk)
  datatype SpelledTrailer = SpelledTrailer(line: Bytes, trailer: (string, string))

  ghost predicate NoCrlf(line: Bytes) {
    forall k: nat :: !CrlfAt(line, k)
  }

  ghost predicate WellSpelled(decode: Decode, s: Spelled) {
    && NoCrlf(s.line) && decode(s.line).Some? && |s.chunk.data| <= MAX_DECLARED_CHUNK
    && HeaderSays(decode(s.line).value, |s.chunk.data|, s.chunk.signature)
  }

  ghost predicate WellSpelledTrailer(decode: Decode, t: SpelledTrailer) {
    t.line != [] && NoCrlf(t.line) && decode(t.line).Some? && TrailerSays(decode(t.line).value, t.trailer)
  }

  ghost predicate Body(decode: Decode, body: seq<Spelled>) {
    forall k :: 0 <= k < |body| ==> WellSpelled(decode, body[k]) && body[k].chunk.data != []
  }

  ghost predicate Tail(decode: Decode, trailers: seq<SpelledTrailer>) {
    forall k :: 0 <= k < |trailers| ==> WellSpelledTrailer(decode, trailers[k])
  }

  /** Non-empty chunks, an empty one, and at most 32 trailers. */
  ghost predicate Stream(decode: Decode, body: seq<Spelled>, end: Spelled, trailers: seq<SpelledTrailer>) {
    && Body(decode, body) && WellSpelled(decode, end) && end.chunk.data == [] && Tail(decode, trailers)
    && |trailers| <= MAX_TRAILERS
  }

  function ChunksOf(body: seq<Spelled>): seq<Chunk> {
    seq(|body|, k requires 0 <= k < |body| => body[k].chunk)
  }

  function TrailersOf(trailers: seq<SpelledTrailer>): seq<(string, string)> {
    seq(|trailers|, k requires 0 <= k < |trailers| => trailers[k].trailer)
  }

  function PrintChunks(body: seq<Spelled>): Bytes {
    if |body| == 0 then []
    else body[0].line + (CRLF + (body[0].chunk.data + (CRLF + PrintChunks(body[1..]))))
  }

  function PrintTrailers(trailers: seq<SpelledTrailer>): Bytes {
    if |trailers| == 0 then CRLF else trailers[0].line + (CRLF + PrintTrailers(trailers[1..]))
  }

  /** Chunks, the empty terminator with its signature, trailers and the final empty line. */
  function Print(body: seq<Spelled>, end: Spelled, trailers: seq<SpelledTrailer>): Bytes {
    PrintChunks(body) + (end.line + (CRLF + PrintTrailers(trailers)))
  }

  // ---------------------------------------------------------------- the decoder inverts it

  /** The first CRLF behind a line is its own. */
  lemma LineEnds(line: Bytes, rest: Bytes)
    requires NoCrlf(line)
    ensures var buf := line + (CRLF + rest);
            FindCrlf(buf) == Some(|line|) && buf[..|line|] == line && buf[|line| + 2..] == rest
  {
    var buf := line + (CRLF + rest);
    assert CrlfAt(buf, |line|);
    forall k: nat | k < |line| ensures !CrlfAt(buf, k) {
      assert !CrlfAt(line, k);
    }
  }

  lemma ReadsHeader(decode: Decode, c: Config, s: Spelled, rest: Bytes)
    requires WellSpelled(decode, s) && c.state.Header? && c.buf == s.line + (CRLF + rest)
    ensures Step(decode, c) == Go(if s.chunk.data == [] then Config(Trailers, c.trailers, c.chunks + [s.chunk], rest)
                                  else Config(Data(|s.chunk.data|, s.chunk.signature), c.trailers, c.chunks, rest))
  {
    hide FindCrlf, ParseChunkHeader, HeaderSays;
    LineEnds(s.line, rest);
    HeaderExact(decode(s.line).value, |s.chunk.data|, s.chunk.signature);
  }

  lemma ReadsChunk(decode: Decode, c: Config, s: Spelled, rest: Bytes)
    requires Sane(c) && c.state.Header? && WellSpelled(decode, s) && s.chunk.data != []
    requires c.buf == s.line + (CRLF + (s.chunk.data + (CRLF + rest)))
    ensures var next := Config(Header, c.trailers, c.chunks + [s.chunk], rest);
            Sane(next) && Drain(decode, c) == Drain(decode, next)
    ensures var next := Config(Header, c.trailers, c.chunks + [s.chunk], rest);
            LinesShort(decode, c) <==> |s.line| < MAX_LINE_BYTES && LinesShort(decode, next)
  {
    hide StepHeader, StepTrailers, Drain, LinesShort, HeaderSays, FindCrlf;
    var chunk := s.chunk;
    var size := |chunk.data|;
    var inData := Config(Data(size, chunk.signature), c.trailers, c.chunks, chunk.data + (CRLF + rest));
    ReadsHeader(decode, c, s, inData.buf);
    LineEnds(s.line, inData.buf);
    DrainStep(decode, c, inData);
    LinesShortStep(decode, c, inData);
    var inCrlf := Config(DataCrlf, c.trailers, c.chunks + [chunk], CRLF + rest);
    assert inData.buf[..size] == chunk.data && inData.buf[size..] == CRLF + rest;
    DrainStep(decode, inData, inCrlf);
    LinesShortStep(decode, inData, inCrlf);
    assert inCrlf.buf[..2] == CRLF && inCrlf.buf[2..] == rest;
    var next := Config(Header, c.trailers, c.chunks + [chunk], rest);
    DrainStep(decode, inCrlf, next);
    LinesShortStep(decode, inCrlf, next);
  }

  predicate ShortBody(body: seq<Spelled>) {
    forall k :: 0 <= k < |body| ==> |body[k].line| < MAX_LINE_BYTES
  }

  predicate ShortTail(trailers: seq<SpelledTrailer>) {
    forall k :: 0 <= k < |trailers| ==> |trailers[k].line| < MAX_LINE_BYTES
  }

  lemma {:induction false} ReadsChunks(decode: Decode, c: Config, body: seq<Spelled>, rest: Bytes)
    requires Sane(c) && c.state.Header? && Body(decode, body) && c.buf == PrintChunks(body) + rest
    ensures var next := Config(Header, c.trailers, c.chunks + ChunksOf(body), rest);
            && Sane(next) && Drain(decode, c) == Drain(decode, next)
            && (LinesShort(decode, c) <==> ShortBody(body) && LinesShort(decode, next))
    decreases |body|
  {
    hide Drain, LinesShort, WellSpelled;
    if |body| == 0 {
      assert c.chunks + ChunksOf(body) == c.chunks && PrintChunks(body) + rest == rest;
    } else {
      var s, tail := body[0], PrintChunks(body[1..]) + rest;
      Regroup(s, PrintChunks(body[1..]), rest);
      ReadsChunk(decode, c, s, tail);
      ReadsChunks(decode, Config(Header, c.trailers, c.chunks + [s.chunk], tail), body[1..], rest);
      assert c.chunks + [s.chunk] + ChunksOf(body[1..]) == c.chunks + ChunksOf(body);
      assert body == [s] + body[1..];
    }
  }

  lemma Regroup(s: Spelled, more: Bytes, rest: Bytes)
    ensures s.line + (CRLF + (s.chunk.data + (CRLF + more))) + rest == s.line + (CRLF + (s.chunk.data + (CRLF + (more + rest))))
  {
  }

  lemma ReadsEnd(decode: Decode, c: Config)
    requires c.state.Trailers? && c.buf == CRLF
    ensures Step(decode, c) == Go(Config(Done, c.trailers, c.chunks, [])) && FindCrlf(c.buf) == Some(0)
  {
    assert CrlfAt(c.buf, 0);
  }

  lemma ReadsTrailer(decode: Decode, c: Config, t: SpelledTrailer, rest: Bytes)
    requires WellSpelledTrailer(decode, t) && |c.trailers| < MAX_TRAILERS
    requires c.state.Trailers? && c.buf == t.line + (CRLF + rest)
    ensures Step(decode, c) == Go(Config(Trailers, c.trailers + [t.trailer], c.chunks, rest)) && FindCrlf(c.buf) == Some(|t.line|)
  {
    hide FindCrlf, TrailerLine, TrailerSays;
    LineEnds(t.line, rest);
    TrailerExact(decode, t.line, t.trailer);
  }

  lemma {:induction false} ReadsTrailers(decode: Decode, c: Config, trailers: seq<SpelledTrailer>)
    requires Sane(c) && c.state.Trailers? && Tail(decode, trailers)
    requires |c.trailers| + |trailers| <= MAX_TRAILERS && c.buf == PrintTrailers(trailers)
    ensures Drain(decode, c) == Ok(Config(Done, c.trailers + TrailersOf(trailers), c.chunks, []))
    ensures LinesShort(decode, c) <==> ShortTail(trailers)
    decreases |trailers|
  {
    hide Step, WellSpelledTrailer, FindCrlf, LinesShort;
    if |trailers| == 0 {
      var end := Config(Done, c.trailers, c.chunks, []);
      ReadsEnd(decode, c);
      DrainStep(decode, c, end);
      DoneWaits(decode, end);
      LinesShortStep(decode, c, end);
      DoneIsShort(decode, end);
      assert c.trailers + TrailersOf(trailers) == c.trailers;
    } else {
      var t, rest := trailers[0], PrintTrailers(trailers[1..]);
      var next := Config(Trailers, c.trailers + [t.trailer], c.chunks, rest);
      ReadsTrailer(decode, c, t, rest);
      DrainStep(decode, c, next);
      LinesShortStep(decode, c, next);
      ReadsTrailers(decode, next, trailers[1..]);
      assert c.trailers + [t.trailer] + TrailersOf(trailers[1..]) == c.trailers + TrailersOf(trailers);
      assert trailers == [t] + trailers[1..];
    }
  }

  /** What a printed stream decodes to. */
  function Decoded(body: seq<Spelled>, end: Spelled, trailers: seq<SpelledTrailer>): Config {
    Config(Done, TrailersOf(trailers), ChunksOf(body) + [end.chunk], [])
  }

  lemma ReadsStream(decode: Decode, body: seq<Spelled>, end: Spelled, trailers: seq<SpelledTrailer>)
    requires Stream(decode, body, end, trailers)
    ensures var c := START.Add(Print(body, end, trailers));
            && Drain(decode, c) == Ok(Decoded(body, end, trailers))
            && (LinesShort(decode, c) <==> ShortBody(body) && |end.line| < MAX_LINE_BYTES && ShortTail(trailers))
  {
    hide Step, WellSpelled, LinesShort, Drain, PrintChunks, PrintTrailers, Body, Tail, ShortBody, ShortTail, ChunksOf, TrailersOf, FindCrlf;
    var rest := end.line + (CRLF + PrintTrailers(trailers));
    var c := START.Add(Print(body, end, trailers));
    assert c.buf == PrintChunks(body) + rest;
    ReadsChunks(decode, c, body, rest);
    assert [] + ChunksOf(body) == ChunksOf(body);
    var atEnd := Config(Header, [], ChunksOf(body), rest);
    var inTrailers := Config(Trailers, [], ChunksOf(body) + [end.chunk], PrintTrailers(trailers));
    ReadsHeader(decode, atEnd, end, PrintTrailers(trailers));
    EndLine(decode, end, PrintTrailers(trailers));
    DrainStep(decode, atEnd, inTrailers);
    LinesShortStep(decode, atEnd, inTrailers);
    ReadsTrailers(decode, inTrailers, trailers);
    assert [] + TrailersOf(trailers) == TrailersOf(trailers);
  }

  lemma EndLine(decode: Decode, end: Spelled, rest: Bytes)
    requires WellSpelled(decode, end)
    ensures FindCrlf(end.line + (CRLF + rest)) == Some(|end.line|)
  {
    LineEnds(end.line, rest);
  }

  /** The decoder inverts the printer, whatever bytes the chunks hold and however their
      sizes are written. */
  lemma PrintParses(decode: Decode, body: seq<Spelled>, end: Spelled, trailers: seq<SpelledTrailer>)
    requires Stream(decode, body, end, trailers)
    ensures Feed(decode, START, Print(body, end, trailers)) == Ok(Decoded(body, end, trailers))
  {
    ReadsStream(decode, body, end, trailers);
  }

  /** A printed stream decodes to what was printed under every cutting, if and only if all
      of its header and trailer lines have at most 8191 bytes. */
  lemma PrintedEveryCut(decode: Decode, body: seq<Spelled>, end: Spelled, trailers: seq<SpelledTrailer>)
    requires Stream(decode, body, end, trailers)
    ensures (forall pieces: seq<Bytes> :: Concat(pieces) == Print(body, end, trailers) ==>
               FeedAll(decode, START, pieces) == Ok(Decoded(body, end, trailers)))
            <==> ShortBody(body) && |end.line| < MAX_LINE_BYTES && ShortTail(trailers)
  {
    hide Stream, LinesShort, Print, FeedAll, Drain, ShortBody, ShortTail, Decoded;
    ReadsStream(decode, body, end, trailers);
    EveryCut(decode, Print(body, end, trailers));
  }

  // ---------------------------------------------------------------- only printed streams end

  ghost predicate PrintsFrom(decode: Decode, c: Config, r: Config, body: seq<Spelled>, end: Spelled, trailers: seq<SpelledTrailer>) {
    && Body(decode, body) && WellSpelled(decode, end) && end.chunk.data == [] && Tail(decode, trailers)
    && c.buf == Print(body, end, trailers)
    && r.chunks == c.chunks + ChunksOf(body) + [end.chunk] && r.trailers == c.trailers + TrailersOf(trailers)
  }

  lemma TakesLine(decode: Decode, c: Config) returns (s: Spelled, rest: Bytes)
    requires Sane(c) && c.state.Header? && Step(decode, c).Go?
    ensures c.buf == s.line + (CRLF + rest) && NoCrlf(s.line) && decode(s.line).Some?
    ensures var next := Step(decode, c).next;
            if next.state.Trailers? then s.chunk.data == [] && WellSpelled(decode, s) && next == Config(Trailers, c.trailers, c.chunks + [s.chunk], rest)
            else exists size :: 0 < size <= MAX_DECLARED_CHUNK && HeaderSays(decode(s.line).value, size, s.chunk.signature)
                                && next == Config(Data(size, s.chunk.signature), c.trailers, c.chunks, rest)
  {
    hide HeaderSays, ParseChunkHeader, FindCrlf;
    var pos := FindCrlf(c.buf).value;
    var line := c.buf[..pos];
    rest := c.buf[pos + 2..];
    FirstLine(c.buf);
    var (size, signature) := HeaderLine(decode, line).value;
    s := Spelled(line, Chunk([], signature));
    HeaderExact(decode(line).value, size, signature);
  }

  lemma FirstLine(buf: Bytes)
    requires FindCrlf(buf).Some?
    ensures var pos := FindCrlf(buf).value;
            pos + 2 <= |buf| && NoCrlf(buf[..pos]) && buf == buf[..pos] + (CRLF + buf[pos + 2..])
  {
    hide FindCrlf, NoCrlf;
    var pos := FindCrlf(buf).value;
    assert CrlfAt(buf, pos);
    BeforeFirst(buf, pos);
    assert buf[pos..pos + 2] == CRLF;
    assert buf == buf[..pos] + (buf[pos..pos + 2] + buf[pos + 2..]);
  }

  lemma BeforeFirst(buf: Bytes, pos: nat)
    requires pos <= |buf| && forall k: nat :: CrlfAt(buf, k) ==> pos <= k
    ensures NoCrlf(buf[..pos])
  {
    forall k: nat ensures !CrlfAt(buf[..pos], k) {
      assert CrlfAt(buf[..pos], k) ==> CrlfAt(buf, k);
    }
  }

  lemma TakesData(decode: Decode, c: Config)
    requires Sane(c) && c.state.Data? && Drain(decode, c).Ok? && Drain(decode, c).value.state.Done?
    ensures var n := c.state.remaining;
            && n + 2 <= |c.buf| && c.buf[n..] == CRLF + c.buf[n + 2..]
            && var next := Config(Header, c.trailers, c.chunks + [Chunk(c.buf[..n], c.state.signature)], c.buf[n + 2..]);
            Sane(next) && Drain(decode, c) == Drain(decode, next)
  {
    hide StepHeader, StepTrailers, Drain;
    var n := c.state.remaining;
    assert Step(decode, c).Go? by { StopsHere(decode, c); }
    var inCrlf := Config(DataCrlf, c.trailers, c.chunks + [Chunk(c.buf[..n], c.state.signature)], c.buf[n..]);
    DrainStep(decode, c, inCrlf);
    assert Step(decode, inCrlf).Go? by { StopsHere(decode, inCrlf); }
    assert inCrlf.buf[..2] == CRLF && inCrlf.buf[2..] == c.buf[n + 2..];
    DrainStep(decode, inCrlf, Config(Header, inCrlf.trailers, inCrlf.chunks, c.buf[n + 2..]));
  }

  /** What waits is not done, and what fails yields nothing. */
  lemma StopsHere(decode: Decode, c: Config)
    requires Sane(c) && !c.state.Done? && Drain(decode, c).Ok? && Drain(decode, c).value.state.Done?
    ensures Step(decode, c).Go?
  {
  }

  lemma {:induction false} EndsInTrailers(decode: Decode, c: Config, r: Config) returns (trailers: seq<SpelledTrailer>)
    requires Sane(c) && c.state.Trailers? && Drain(decode, c) == Ok(r) && r.state.Done?
    ensures Tail(decode, trailers) && c.buf == PrintTrailers(trailers)
    ensures r.chunks == c.chunks && r.trailers == c.trailers + TrailersOf(trailers)
    decreases |c.buf|
  {
    hide Step, WellSpelledTrailer, FindCrlf;
    StopsHere(decode, c);
    StepConsumes(decode, c);
    var next := Step(decode, c).next;
    DrainStep(decode, c, next);
    var t := TakesTrailer(decode, c, next);
    if next.state.Done? {
      DoneWaits(decode, next);
      trailers := [];
      assert c.trailers + TrailersOf([]) == c.trailers;
    } else {
      var more := EndsInTrailers(decode, next, r);
      trailers := [t] + more;
      assert trailers[1..] == more;
      assert next.trailers + TrailersOf(more) == c.trailers + TrailersOf(trailers);
    }
  }

  lemma TakesTrailer(decode: Decode, c: Config, next: Config) returns (t: SpelledTrailer)
    requires Sane(c) && c.state.Trailers? && Step(decode, c) == Go(next)
    ensures next.chunks == c.chunks && (next.state.Trailers? || next.state.Done?)
    ensures next.state.Done? ==> c.buf == CRLF && next.trailers == c.trailers
    ensures next.state.Trailers? ==> WellSpelledTrailer(decode, t) && c.buf == t.line + (CRLF + next.buf) && next.trailers == c.trailers + [t.trailer]
  {
    hide TrailerSays, FindCrlf, TrailerLine;
    FirstLine(c.buf);
    var pos := FindCrlf(c.buf).value;
    var line := c.buf[..pos];
    if pos == 0 {
      t := SpelledTrailer([], ("", ""));
    } else {
      t := SpelledTrailer(line, TrailerLine(decode, line).value);
      TrailerExact(decode, line, t.trailer);
    }
  }

  lemma {:induction false} EndsInChunks(decode: Decode, c: Config, r: Config)
      returns (body: seq<Spelled>, end: Spelled, trailers: seq<SpelledTrailer>)
    requires Sane(c) && c.state.Header? && Drain(decode, c) == Ok(r) && r.state.Done?
    ensures PrintsFrom(decode, c, r, body, end, trailers)
    decreases |c.buf|
  {
    hide Step, HeaderSays, Drain, Tail, TrailersOf, PrintTrailers, NoCrlf;
    StopsHere(decode, c);
    StepConsumes(decode, c);
    var next := Step(decode, c).next;
    DrainStep(decode, c, next);
    var s, rest := TakesLine(decode, c);
    if next.state.Trailers? {
      trailers := EndsInTrailers(decode, next, r);
      body, end := [], s;
      assert c.chunks + ChunksOf([]) == c.chunks && [] + c.buf == c.buf;
    } else {
      var first, after := TakesChunk(decode, c, next, s, rest);
      var more;
      more, end, trailers := EndsInChunks(decode, after, r);
      body := [first] + more;
      PrintsMore(decode, c, r, first, after, more, end, trailers);
    }
  }

  /** A chunk that is read whole: its header line, its data and the CRLF behind it. */
  lemma TakesChunk(decode: Decode, c: Config, next: Config, s: Spelled, rest: Bytes) returns (first: Spelled, after: Config)
    requires Sane(next) && next.state.Data? && Drain(decode, next).Ok? && Drain(decode, next).value.state.Done?
    requires c.buf == s.line + (CRLF + rest) && NoCrlf(s.line) && decode(s.line).Some?
    requires next == Config(Data(next.state.remaining, s.chunk.signature), c.trailers, c.chunks, rest)
    requires HeaderSays(decode(s.line).value, next.state.remaining, s.chunk.signature)
    ensures WellSpelled(decode, first) && first.chunk.data != []
    ensures c.buf == first.line + (CRLF + (first.chunk.data + (CRLF + after.buf)))
    ensures after == Config(Header, c.trailers, c.chunks + [first.chunk], after.buf)
    ensures Sane(after) && Drain(decode, after) == Drain(decode, next) && |after.buf| < |rest|
  {
    hide HeaderSays, Drain, NoCrlf;
    TakesData(decode, next);
    var n := next.state.remaining;
    first := s.(chunk := Chunk(rest[..n], s.chunk.signature));
    after := Config(Header, c.trailers, c.chunks + [first.chunk], rest[n + 2..]);
    assert rest == rest[..n] + (CRLF + rest[n + 2..]);
  }

  lemma PrintsMore(decode: Decode, c: Config, r: Config, first: Spelled, after: Config, more: seq<Spelled>, end: Spelled,
                   trailers: seq<SpelledTrailer>)
    requires WellSpelled(decode, first) && first.chunk.data != [] && PrintsFrom(decode, after, r, more, end, trailers)
    requires c.buf == first.line + (CRLF + (first.chunk.data + (CRLF + after.buf)))
    requires after.trailers == c.trailers && after.chunks == c.chunks + [first.chunk]
    ensures PrintsFrom(decode, c, r, [first] + more, end, trailers)
  {
    hide WellSpelled, Tail, TrailersOf, PrintTrailers;
    var body := [first] + more;
    assert body[1..] == more;
    Regroup(first, PrintChunks(more), end.line + (CRLF + PrintTrailers(trailers)));
    assert c.chunks + ChunksOf(body) == after.chunks + ChunksOf(more);
  }

  /** The streams that the decoder reads to their end are exactly the printed ones. */
  lemma DecodesExactly(decode: Decode, whole: Bytes, r: Config)
    requires r.state.Done?
    ensures Feed(decode, START, whole) == Ok(r)
            <==> exists body, end, trailers :: Stream(decode, body, end, trailers) && whole == Print(body, end, trailers) && r == Decoded(body, end, trailers)
  {
    hide WellSpelled, Drain, Body, Tail, Print, TrailersOf, ChunksOf;
    if Feed(decode, START, whole) == Ok(r) {
      var c := START.Add(whole);
      assert c.buf == whole;
      var body, end, trailers := EndsInChunks(decode, c, r);
      assert [] + ChunksOf(body) == ChunksOf(body) && [] + TrailersOf(trailers) == TrailersOf(trailers);
      CountTrailers(trailers);
      assert Stream(decode, body, end, trailers) && r == Decoded(body, end, trailers);
    }
    forall body, end, trailers | Stream(decode, body, end, trailers) && whole == Print(body, end, trailers) && r == Decoded(body, end, trailers)
      ensures Feed(decode, START, whole) == Ok(r)
    {
      PrintParses(decode, body, end, trailers);
    }
  }

  lemma CountTrailers(trailers: seq<SpelledTrailer>)
    ensures |TrailersOf(trailers)| == |trailers|
  {
  }

  // ---------------------------------------------------------------- a stream that cannot be cut anywhere

  /** All that is asked of the UTF-8 decoder here. */
  ghost predicate DecodesAscii(decode: Decode) {
    forall s :: IsAscii(s) ==> decode(Ascii(s)) == Some(s)
  }

  /** A size of zero, written with `n` zeros. */
  function Zeros(n: nat): (s: string)
    ensures |s| == n && IsAscii(s)
  {
    seq(n, _ => '0')
  }

  lemma {:induction false} ZeroDigits(n: nat)
    ensures Positional(seq(n, _ => 0), 16) == 0
  {
    if n > 0 {
      ZeroDigits(n - 1);
      assert seq<nat>(n, _ => 0)[1..] == seq(n - 1, _ => 0);
    }
  }

  lemma ZerosDenote(n: nat)
    requires n > 0
    ensures Denotes(Zeros(n), 16, 0) && Tight(Zeros(n)) && ';' !in Zeros(n)
  {
    var ds := seq<nat>(n, _ => 0);
    assert IsDigit('0', 0);
    ZeroDigits(n);
    assert Spells(Zeros(n), ds, 16);
  }

  lemma ZerosSay(decode: Decode, n: nat)
    requires DecodesAscii(decode) && n > 0
    ensures WellSpelled(decode, Spelled(Ascii(Zeros(n)), Chunk([], None)))
  {
    hide Denotes;
    var zeros := Zeros(n);
    ZerosDenote(n);
    TrimUnique("", zeros, "");
    assert "" + zeros + "" == zeros;
    assert Heads(zeros, zeros, "") && Claims("", None);
    NoReturns(n);
  }

  lemma NoReturns(n: nat)
    ensures NoCrlf(Ascii(Zeros(n)))
  {
  }

  /** A stream with a line of 8192 bytes decodes in one feed and fails under some cutting. */
  lemma CuttingMatters(decode: Decode) returns (whole: Bytes, pieces: seq<Bytes>)
    requires DecodesAscii(decode)
    ensures Concat(pieces) == whole && Feed(decode, START, whole).Ok? && FeedAll(decode, START, pieces).Err?
  {
    hide WellSpelled, Drain, LinesShort, Zeros, Print;
    var end := Spelled(Ascii(Zeros(MAX_LINE_BYTES)), Chunk([], None));
    ZerosSay(decode, MAX_LINE_BYTES);
    whole := Print([], end, []);
    ReadsStream(decode, [], end, []);
    var c := START.Add(whole);
    var n := LongLineFails(decode, c);
    assert c.buf == whole;
    TwoPieces(decode, whole, n);
    pieces := [whole[..n], whole[n..]];
  }
}
