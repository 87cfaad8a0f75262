/** The aws-chunked wire format: its lines, and one step of the decoder on the bytes it
    holds. UTF-8 decoding is a parameter. */
module ChunkedWire {
  import opened Bytes
  import opened Text
  import opened Numerals

  const MAX_DECLARED_CHUNK: nat := 64 * 1024 * 1024
  const MAX_LINE_BYTES: nat := 8 * 1024
  const MAX_TRAILERS: nat := 32
  const CR: byte := 13
  const LF: byte := 10
  const CRLF: Bytes := [CR, LF]

  datatype ChunkedError = MalformedHeader | ChunkTooLarge | MissingCrlf | MalformedTrailer | AlreadyDone

  /** Decodes a line, unless it is not UTF-8. */
  type Decode = Bytes -> Option<string>

  // ---------------------------------------------------------------- lines

  predicate CrlfAt(buf: Bytes, k: nat) {
    k + 1 < |buf| && buf[k] == CR && buf[k + 1] == LF
  }

  /** The first CRLF. */
  function FindCrlf(buf: Bytes): (r: Option<nat>)
    ensures r.Some? ==> CrlfAt(buf, r.value)
    ensures forall k: nat :: CrlfAt(buf, k) ==> r.Some? && r.value <= k
  {
    if |buf| < 2 then None
    else if buf[0] == CR && buf[1] == LF then Some(0)
    else
      var rest := FindCrlf(buf[1..]);
      assert forall k: nat :: CrlfAt(buf, k) && k > 0 ==> CrlfAt(buf[1..], k - 1);
      if rest.Some? then Some(rest.value + 1) else None
  }

  /** A 64-bit hexadecimal number. */
  function ParseHex(s: string): Option<nat> {
    ParseUnsigned(s, 16, TWO_64)
  }

  const SIGNATURE_EXTENSION: string := "chunk-signature="

  /** `hex-size[;chunk-signature=...]`. */
  function ParseChunkHeader(line: string): (r: Result<(nat, Option<string>), ChunkedError>)
    ensures r.Ok? ==> r.value.0 <= MAX_DECLARED_CHUNK
  {
    var (sizeHex, rest) := match SplitOnce(line, ';') case Some(pair) => pair case None => (line, "");
    match ParseHex(Trim(sizeHex))
    case None => Err(MalformedHeader)
    case Some(size) =>
      if size > MAX_DECLARED_CHUNK then Err(ChunkTooLarge)
      else if rest == "" then Ok((size, None))
      else if SIGNATURE_EXTENSION <= rest then Ok((size, Some(Trim(rest[|SIGNATURE_EXTENSION|..]))))
      else Err(MalformedHeader)
  }

  function HeaderLine(decode: Decode, line: Bytes): Result<(nat, Option<string>), ChunkedError> {
    match decode(line)
    case None => Err(MalformedHeader)
    case Some(text) => ParseChunkHeader(text)
  }

  function TrailerLine(decode: Decode, line: Bytes): Result<(string, string), ChunkedError> {
    match decode(line)
    case None => Err(MalformedTrailer)
    case Some(text) =>
      match SplitOnce(text, ':')
      case None => Err(MalformedTrailer)
      case Some((name, value)) => Ok((Trim(name), Trim(value)))
  }

  // ---------------------------------------------------------------- one step

  datatype State =
    | Header
    | Data(remaining: nat, signature: Option<string>)
    | DataCrlf
    | Trailers
    | Done

  /** A chunk's data with the signature it claims. */
  datatype Chunk = Chunk(data: Bytes, signature: Option<string>)

  /** Everything decoded so far and the bytes still to be looked at. */
  datatype Config = Config(state: State, trailers: seq<(string, string)>, chunks: seq<Chunk>, buf: Bytes) {
    function Drop(n: nat): Config
      requires n <= |buf|
    {
      this.(buf := buf[n..])
    }

    function Add(bytes: Bytes): Config {
      this.(buf := buf + bytes)
    }
  }

  const START: Config := Config(Header, [], [], [])

  /** A step goes on, waits for more bytes, or fails. */
  datatype Outcome = Go(next: Config) | Wait | Fail(error: ChunkedError)

  predicate Sane(c: Config) {
    && (c.state.Data? ==> 0 < c.state.remaining <= MAX_DECLARED_CHUNK) && (c.state.Done? ==> c.buf == [])
    && |c.trailers| <= MAX_TRAILERS
  }

  function AwaitLine(c: Config, error: ChunkedError): Outcome {
    if |c.buf| > MAX_LINE_BYTES then Fail(error) else Wait
  }

  function StepHeader(decode: Decode, c: Config): Outcome {
    match FindCrlf(c.buf)
    case None => AwaitLine(c, MalformedHeader)
    case Some(pos) =>
      match HeaderLine(decode, c.buf[..pos])
      case Err(e) => Fail(e)
      case Ok((size, signature)) =>
        var rest := c.Drop(pos + 2);
        if size == 0 then Go(rest.(state := Trailers, chunks := c.chunks + [Chunk([], signature)]))
        else Go(rest.(state := Data(size, signature)))
  }

  function StepData(c: Config): Outcome
    requires c.state.Data?
  {
    if |c.buf| < c.state.remaining then Wait
    else Go(c.Drop(c.state.remaining)
             .(state := DataCrlf, chunks := c.chunks + [Chunk(c.buf[..c.state.remaining], c.state.signature)]))
  }

  function StepDataCrlf(c: Config): Outcome {
    if |c.buf| < 2 then Wait
    else if c.buf[..2] != CRLF then Fail(MissingCrlf)
    else Go(c.Drop(2).(state := Header))
  }

  function StepTrailers(decode: Decode, c: Config): Outcome {
    match FindCrlf(c.buf)
    case None => AwaitLine(c, MalformedTrailer)
    case Some(pos) =>
      var rest := c.Drop(pos + 2);
      if pos == 0 then (if rest.buf == [] then Go(rest.(state := Done)) else Fail(AlreadyDone))
      else if |c.trailers| >= MAX_TRAILERS then Fail(MalformedTrailer)
      else
        match TrailerLine(decode, c.buf[..pos])
        case Err(e) => Fail(e)
        case Ok(trailer) => Go(rest.(trailers := c.trailers + [trailer]))
  }

  function Step(decode: Decode, c: Config): Outcome {
    match c.state
    case Header => StepHeader(decode, c)
    case Data(_, _) => StepData(c)
    case DataCrlf => StepDataCrlf(c)
    case Trailers => StepTrailers(decode, c)
    case Done => Wait
  }

  /** Every step that goes on consumes bytes. */
  lemma StepConsumes(decode: Decode, c: Config)
    requires Sane(c) && Step(decode, c).Go?
    ensures var next := Step(decode, c).next;
            Sane(next) && |next.buf| < |c.buf| && next.buf == c.buf[|c.buf| - |next.buf|..] && c.chunks <= next.chunks
  {
  }

  /** Which errors a decoder reports where: a line that does not end in time is malformed, a
      chunk must end with CRLF, and nothing may follow the empty line at the end. */
  lemma StepFails(decode: Decode, c: Config)
    ensures Step(decode, c).Fail? ==>
              match c.state
              case Header => Step(decode, c).error in {MalformedHeader, ChunkTooLarge}
              case Data(_, _) => false
              case DataCrlf => Step(decode, c).error == MissingCrlf && |c.buf| >= 2 && c.buf[..2] != CRLF
              case Trailers => Step(decode, c).error == if CRLF < c.buf then AlreadyDone else MalformedTrailer
              case Done => false
    ensures (c.state.Header? || c.state.Trailers?) && FindCrlf(c.buf).None? ==> (Step(decode, c).Fail? <==> |c.buf| > MAX_LINE_BYTES)
  {
    hide ParseUnsigned, Trim, SplitOnce;
    if c.state.Trailers? && FindCrlf(c.buf).Some? {
      assert FindCrlf(c.buf).value == 0 <==> CrlfAt(c.buf, 0);
    }
    assert CRLF <= c.buf <==> CrlfAt(c.buf, 0);
  }

  /** The steps that the held bytes allow. */
  function Drain(decode: Decode, c: Config): (r: Result<Config, ChunkedError>)
    requires Sane(c)
    ensures r.Ok? ==> Sane(r.value) && Step(decode, r.value) == Wait && c.chunks <= r.value.chunks
    decreases |c.buf|
  {
    match Step(decode, c)
    case Wait => Ok(c)
    case Fail(e) => Err(e)
    case Go(next) =>
      StepConsumes(decode, c);
      Drain(decode, next)
  }

  /** One feed: more bytes arrive. */
  function Feed(decode: Decode, c: Config, bytes: Bytes): (r: Result<Config, ChunkedError>)
    requires Sane(c)
    ensures r.Ok? ==> Sane(r.value) && Step(decode, r.value) == Wait && c.chunks <= r.value.chunks
  {
    if c.state.Done? && bytes != [] then Err(AlreadyDone) else Drain(decode, c.Add(bytes))
  }

  /** Feeds of several pieces, up to the first failure. */
  function FeedAll(decode: Decode, c: Config, pieces: seq<Bytes>): (r: Result<Config, ChunkedError>)
    requires Sane(c)
    ensures r.Ok? ==> Sane(r.value) && c.chunks <= r.value.chunks
  {
    if |pieces| == 0 then Ok(c)
    else
      match FeedAll(decode, c, pieces[..|pieces| - 1])
      case Err(e) => Err(e)
      case Ok(before) => Feed(decode, before, pieces[|pieces| - 1])
  }
}
