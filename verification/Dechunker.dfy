/** The streaming aws-chunked decoder, which refines the steps of the wire format. */
module Dechunker {
  import opened Bytes
  import opened ChunkedWire
  import opened ChunkedCuts

  /** What a step of the decoder reports, given what the wire format prescribes. */
  ghost predicate Reports(decode: Decode, before: Config, after: Config, r: Result<bool, ChunkedError>) {
    match Step(decode, before)
    case Go(next) => after == next && r == Ok(!next.state.Done?)
    case Wait => after == before && r == Ok(false)
    case Fail(e) => r == Err(e)
  }

  class Dechunker {
    const decode: Decode
    var buf: Bytes
    var state: State
    var trailers: seq<(string, string)>
    ghost var decoded: seq<Chunk>

    ghost function Now(): Config
      reads this
    {
      Config(state, trailers, decoded, buf)
    }

    constructor (decode: Decode)
      ensures Now() == START && this.decode == decode
    {
      this.decode := decode;
      buf, state, trailers, decoded := [], Header, [], [];
    }

    predicate IsDone()
      reads this
    {
      state.Done?
    }

    method StepHeader() returns (r: Result<bool, ChunkedError>, out: seq<Chunk>)
      requires state.Header? && Sane(Now())
      modifies this
      ensures decoded == old(decoded) + out && Reports(decode, old(Now()), Now(), r)
    {
      hide HeaderLine, FindCrlf;
      out := [];
      var end := FindCrlf(buf);
      if end.None? {
        return if |buf| > MAX_LINE_BYTES then Err(MalformedHeader) else Ok(false), out;
      }
      var header := HeaderLine(decode, buf[..end.value]);
      if header.Err? {
        return Err(header.error), out;
      }
      var (size, signature) := header.value;
      buf := buf[end.value + 2..];
      if size == 0 {
        state := Trailers;
        out := [Chunk([], signature)];
        decoded := decoded + out;
      } else {
        state := Data(size, signature);
      }
      r := Ok(true);
    }

    method StepData() returns (r: Result<bool, ChunkedError>, out: seq<Chunk>)
      requires state.Data? && Sane(Now())
      modifies this
      ensures decoded == old(decoded) + out && Reports(decode, old(Now()), Now(), r)
    {
      if |buf| < state.remaining {
        return Ok(false), [];
      }
      out := [Chunk(buf[..state.remaining], state.signature)];
      buf := buf[state.remaining..];
      state := DataCrlf;
      decoded := decoded + out;
      r := Ok(true);
    }

    method StepDataCrlf() returns (r: Result<bool, ChunkedError>, out: seq<Chunk>)
      requires state.DataCrlf? && Sane(Now())
      modifies this
      ensures decoded == old(decoded) + out && Reports(decode, old(Now()), Now(), r)
    {
      out := [];
      if |buf| < 2 {
        return Ok(false), out;
      }
      if buf[..2] != CRLF {
        return Err(MissingCrlf), out;
      }
      buf := buf[2..];
      state := Header;
      r := Ok(true);
    }

    method StepTrailers() returns (r: Result<bool, ChunkedError>, out: seq<Chunk>)
      requires state.Trailers? && Sane(Now())
      modifies this
      ensures decoded == old(decoded) + out && Reports(decode, old(Now()), Now(), r)
    {
      hide TrailerLine, FindCrlf;
      out := [];
      var end := FindCrlf(buf);
      if end.None? {
        return if |buf| > MAX_LINE_BYTES then Err(MalformedTrailer) else Ok(false), out;
      }
      var line := buf[..end.value];
      buf := buf[end.value + 2..];
      if line == [] {
        state := Done;
        return if buf != [] then Err(AlreadyDone) else Ok(false), out;
      }
      if |trailers| >= MAX_TRAILERS {
        return Err(MalformedTrailer), out;
      }
      var trailer := TrailerLine(decode, line);
      if trailer.Err? {
        return Err(trailer.error), out;
      }
      trailers := trailers + [trailer.value];
      r := Ok(true);
    }

    method Feed(bytes: Bytes) returns (r: Result<seq<Chunk>, ChunkedError>)
      requires Sane(Now())
      modifies this
      ensures match ChunkedWire.Feed(decode, old(Now()), bytes)
              case Ok(c) => Now() == c && r.Ok? && decoded == old(decoded) + r.value
              case Err(e) => r == Err(e)
    {
      hide Step;
      if state.Done? && bytes != [] {
        return Err(AlreadyDone);
      }
      buf := buf + bytes;
      ghost var start := Now();
      var out := [];
      var more := true;
      while more
        invariant Sane(Now()) && decoded == old(decoded) + out
        invariant if more then Drain(decode, Now()) == Drain(decode, start) else Drain(decode, start) == Ok(Now())
        decreases more, |buf|
      {
        ghost var before := Now();
        var result, produced := Ok(false), [];
        match state {
          case Header => result, produced := StepHeader();
          case Data(_, _) => result, produced := StepData();
          case DataCrlf => result, produced := StepDataCrlf();
          case Trailers => result, produced := StepTrailers();
          case Done => DoneWaits(decode, Now());
        }
        if result.Err? {
          return Err(result.error);
        }
        StepTaken(decode, before, Now());
        out := out + produced;
        more := result.value;
      }
      r := Ok(out);
    }
  }

  lemma StepTaken(decode: Decode, before: Config, after: Config)
    requires Sane(before) && (Step(decode, before) == Go(after) || (Step(decode, before) == Wait && after == before))
    ensures Sane(after) && Drain(decode, before) == Drain(decode, after)
    ensures Step(decode, before) == Go(after) ==> |after.buf| < |before.buf|
    ensures Step(decode, before) == Wait || after.state.Done? ==> Drain(decode, before) == Ok(after)
  {
    if Step(decode, before).Go? {
      StepConsumes(decode, before);
    }
    if after.state.Done? {
      DoneWaits(decode, after);
    }
  }
}
