/** The sans-io streaming encryptor and decryptor of one part. Each object keeps,
    as ghost history, everything it was fed and everything it released, so that
    its state is a function of the concatenation of its pushes. */
module FrameCodec {
  import opened Bytes
  import opened Cipher
  import opened FrameSpec

  class Encryptor {
    const g: Geometry
    const seal: Sealer
    var chunkIndex: nat
    var buf: Bytes
    ghost var fed: Bytes
    ghost var released: Bytes

    ghost predicate Valid()
      reads this
    {
      && g.chunkSize > 0
      && buf == Tail(g.chunkSize, fed)
      && chunkIndex == Ready(g.chunkSize, |fed|)
      && released == Emitted(g, seal, 0, fed)
    }

    constructor (g: Geometry, seal: Sealer)
      requires g.chunkSize > 0
      ensures Valid() && this.g == g && this.seal == seal && fed == [] && released == []
    {
      this.g, this.seal := g, seal;
      chunkIndex, buf := 0, [];
      fed, released := [], [];
    }

    /** Feeds plaintext and returns the frames of the `Ready` chunks; the `Tail` behind
        them stays in the buffer until more arrives or the stream is finished. */
    method Push(data: Bytes) returns (out: Bytes)
      requires Valid()
      modifies this
      ensures Valid() && fed == old(fed) + data && released == old(released) + out
      ensures |buf| <= g.chunkSize
    {
      hide Tail, Ready, Emitted;
      TailAppend(g.chunkSize, fed, data);
      EmittedAppend(g, seal, 0, fed, data);
      buf := buf + data;
      fed := fed + data;
      out := [];
      ghost var todo := buf;
      while |buf| > g.chunkSize
        invariant Tail(g.chunkSize, buf) == Tail(g.chunkSize, todo)
        invariant chunkIndex + Ready(g.chunkSize, |buf|) == old(chunkIndex) + Ready(g.chunkSize, |todo|)
        invariant out + Emitted(g, seal, chunkIndex, buf) == Emitted(g, seal, old(chunkIndex), todo)
        invariant fed == old(fed) + data && released == old(released)
        decreases |buf|
      {
        EmitStep(g, seal, chunkIndex, buf);
        out := out + seal(chunkIndex, false, buf[..g.chunkSize]);
        buf := buf[g.chunkSize..];
        chunkIndex := chunkIndex + 1;
      }
      EmitEnd(g, seal, chunkIndex, buf);
      released := released + out;
    }

    /** Seals what remains as the final frame: with the frames released before it,
        that is the ciphertext of everything fed, however it was cut. */
    method Finish() returns (out: Bytes)
      requires Valid()
      ensures released + out == EncryptAll(g, seal, fed)
    {
      FramesSplit(g, seal, 0, fed);
      out := seal(chunkIndex, true, buf);
    }
  }

  class Decryptor {
    const g: Geometry
    const open: Opener
    const first: nat
    const endsObject: bool
    var chunkIndex: nat
    var buf: Bytes
    ghost var fed: Bytes
    ghost var released: Bytes

    ghost predicate Valid()
      reads this
    {
      && g.chunkSize > 0
      && buf == Tail(g.FrameSize(), fed)
      && chunkIndex == first + Ready(g.FrameSize(), |fed|)
      && Opened(g, open, first, fed) == Some(released)
    }

    /** Starts at chunk `first`; `endsObject` says whether the last frame that will be
        fed was sealed as the final one. A whole part is `(0, true)`. */
    constructor (g: Geometry, open: Opener, first: nat, endsObject: bool)
      requires g.chunkSize > 0
      ensures Valid() && this.g == g && this.open == open && this.first == first && this.endsObject == endsObject
      ensures fed == [] && released == []
    {
      this.g, this.open, this.first, this.endsObject := g, open, first, endsObject;
      chunkIndex, buf := first, [];
      fed, released := [], [];
    }

    /** Feeds ciphertext. Succeeds exactly when every frame strictly before the end of
        what was fed opens, and then returns their plaintext; a failure releases nothing. */
    method Push(data: Bytes) returns (r: Result<Bytes, Error>)
      requires Valid()
      modifies this
      ensures fed == old(fed) + data
      ensures r.Ok? <==> Opened(g, open, first, fed).Some?
      ensures r.Ok? ==> Valid() && released == old(released) + r.value
      ensures r.Err? ==> released == old(released)
    {
      hide Tail, Ready, Opened, Joined;
      var fs := g.FrameSize();
      TailAppend(fs, fed, data);
      OpenedAppend(g, open, first, fed, data);
      buf := buf + data;
      fed := fed + data;
      var out := [];
      ghost var todo := buf;
      JoinedLaws(Opened(g, open, chunkIndex, buf), None, None);
      while |buf| > fs
        invariant Tail(fs, buf) == Tail(fs, todo)
        invariant chunkIndex + Ready(fs, |buf|) == old(chunkIndex) + Ready(fs, |todo|)
        invariant Joined(Some(out), Opened(g, open, chunkIndex, buf)) == Opened(g, open, old(chunkIndex), todo)
        invariant fed == old(fed) + data && released == old(released)
        decreases |buf|
      {
        OpenStep(g, open, chunkIndex, buf);
        var frame := open(chunkIndex, false, buf[..fs]);
        if frame.Err? {
          NothingJoined(Some(out), Opened(g, open, first, old(fed)));
          return Err(frame.error);
        }
        JoinedLaws(Some(out), Some(frame.value), Opened(g, open, chunkIndex + 1, buf[fs..]));
        BothJoined(frame.value, [], out);
        buf := buf[fs..];
        out := out + frame.value;
        chunkIndex := chunkIndex + 1;
      }
      OpenEnd(g, open, chunkIndex, buf);
      BothJoined(out, [], released);
      released := released + out;
      r := Ok(out);
    }

    /** Opens the frame that remains. */
    method Finish() returns (r: Result<Bytes, Error>)
      requires Valid()
      ensures r == open(first + Ready(g.FrameSize(), |fed|), endsObject, Tail(g.FrameSize(), fed))
    {
      r := open(chunkIndex, endsObject, buf);
    }
  }
}
