/** What the streaming codec computes, stated without its buffers: the frames of
    the consecutive chunks of a plaintext, and what opening a run of frames yields. */
module FrameSpec {
  import opened Bytes
  import opened Cipher
  import opened SizeMath

  // ---------------------------------------------------------------- sealing

  /** The frames of a whole plaintext from chunk index `i` on: full chunks, then
      one final, last-flagged frame that is empty only for an empty plaintext. */
  function Frames(g: Geometry, seal: Sealer, i: nat, pt: Bytes): Bytes
    requires g.chunkSize > 0
    decreases |pt|
  {
    if |pt| <= g.chunkSize then seal(i, true, pt)
    else seal(i, false, pt[..g.chunkSize]) + Frames(g, seal, i + 1, pt[g.chunkSize..])
  }

  /** The ciphertext of a whole plaintext. */
  function EncryptAll(g: Geometry, seal: Sealer, pt: Bytes): Bytes
    requires g.chunkSize > 0
  {
    Frames(g, seal, 0, pt)
  }

  /** The frames that can be sealed before the end of the plaintext is known: all
      chunks strictly before the last `chunkSize` bytes. */
  function Emitted(g: Geometry, seal: Sealer, i: nat, fed: Bytes): Bytes
    requires g.chunkSize > 0
    decreases |fed|
  {
    if |fed| <= g.chunkSize then []
    else seal(i, false, fed[..g.chunkSize]) + Emitted(g, seal, i + 1, fed[g.chunkSize..])
  }

  /** How many blocks of `size` lie strictly before the end, and the bytes after them. */
  function Ready(size: nat, len: nat): nat
    requires size > 0
  {
    if len <= size then 0 else 1 + Ready(size, len - size)
  }

  function Tail(size: nat, fed: Bytes): (t: Bytes)
    requires size > 0
    ensures |t| <= size
    decreases |fed|
  {
    if |fed| <= size then fed else Tail(size, fed[size..])
  }

  lemma {:induction false} TailAppend(size: nat, a: Bytes, b: Bytes)
    requires size > 0
    ensures Tail(size, a + b) == Tail(size, Tail(size, a) + b)
    ensures Ready(size, |a + b|) == Ready(size, |a|) + Ready(size, |Tail(size, a) + b|)
    decreases |a|
  {
    if |a| > size {
      assert (a + b)[size..] == a[size..] + b;
      TailAppend(size, a[size..], b);
    }
  }

  lemma {:induction false} EmittedAppend(g: Geometry, seal: Sealer, i: nat, a: Bytes, b: Bytes)
    requires g.chunkSize > 0
    ensures Emitted(g, seal, i, a + b)
            == Emitted(g, seal, i, a) + Emitted(g, seal, i + Ready(g.chunkSize, |a|), Tail(g.chunkSize, a) + b)
    decreases |a|
  {
    if |a| > g.chunkSize {
      assert (a + b)[g.chunkSize..] == a[g.chunkSize..] + b;
      assert (a + b)[..g.chunkSize] == a[..g.chunkSize];
      EmittedAppend(g, seal, i + 1, a[g.chunkSize..], b);
    }
  }

  /** One more full chunk taken off the front. */
  lemma EmitStep(g: Geometry, seal: Sealer, i: nat, buf: Bytes)
    requires g.chunkSize > 0 && |buf| > g.chunkSize
    ensures var rest := buf[g.chunkSize..];
            && Emitted(g, seal, i, buf) == seal(i, false, buf[..g.chunkSize]) + Emitted(g, seal, i + 1, rest)
            && Tail(g.chunkSize, buf) == Tail(g.chunkSize, rest)
            && Ready(g.chunkSize, |buf|) == 1 + Ready(g.chunkSize, |rest|)
  {
  }

  lemma EmitEnd(g: Geometry, seal: Sealer, i: nat, buf: Bytes)
    requires g.chunkSize > 0 && |buf| <= g.chunkSize
    ensures Emitted(g, seal, i, buf) == [] && Tail(g.chunkSize, buf) == buf && Ready(g.chunkSize, |buf|) == 0
  {
  }

  lemma {:induction false} FramesSplit(g: Geometry, seal: Sealer, i: nat, pt: Bytes)
    requires g.chunkSize > 0
    ensures Frames(g, seal, i, pt)
            == Emitted(g, seal, i, pt) + seal(i + Ready(g.chunkSize, |pt|), true, Tail(g.chunkSize, pt))
    decreases |pt|
  {
    if |pt| > g.chunkSize {
      FramesSplit(g, seal, i + 1, pt[g.chunkSize..]);
    }
  }

  // ---------------------------------------------------------------- opening

  /** Puts the result of opening one run of frames before that of the next. */
  function Joined(a: Option<Bytes>, b: Option<Bytes>): Option<Bytes> {
    if a.Some? && b.Some? then Some(a.value + b.value) else None
  }

  lemma JoinedLaws(a: Option<Bytes>, b: Option<Bytes>, c: Option<Bytes>)
    ensures Joined(Joined(a, b), c) == Joined(a, Joined(b, c)) && Joined(Some([]), a) == a
  {
    if a.Some? {
      assert [] + a.value == a.value;
    }
    if a.Some? && b.Some? && c.Some? {
      assert a.value + b.value + c.value == a.value + (b.value + c.value);
    }
  }

  lemma NothingJoined(a: Option<Bytes>, b: Option<Bytes>)
    ensures Joined(a, None) == None && Joined(b, Joined(a, None)) == None
  {
  }

  lemma BothJoined(out: Bytes, nothing: Bytes, released: Bytes)
    requires nothing == []
    ensures Joined(Some(out), Some(nothing)) == Some(out) && Joined(Some(released), Some(out)) == Some(released + out)
  {
    assert out + nothing == out;
  }

  /** Opens every frame that lies strictly before the end, none flagged last. */
  function Opened(g: Geometry, open: Opener, i: nat, fed: Bytes): Option<Bytes>
    requires g.chunkSize > 0
    decreases |fed|
  {
    if |fed| <= g.FrameSize() then Some([])
    else
      match open(i, false, fed[..g.FrameSize()])
      case Err(_) => None
      case Ok(msg) => Joined(Some(msg), Opened(g, open, i + 1, fed[g.FrameSize()..]))
  }

  /** One more frame taken off the front. */
  lemma OpenStep(g: Geometry, open: Opener, i: nat, buf: Bytes)
    requires g.chunkSize > 0 && |buf| > g.FrameSize()
    ensures var fs := g.FrameSize();
            && (match open(i, false, buf[..fs])
                case Err(_) => Opened(g, open, i, buf) == None
                case Ok(msg) => Opened(g, open, i, buf) == Joined(Some(msg), Opened(g, open, i + 1, buf[fs..])))
            && Tail(fs, buf) == Tail(fs, buf[fs..]) && Ready(fs, |buf|) == 1 + Ready(fs, |buf[fs..]|)
  {
  }

  lemma OpenEnd(g: Geometry, open: Opener, i: nat, buf: Bytes)
    requires g.chunkSize > 0 && |buf| <= g.FrameSize()
    ensures Opened(g, open, i, buf) == Some([]) && Tail(g.FrameSize(), buf) == buf && Ready(g.FrameSize(), |buf|) == 0
  {
  }

  lemma {:induction false} OpenedAppend(g: Geometry, open: Opener, i: nat, a: Bytes, b: Bytes)
    requires g.chunkSize > 0
    ensures Opened(g, open, i, a + b)
            == Joined(Opened(g, open, i, a), Opened(g, open, i + Ready(g.FrameSize(), |a|), Tail(g.FrameSize(), a) + b))
    decreases |a|
  {
    var fs := g.FrameSize();
    var later := Opened(g, open, i + Ready(fs, |a|), Tail(fs, a) + b);
    if |a| <= fs {
      JoinedLaws(later, None, None);
    } else {
      assert (a + b)[fs..] == a[fs..] + b;
      assert (a + b)[..fs] == a[..fs];
      OpenedAppend(g, open, i + 1, a[fs..], b);
      var first := open(i, false, a[..fs]);
      if first.Ok? {
        JoinedLaws(Some(first.value), Opened(g, open, i + 1, a[fs..]), later);
      }
    }
  }

  // ---------------------------------------------------------------- a run of frames

  /** The frames of the first `m` chunks of `pt`. */
  function Head(g: Geometry, seal: Sealer, i: nat, pt: Bytes, m: nat): Bytes
    requires g.chunkSize > 0
    decreases m
  {
    if m == 0 then []
    else if |pt| <= g.chunkSize then seal(i, true, pt)
    else seal(i, false, pt[..g.chunkSize]) + Head(g, seal, i + 1, pt[g.chunkSize..], m - 1)
  }

  /** `i * size`, unfolding one block at a time. */
  function Off(size: nat, i: nat): nat {
    if i == 0 then 0 else size + Off(size, i - 1)
  }

  lemma {:induction false} OffIsProduct(size: nat, i: nat)
    ensures Off(size, i) == i * size
  {
    if i > 0 {
      OffIsProduct(size, i - 1);
      MulStep(i - 1, size);
    }
  }

  lemma {:induction false} OffSum(a: nat, b: nat, i: nat)
    ensures Off(a + b, i) == Off(a, i) + Off(b, i)
  {
    if i > 0 {
      OffSum(a, b, i - 1);
    }
  }

  /** The chunk that the last frame of a run of `m` holds. */
  function LastChunk(g: Geometry, pt: Bytes, m: nat): Bytes
    requires m > 0 && Off(g.chunkSize, m - 1) <= |pt|
  {
    pt[Off(g.chunkSize, m - 1)..Min(Off(g.chunkSize, m - 1) + g.chunkSize, |pt|)]
  }

  lemma LastChunkStep(g: Geometry, pt: Bytes, m: nat)
    requires m > 1 && |pt| >= g.chunkSize && Off(g.chunkSize, m - 2) <= |pt| - g.chunkSize
    ensures LastChunk(g, pt, m) == LastChunk(g, pt[g.chunkSize..], m - 1)
  {
    var done := Off(g.chunkSize, m - 2);
    SliceDropped(pt, g.chunkSize, done, Min(done + g.chunkSize, |pt| - g.chunkSize));
  }

  lemma {:induction false} OffReady(size: nat, len: nat, m: nat)
    requires size > 0 && m <= Ready(size, len)
    ensures Off(size, m) <= len && (m < Ready(size, len) ==> Off(size, m) + size < len)
    ensures m == Ready(size, len) ==> len <= Off(size, m) + size
  {
    if m > 0 {
      OffReady(size, len - size, m - 1);
    }
  }

  /** A run of one frame. */
  lemma HeadOne(g: Geometry, seal: Sealer, open: Opener, i: nat, pt: Bytes)
    requires g.chunkSize > 0 && Paired(g.alg, seal, open)
    ensures Head(g, seal, i, pt, 1) == seal(i, Ready(g.chunkSize, |pt|) == 0, LastChunk(g, pt, 1))
    ensures 0 < |Head(g, seal, i, pt, 1)| <= g.FrameSize()
  {
    if |pt| <= g.chunkSize {
      assert LastChunk(g, pt, 1) == pt;
    } else {
      assert Head(g, seal, i + 1, pt[g.chunkSize..], 0) == [];
      assert LastChunk(g, pt, 1) == pt[..g.chunkSize];
    }
  }

  /** A longer run starts with a full, unflagged frame. */
  lemma HeadStep(g: Geometry, seal: Sealer, open: Opener, i: nat, pt: Bytes, m: nat)
    requires g.chunkSize > 0 && Paired(g.alg, seal, open)
    requires 1 < m <= Ready(g.chunkSize, |pt|) + 1
    ensures |pt| > g.chunkSize && |Head(g, seal, i, pt, m)| > g.FrameSize()
    ensures Ready(g.chunkSize, |pt|) == Ready(g.chunkSize, |pt[g.chunkSize..]|) + 1
    ensures Head(g, seal, i, pt, m)[..g.FrameSize()] == seal(i, false, pt[..g.chunkSize])
    ensures Head(g, seal, i, pt, m)[g.FrameSize()..] == Head(g, seal, i + 1, pt[g.chunkSize..], m - 1)
  {
    assert |seal(i, false, pt[..g.chunkSize])| == g.FrameSize();
    HeadNonEmpty(g, seal, open, i + 1, pt[g.chunkSize..], m - 1);
  }

  lemma {:induction false} HeadCount(g: Geometry, seal: Sealer, open: Opener, i: nat, pt: Bytes, m: nat)
    requires g.chunkSize > 0 && Paired(g.alg, seal, open)
    requires 0 < m <= Ready(g.chunkSize, |pt|) + 1
    ensures Ready(g.FrameSize(), |Head(g, seal, i, pt, m)|) == m - 1
    decreases m
  {
    if m == 1 {
      HeadOne(g, seal, open, i, pt);
    } else {
      HeadStep(g, seal, open, i, pt, m);
      HeadCount(g, seal, open, i + 1, pt[g.chunkSize..], m - 1);
    }
  }

  /** A run of `m` frames leaves one frame behind `m - 1` full ones; it is flagged
      last exactly when it holds the final chunk of the plaintext. */
  lemma {:induction false} HeadTail(g: Geometry, seal: Sealer, open: Opener, i: nat, pt: Bytes, m: nat)
    requires g.chunkSize > 0 && Paired(g.alg, seal, open)
    requires 0 < m <= Ready(g.chunkSize, |pt|) + 1
    ensures Off(g.chunkSize, m - 1) <= |pt|
    ensures Tail(g.FrameSize(), Head(g, seal, i, pt, m))
            == seal(i + m - 1, m == Ready(g.chunkSize, |pt|) + 1, LastChunk(g, pt, m))
    decreases m
  {
    if m == 1 {
      HeadOne(g, seal, open, i, pt);
    } else {
      HeadStep(g, seal, open, i, pt, m);
      var rest := pt[g.chunkSize..];
      HeadTail(g, seal, open, i + 1, rest, m - 1);
      LastChunkStep(g, pt, m);
      assert Tail(g.FrameSize(), Head(g, seal, i, pt, m)) == Tail(g.FrameSize(), Head(g, seal, i + 1, rest, m - 1));
    }
  }

  /** The frames before it open, unflagged, to the chunks before it. */
  lemma {:induction false} OpensHead(g: Geometry, seal: Sealer, open: Opener, i: nat, pt: Bytes, m: nat)
    requires g.chunkSize > 0 && Paired(g.alg, seal, open)
    requires 0 < m <= Ready(g.chunkSize, |pt|) + 1
    ensures Off(g.chunkSize, m - 1) <= |pt|
    ensures Opened(g, open, i, Head(g, seal, i, pt, m)) == Some(pt[..Off(g.chunkSize, m - 1)])
    decreases m
  {
    hide Head, Ready, Opened, Tail, LastChunk;
    if m == 1 {
      HeadOne(g, seal, open, i, pt);
      OpenEnd(g, open, i, Head(g, seal, i, pt, m));
    } else {
      HeadStep(g, seal, open, i, pt, m);
      assert open(i, false, seal(i, false, pt[..g.chunkSize])) == Ok(pt[..g.chunkSize]);
      hide Paired;
      var rest := pt[g.chunkSize..];
      OpenStep(g, open, i, Head(g, seal, i, pt, m));
      OpensHead(g, seal, open, i + 1, rest, m - 1);
      var n := Off(g.chunkSize, m - 2);
      assert pt[..g.chunkSize + n] == pt[..g.chunkSize] + rest[..n];
    }
  }

  lemma SliceDropped(b: Bytes, d: nat, x: nat, y: nat)
    requires d <= |b| && x <= y <= |b| - d
    ensures b[d + x..d + y] == b[d..][x..y]
  {
  }

  lemma HeadNonEmpty(g: Geometry, seal: Sealer, open: Opener, i: nat, pt: Bytes, m: nat)
    requires g.chunkSize > 0 && Paired(g.alg, seal, open) && m > 0
    ensures |Head(g, seal, i, pt, m)| > 0
  {
    assert |seal(i, true, pt)| > 0;
    if |pt| > g.chunkSize {
      assert |seal(i, false, pt[..g.chunkSize])| > 0;
    }
  }

  /** The run of all chunks is the whole ciphertext. */
  lemma {:induction false} HeadOfAll(g: Geometry, seal: Sealer, i: nat, pt: Bytes)
    requires g.chunkSize > 0
    ensures Head(g, seal, i, pt, Ready(g.chunkSize, |pt|) + 1) == Frames(g, seal, i, pt)
    decreases |pt|
  {
    if |pt| > g.chunkSize {
      HeadOfAll(g, seal, i + 1, pt[g.chunkSize..]);
    }
  }

  /** Past `a` full frames, the ciphertext is that of the plaintext past `a` chunks. */
  lemma {:induction false} DropFrames(g: Geometry, seal: Sealer, open: Opener, i: nat, pt: Bytes, a: nat)
    requires g.chunkSize > 0 && Paired(g.alg, seal, open) && a <= Ready(g.chunkSize, |pt|)
    ensures Off(g.chunkSize, a) <= |pt| && Off(g.FrameSize(), a) <= |Frames(g, seal, i, pt)|
    ensures Ready(g.chunkSize, |pt| - Off(g.chunkSize, a)) == Ready(g.chunkSize, |pt|) - a
    ensures Frames(g, seal, i, pt)[Off(g.FrameSize(), a)..] == Frames(g, seal, i + a, pt[Off(g.chunkSize, a)..])
    decreases a
  {
    hide Frames, Paired;
    if a == 0 {
      assert pt[0..] == pt && Frames(g, seal, i, pt)[0..] == Frames(g, seal, i, pt);
    } else {
      var rest := pt[g.chunkSize..];
      FramesStep(g, seal, open, i, pt);
      DropFrames(g, seal, open, i + 1, rest, a - 1);
      DropDropped(pt, g.chunkSize, Off(g.chunkSize, a - 1));
      DropDropped(Frames(g, seal, i, pt), g.FrameSize(), Off(g.FrameSize(), a - 1));
    }
  }

  lemma FramesStep(g: Geometry, seal: Sealer, open: Opener, i: nat, pt: Bytes)
    requires g.chunkSize > 0 && Paired(g.alg, seal, open) && |pt| > g.chunkSize
    ensures |Frames(g, seal, i, pt)| >= g.FrameSize()
    ensures Frames(g, seal, i, pt)[g.FrameSize()..] == Frames(g, seal, i + 1, pt[g.chunkSize..])
  {
    assert |seal(i, false, pt[..g.chunkSize])| == g.FrameSize();
  }

  lemma DropDropped(b: Bytes, d: nat, x: nat)
    requires d + x <= |b|
    ensures b[d..][x..] == b[d + x..]
  {
  }

  /** The frames of the first `m` chunks are the front of the ciphertext. */
  lemma {:induction false} TakeFrames(g: Geometry, seal: Sealer, open: Opener, i: nat, pt: Bytes, m: nat)
    requires g.chunkSize > 0 && Paired(g.alg, seal, open) && m <= Ready(g.chunkSize, |pt|) + 1
    ensures Head(g, seal, i, pt, m) <= Frames(g, seal, i, pt)
    ensures m <= Ready(g.chunkSize, |pt|) ==> |Head(g, seal, i, pt, m)| == Off(g.FrameSize(), m)
    decreases m
  {
    if m > 0 && |pt| > g.chunkSize {
      TakeFrames(g, seal, open, i + 1, pt[g.chunkSize..], m - 1);
      assert |seal(i, false, pt[..g.chunkSize])| == g.FrameSize();
    }
  }

  // ---------------------------------------------------------------- sizes

  lemma {:induction false} NChunksIsReady(ptLen: nat, chunkSize: nat)
    requires chunkSize > 0
    ensures NChunks(ptLen, chunkSize) == Ready(chunkSize, ptLen) + 1
  {
    if ptLen <= chunkSize {
      NChunksUnique(ptLen, chunkSize, 1);
    } else {
      NChunksIsReady(ptLen - chunkSize, chunkSize);
      NChunksBounds(ptLen - chunkSize, chunkSize);
      var n := NChunks(ptLen - chunkSize, chunkSize);
      MulStep(n - 1, chunkSize);
      MulStep(n, chunkSize);
      NChunksUnique(ptLen, chunkSize, n + 1);
    }
  }

  lemma {:induction false} FramesLength(g: Geometry, seal: Sealer, open: Opener, i: nat, pt: Bytes)
    requires g.chunkSize > 0 && Paired(g.alg, seal, open)
    ensures |Frames(g, seal, i, pt)| == |pt| + Off(g.alg.Overhead(), Ready(g.chunkSize, |pt|) + 1)
    decreases |pt|
  {
    if |pt| <= g.chunkSize {
      assert |seal(i, true, pt)| == |pt| + g.alg.Overhead();
      assert Off(g.alg.Overhead(), 1) == g.alg.Overhead();
    } else {
      FramesLength(g, seal, open, i + 1, pt[g.chunkSize..]);
      assert |seal(i, false, pt[..g.chunkSize])| == g.chunkSize + g.alg.Overhead();
    }
  }

  /** The ciphertext has the length that `ciphertext_len` promises. */
  lemma EncryptAllLength(g: Geometry, seal: Sealer, open: Opener, pt: Bytes)
    requires g.chunkSize > 0 && Paired(g.alg, seal, open)
    ensures |EncryptAll(g, seal, pt)| == CiphertextLen(g.alg, |pt|, g.chunkSize)
  {
    FramesLength(g, seal, open, 0, pt);
    NChunksIsReady(|pt|, g.chunkSize);
    OffIsProduct(g.alg.Overhead(), NChunks(|pt|, g.chunkSize));
  }
}
