/** A body that is read segment by segment: each segment owns a fixed number of
    bytes, and reading all of them yields its text or fails. */
module Segments {
  import opened Bytes

  datatype Segment = Segment(len: nat, read: Bytes -> Option<Bytes>)

  function TotalLen(segs: seq<Segment>): nat {
    if |segs| == 0 then 0 else TotalLen(segs[..|segs| - 1]) + segs[|segs| - 1].len
  }

  /** The text of a run of segments whose bytes are exactly `b`. */
  function TextOf(segs: seq<Segment>, b: Bytes): Option<Bytes>
    requires |b| == TotalLen(segs)
  {
    if |segs| == 0 then Some([])
    else
      var n := |segs| - 1;
      var cut := TotalLen(segs[..n]);
      match TextOf(segs[..n], b[..cut])
      case None => None
      case Some(before) =>
        match segs[n].read(b[cut..])
        case None => None
        case Some(text) => Some(before + text)
  }

  lemma TotalLenStep(segs: seq<Segment>, k: nat)
    requires k < |segs|
    ensures TotalLen(segs[..k + 1]) == TotalLen(segs[..k]) + segs[k].len
  {
    assert segs[..k + 1][..k] == segs[..k];
  }

  lemma {:induction false} TotalLenPrefix(segs: seq<Segment>, k: nat)
    requires k <= |segs|
    ensures TotalLen(segs[..k]) <= TotalLen(segs)
    decreases |segs| - k
  {
    if k == |segs| {
      assert segs[..k] == segs;
    } else {
      TotalLenPrefix(segs, k + 1);
      TotalLenStep(segs, k);
    }
  }

  /** One more segment read to its end. */
  lemma TextOfStep(segs: seq<Segment>, k: nat, done: Bytes, cur: Bytes)
    requires k < |segs| && |done| == TotalLen(segs[..k]) && |cur| == segs[k].len
    ensures |done + cur| == TotalLen(segs[..k + 1])
    ensures TextOf(segs[..k + 1], done + cur)
            == match TextOf(segs[..k], done)
               case None => None
               case Some(before) => match segs[k].read(cur)
                                    case None => None
                                    case Some(text) => Some(before + text)
  {
    assert segs[..k + 1][..k] == segs[..k];
    assert (done + cur)[..|done|] == done && (done + cur)[|done|..] == cur;
  }

  /** A run of segments can be read only if every front part of it can. */
  lemma {:induction false} TextOfPrefix(segs: seq<Segment>, b: Bytes, k: nat)
    requires |b| == TotalLen(segs) && k <= |segs| && TextOf(segs, b).Some?
    ensures TotalLen(segs[..k]) <= |b| && TextOf(segs[..k], b[..TotalLen(segs[..k])]).Some?
    ensures TextOf(segs[..k], b[..TotalLen(segs[..k])]).value <= TextOf(segs, b).value
    decreases |segs|
  {
    if k == |segs| {
      assert segs[..k] == segs && b[..|b|] == b;
    } else {
      var n := |segs| - 1;
      var cut := TotalLen(segs[..n]);
      TextOfPrefix(segs[..n], b[..cut], k);
      assert segs[..n][..k] == segs[..k];
      TotalLenPrefix(segs[..n], k);
      assert b[..cut][..TotalLen(segs[..k])] == b[..TotalLen(segs[..k])];
    }
  }

  /** If nothing that starts with `cur` can be read as segment `k`, then no stretch that
      starts with the segments `done` and `cur` can be read. */
  lemma CannotRead(segs: seq<Segment>, k: nat, done: Bytes, cur: Bytes, b: Bytes)
    requires k < |segs| && |done| == TotalLen(segs[..k]) && |cur| <= segs[k].len
    requires |b| == TotalLen(segs) && done + cur <= b
    requires forall ct :: cur <= ct && |ct| == segs[k].len ==> segs[k].read(ct).None?
    ensures TextOf(segs, b).None?
  {
    hide TextOf, TotalLen;
    TotalLenStep(segs, k);
    TotalLenPrefix(segs, k + 1);
    var own := b[|done|..|done| + segs[k].len];
    PieceStarts(b, done, cur, segs[k].len);
    TextOfStep(segs, k, done, own);
    assert TextOf(segs[..k + 1], done + own).None?;
    if TextOf(segs, b).Some? {
      TextOfPrefix(segs, b, k + 1);
    }
  }

  lemma PieceStarts(b: Bytes, done: Bytes, cur: Bytes, len: nat)
    requires done + cur <= b && |cur| <= len && |done| + len <= |b|
    ensures var own := b[|done|..|done| + len];
            cur <= own && b[..|done| + len] == done + own
  {
    var own := b[|done|..|done| + len];
    assert own[..|cur|] == b[|done|..|done| + |cur|] == cur;
  }

  // ---------------------------------------------------------------- states of the walk

  /** Before segment `k`: the segments before it own `fed` and were sent in full. */
  ghost predicate AtSegment(segs: seq<Segment>, k: nat, fed: Bytes, sent: Bytes) {
    k <= |segs| && |fed| == TotalLen(segs[..k]) && TextOf(segs[..k], fed) == Some(sent)
  }

  /** Inside segment `k`, of which `cur` has arrived and `own` was sent. */
  ghost predicate InSegment(segs: seq<Segment>, k: nat, done: Bytes, cur: Bytes, own: Bytes, fed: Bytes, sent: Bytes) {
    && k < |segs| && fed == done + cur && |cur| <= segs[k].len
    && |done| == TotalLen(segs[..k]) && TextOf(segs[..k], done).Some?
    && sent == TextOf(segs[..k], done).value + own
  }

  lemma Enter(segs: seq<Segment>, k: nat, fed: Bytes, sent: Bytes)
    requires AtSegment(segs, k, fed, sent) && k < |segs|
    ensures InSegment(segs, k, fed, [], [], fed, sent)
  {
    assert fed + [] == fed && sent + [] == sent;
  }

  lemma Advance(segs: seq<Segment>, k: nat, done: Bytes, cur: Bytes, own: Bytes, fed: Bytes, sent: Bytes, piece: Bytes, out: Bytes)
    requires InSegment(segs, k, done, cur, own, fed, sent) && |cur| + |piece| <= segs[k].len
    ensures InSegment(segs, k, done, cur + piece, own + out, fed + piece, sent + out)
  {
    assert done + cur + piece == done + (cur + piece);
    var before := TextOf(segs[..k], done).value;
    assert before + own + out == before + (own + out);
  }

  lemma Leave(segs: seq<Segment>, k: nat, done: Bytes, cur: Bytes, own: Bytes, fed: Bytes, sent: Bytes, last: Bytes)
    requires InSegment(segs, k, done, cur, own, fed, sent) && |cur| == segs[k].len
    requires segs[k].read(cur) == Some(own + last)
    ensures AtSegment(segs, k + 1, fed, sent + last)
  {
    TextOfStep(segs, k, done, cur);
    var before := TextOf(segs[..k], done).value;
    assert before + own + last == before + (own + last);
  }

  // ---------------------------------------------------------------- failures

  /** No stretch of the planned length that agrees with `fed` can be read. */
  ghost predicate Unreadable(segs: seq<Segment>, fed: Bytes) {
    forall b: Bytes :: |b| == TotalLen(segs) && (b <= fed || fed <= b) ==> TextOf(segs, b).None?
  }

  lemma SpoilsAll(segs: seq<Segment>, k: nat, done: Bytes, cur: Bytes, fed: Bytes)
    requires k < |segs| && done + cur <= fed && |done| == TotalLen(segs[..k]) && |cur| <= segs[k].len
    requires forall ct :: cur <= ct && |ct| == segs[k].len ==> segs[k].read(ct).None?
    ensures Unreadable(segs, fed)
  {
    TotalLenStep(segs, k);
    TotalLenPrefix(segs, k + 1);
    forall b: Bytes | |b| == TotalLen(segs) && (b <= fed || fed <= b) ensures TextOf(segs, b).None? {
      assert done + cur <= b;
      CannotRead(segs, k, done, cur, b);
    }
  }

  /** A segment that cannot be read spoils every stretch that contains it. */
  lemma FailedSegment(segs: seq<Segment>, k: nat, done: Bytes, cur: Bytes, own: Bytes, fed: Bytes, sent: Bytes)
    requires InSegment(segs, k, done, cur, own, fed, sent) && |cur| == segs[k].len && segs[k].read(cur).None?
    ensures Unreadable(segs, fed)
  {
    forall ct | cur <= ct && |ct| == segs[k].len ensures segs[k].read(ct).None? {
      assert ct == cur;
    }
    SpoilsAll(segs, k, done, cur, fed);
  }

  lemma UnreadableGrows(segs: seq<Segment>, fed: Bytes, more: Bytes)
    requires Unreadable(segs, fed)
    ensures Unreadable(segs, fed + more)
  {
    forall b: Bytes | |b| == TotalLen(segs) && (b <= fed + more || fed + more <= b) ensures TextOf(segs, b).None? {
      assert b <= fed || fed <= b;
    }
  }

  // ---------------------------------------------------------------- what segments may read as

  /** The bytes of segment `k` that lie in `b`. */
  function OwnBytes(segs: seq<Segment>, k: nat, b: Bytes): Bytes
    requires k < |segs|
  {
    b[Min(TotalLen(segs[..k]), |b|)..Min(TotalLen(segs[..k]) + segs[k].len, |b|)]
  }

  /** Every segment that lies wholly in `b` reads as its text or not at all. */
  ghost predicate ReadsAs(segs: seq<Segment>, texts: seq<Bytes>, b: Bytes) {
    && |texts| == |segs|
    && forall k :: 0 <= k < |segs| && |OwnBytes(segs, k, b)| == segs[k].len && segs[k].read(OwnBytes(segs, k, b)).Some? ==>
         segs[k].read(OwnBytes(segs, k, b)).value == texts[k]
  }

  lemma NothingRead(segs: seq<Segment>, b: Bytes)
    requires |segs| == 0 && |b| == TotalLen(segs)
    ensures TextOf(segs, b) == Some([])
  {
  }

  /** Then the first `k` segments read as the first `k` texts. */
  lemma {:induction false} ReadsTexts(segs: seq<Segment>, texts: seq<Bytes>, b: Bytes, k: nat, done: Bytes)
    requires ReadsAs(segs, texts, b) && k <= |segs| && done <= b
    requires |done| == TotalLen(segs[..k]) && TextOf(segs[..k], done).Some?
    ensures TextOf(segs[..k], done).value == Concat(texts[..k])
    decreases k
  {
    hide TextOf, TotalLen;
    if k == 0 {
      NothingRead(segs[..k], done);
    } else {
      var n := k - 1;
      TotalLenStep(segs, n);
      var before, cur := done[..TotalLen(segs[..n])], done[TotalLen(segs[..n])..];
      assert done == before + cur;
      TextOfStep(segs, n, before, cur);
      assert OwnBytes(segs, n, b) == cur;
      ReadsTexts(segs, texts, b, n, before);
      ConcatStep(texts, n);
    }
  }

  /** A segment among the first `k`, all of which were read, has all of its bytes and a text. */
  lemma {:induction false} ReadInFull(segs: seq<Segment>, b: Bytes, k: nat, done: Bytes, j: nat)
    requires j < k <= |segs| && done <= b && |done| == TotalLen(segs[..k]) && TextOf(segs[..k], done).Some?
    ensures |OwnBytes(segs, j, b)| == segs[j].len && segs[j].read(OwnBytes(segs, j, b)).Some?
    decreases k
  {
    hide TextOf, TotalLen;
    var n := k - 1;
    TotalLenStep(segs, n);
    var before, cur := done[..TotalLen(segs[..n])], done[TotalLen(segs[..n])..];
    assert done == before + cur;
    TextOfStep(segs, n, before, cur);
    if j == n {
      assert OwnBytes(segs, n, b) == cur;
    } else {
      ReadInFull(segs, b, n, before, j);
    }
  }
}
