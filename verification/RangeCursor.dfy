/** The cursor that serves a byte range of a multipart object: it walks the plan
    entries over one ranged response body, whatever frames that body arrives in. */
module RangeCursor {
  import opened Bytes
  import opened Cipher
  import opened FrameSpec
  import FrameTheorems
  import opened RangePlan
  import opened RangeReader
  import opened Layout
  import opened Segments
  import opened MultipartObject

  ghost predicate WellPlanned(entries: seq<Entry>) {
    forall k :: 0 <= k < |entries| ==> entries[k].plan.ctStart < entries[k].plan.ctEnd
  }

  /** `seg` is the segment of `e`: its length, and what reading it means. */
  ghost predicate IsSegment(g: Geometry, opens: Openers, e: Entry, seg: Segment)
    requires g.chunkSize > 0
  {
    && seg.len == e.plan.ctEnd - e.plan.ctStart
    && forall ct :: seg.read(ct) == RangeText(g, opens(e.span.number), e.plan, EndsPart(g, e), ct)
  }

  ghost predicate AreSegments(g: Geometry, opens: Openers, entries: seq<Entry>, segs: seq<Segment>)
    requires g.chunkSize > 0
  {
    |segs| == |entries| && forall k :: 0 <= k < |entries| ==> IsSegment(g, opens, entries[k], segs[k])
  }

  lemma EntrySegmentsAre(g: Geometry, opens: Openers, entries: seq<Entry>)
    requires g.chunkSize > 0 && WellPlanned(entries)
    ensures AreSegments(g, opens, entries, EntrySegments(g, opens, entries))
  {
  }

  // ---------------------------------------------------------------- failures

  /** Nothing but the beginning of the range was ever sent: the text of some first
      entries and the trimmed front of the next. */
  ghost predicate SentFront(g: Geometry, opens: Openers, entries: seq<Entry>, segs: seq<Segment>, fed: Bytes, sent: Bytes)
    requires g.chunkSize > 0
  {
    exists k: nat, done, cur, own ::
      InSegment(segs, k, done, cur, own, done + cur, sent) && done + cur <= fed && k < |entries|
      && IsFront(g, opens, entries[k], cur, own)
  }

  ghost predicate IsFront(g: Geometry, opens: Openers, e: Entry, cur: Bytes, own: Bytes)
    requires g.chunkSize > 0
  {
    var front := Opened(g, opens(e.span.number), e.plan.firstChunk, cur);
    front.Some? && own == Drop(front.value, e.plan.trimStart)
  }

  /** A frame that does not open spoils the entry it belongs to. */
  lemma FailedPush(g: Geometry, opens: Openers, e: Entry, segs: seq<Segment>, k: nat, done: Bytes, cur: Bytes, own: Bytes, fed: Bytes, sent: Bytes)
    requires g.chunkSize > 0 && InSegment(segs, k, done, cur, own, fed, sent) && IsSegment(g, opens, e, segs[k])
    requires Opened(g, opens(e.span.number), e.plan.firstChunk, cur).None?
    ensures Unreadable(segs, fed)
  {
    forall ct | cur <= ct && |ct| == segs[k].len ensures segs[k].read(ct).None? {
      FrameTheorems.OpenedFailsOn(g, opens(e.span.number), e.plan.firstChunk, cur, ct);
    }
    SpoilsAll(segs, k, done, cur, fed);
  }

  // ---------------------------------------------------------------- the cursor

  class RangeCursor {
    const g: Geometry
    const opens: Openers
    const entries: seq<Entry>
    ghost const segs: seq<Segment>
    var next: nat             // index of the entry after the current one
    var part: RangePart?      // the current entry; null when every entry is finished
    var remaining: nat        // ciphertext bytes the current entry still owns
    ghost var done: Bytes     // bytes of the finished entries
    ghost var fed: Bytes
    ghost var sent: Bytes

    ghost function Objects(): set<object>
      reads this
    {
      if part == null then {this} else {this, part, part.dec}
    }

    /** The plan being walked; it never changes. */
    ghost predicate Planned() {
      g.chunkSize > 0 && WellPlanned(entries) && AreSegments(g, opens, entries, segs)
    }

    ghost predicate Valid()
      reads this, Objects()
    {
      && Planned()
      && if part == null then
           next == |entries| && done <= fed && AtSegment(segs, |segs|, done, sent)
         else
           Loaded() && remaining > 0
    }

    /** An entry is being read, or has just been read to its end. */
    ghost predicate Loaded()
      requires g.chunkSize > 0
      reads this, Objects()
    {
      && part != null && 0 < next <= |entries| && Reads(part, entries[next - 1]) && part.Valid()
      && InSegment(segs, next - 1, done, part.dec.fed, part.sent, fed, sent)
      && remaining == segs[next - 1].len - |part.dec.fed|
    }

    /** `p` reads entry `e`. */
    ghost predicate Reads(p: RangePart, e: Entry)
      requires g.chunkSize > 0
    {
      p.g == g && p.open == opens(e.span.number) && p.plan == e.plan && p.ends == EndsPart(g, e)
    }

    constructor (g: Geometry, opens: Openers, entries: seq<Entry>)
      requires g.chunkSize > 0 && |entries| > 0 && WellPlanned(entries)
      ensures Valid() && fresh(Objects()) && fed == [] && sent == []
      ensures this.g == g && this.opens == opens && this.entries == entries && segs == EntrySegments(g, opens, entries)
    {
      this.g, this.opens, this.entries := g, opens, entries;
      segs := EntrySegments(g, opens, entries);
      EntrySegmentsAre(g, opens, entries);
      next, remaining := 1, entries[0].plan.ctEnd - entries[0].plan.ctStart;
      part := new RangePart(g, opens(entries[0].span.number), entries[0].plan, EndsPart(g, entries[0]));
      done, fed, sent := [], [], [];
    }

    predicate IsDone()
      reads this
    {
      part == null
    }

    /** What has been sent while an entry is being read is the front of the range. */
    lemma Front()
      requires Planned() && Loaded()
      ensures SentFront(g, opens, entries, segs, fed, sent)
    {
      assert IsFront(g, opens, entries[next - 1], part.dec.fed, part.sent);
      assert InSegment(segs, next - 1, done, part.dec.fed, part.sent, done + part.dec.fed, sent);
    }

    /** Makes entry `next` the current one, or none when all are finished. */
    method StartNext()
      requires Planned() && fed == done && AtSegment(segs, next, fed, sent)
      modifies this
      ensures Valid() && fed == old(fed) && sent == old(sent)
      ensures part != null ==> fresh(part) && fresh(part.dec)
    {
      if next == |entries| {
        part := null;
      } else {
        var e := entries[next];
        Enter(segs, next, fed, sent);
        remaining := e.plan.ctEnd - e.plan.ctStart;
        part := new RangePart(g, opens(e.span.number), e.plan, EndsPart(g, e));
        next := next + 1;
      }
    }

    /** Pushes bytes that all belong to the current entry. */
    method PushPiece(piece: Bytes) returns (out: Bytes, ok: bool)
      requires Planned() && Loaded() && |piece| <= remaining
      modifies this, part, part.dec
      ensures part == old(part) && fed == old(fed) + piece && sent == old(sent) + out
      ensures ok ==> Loaded()
      ensures !ok ==> Unreadable(segs, fed) && SentFront(g, opens, entries, segs, fed, sent)
    {
      hide InSegment, IsFront, IsSegment, SentFront, Unreadable, WellPlanned, Opened;
      ghost var k, cur, own := next - 1, part.dec.fed, part.sent;
      Front();
      out, ok := part.Push(piece);
      Advance(segs, k, done, cur, own, fed, sent, piece, out);
      remaining := remaining - |piece|;
      fed, sent := fed + piece, sent + out;
      assert InSegment(segs, k, done, cur + piece, own + out, fed, sent);
      if !ok {
        FailedPush(g, opens, entries[k], segs, k, done, cur + piece, own + out, fed, sent);
        assert sent == old(sent);
        FrontGrows(g, opens, entries, segs, old(fed), sent, fed);
      }
    }

    /** Finishes an entry that has all of its ciphertext and starts the next one. */
    method FinishEntry() returns (out: Bytes, ok: bool)
      requires Planned() && Loaded() && remaining == 0
      modifies this
      ensures fed == old(fed) && sent == old(sent) + out
      ensures ok ==> Valid() && (part != null ==> fresh(part) && fresh(part.dec))
      ensures !ok ==> Unreadable(segs, fed) && SentFront(g, opens, entries, segs, fed, sent)
    {
      hide InSegment, IsFront, SentFront, Unreadable, WellPlanned, RangeText;
      ghost var k := next - 1;
      Front();
      out, ok := part.Finish();
      if !ok {
        FailedSegment(segs, k, done, part.dec.fed, part.sent, fed, sent);
      } else {
        Leave(segs, k, done, part.dec.fed, part.sent, fed, sent, out);
        done, sent := fed, sent + out;
        StartNext();
      }
    }

    /** Feeds one frame of the body, in whatever piece it comes: the pieces of each entry
        go to its reader, and bytes after the last entry are ignored. */
    method Feed(frame: Bytes) returns (out: Bytes, ok: bool)
      requires Valid()
      modifies Objects()
      ensures fed == old(fed) + frame && sent == old(sent) + out
      ensures ok ==> Valid() && fresh(Objects() - old(Objects()))
      ensures !ok ==> Unreadable(segs, fed) && SentFront(g, opens, entries, segs, fed, sent)
    {
      hide Loaded, AtSegment, AreSegments, WellPlanned, SentFront, Unreadable;
      var data := frame;
      out := [];
      while |data| > 0 && part != null
        invariant Valid() && fresh(Objects() - old(Objects()))
        invariant fed + data == old(fed) + frame && sent == old(sent) + out
        decreases |data|
      {
        var take := Min(|data|, remaining);
        assert fed + data == fed + data[..take] + data[take..];
        var more, pushed := PushPiece(data[..take]);
        data := data[take..];
        out := out + more;
        var good := pushed;
        if pushed && remaining == 0 {
          more, good := FinishEntry();
          out := out + more;
        }
        if !good {
          StillSpoiled(g, opens, entries, segs, fed, sent, data);
          fed := fed + data;
          return out, false;
        }
      }
      if |data| > 0 {
        fed := fed + data;
      }
      ok := true;
    }
  }

  /** More input does not help a stretch that cannot be read. */
  lemma StillSpoiled(g: Geometry, opens: Openers, entries: seq<Entry>, segs: seq<Segment>, fed: Bytes, sent: Bytes, more: Bytes)
    requires g.chunkSize > 0 && Unreadable(segs, fed) && SentFront(g, opens, entries, segs, fed, sent)
    ensures Unreadable(segs, fed + more) && SentFront(g, opens, entries, segs, fed + more, sent)
  {
    FrontGrows(g, opens, entries, segs, fed, sent, fed + more);
    UnreadableGrows(segs, fed, more);
  }

  lemma FrontGrows(g: Geometry, opens: Openers, entries: seq<Entry>, segs: seq<Segment>, fed: Bytes, sent: Bytes, fed': Bytes)
    requires g.chunkSize > 0 && SentFront(g, opens, entries, segs, fed, sent) && fed <= fed'
    ensures SentFront(g, opens, entries, segs, fed', sent)
  {
    var k: nat, done, cur, own :|
      InSegment(segs, k, done, cur, own, done + cur, sent) && done + cur <= fed && k < |entries|
      && IsFront(g, opens, entries[k], cur, own);
    assert done + cur <= fed';
  }
}
