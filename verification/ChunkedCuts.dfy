/** How the cutting of an aws-chunked stream into feeds matters, and when it does not. */
module ChunkedCuts {
  import opened Bytes
  import opened ChunkedWire

  lemma CrlfStays(buf: Bytes, more: Bytes)
    requires FindCrlf(buf).Some?
    ensures FindCrlf(buf + more) == FindCrlf(buf)
  {
    var pos, pos' := FindCrlf(buf).value, FindCrlf(buf + more);
    assert CrlfAt(buf + more, pos);
    assert CrlfAt(buf, pos'.value);
  }

  /** A line that is complete only with more bytes reaches to the end of the present ones. */
  lemma CrlfLater(buf: Bytes, more: Bytes)
    requires FindCrlf(buf).None? && FindCrlf(buf + more).Some?
    ensures FindCrlf(buf + more).value + 1 >= |buf|
  {
    var pos: nat := FindCrlf(buf + more).value;
    assert pos + 1 < |buf| ==> CrlfAt(buf, pos);
  }

  /** A step that goes on does so however many bytes follow, unless it ends the body. */
  lemma StepStays(decode: Decode, c: Config, more: Bytes)
    requires Sane(c) && Step(decode, c).Go?
    ensures var next := Step(decode, c).next;
            if next.state.Done? && more != [] then Step(decode, c.Add(more)) == Fail(AlreadyDone)
            else Step(decode, c.Add(more)) == Go(next.Add(more))
  {
    hide HeaderLine, TrailerLine, FindCrlf;
    if c.state.Header? || c.state.Trailers? {
      CrlfStays(c.buf, more);
      var pos := FindCrlf(c.buf).value;
      SplitStays(c.buf, more, pos);
      SplitStays(c.buf, more, pos + 2);
    } else {
      SplitStays(c.buf, more, if c.state.Data? then c.state.remaining else 2);
    }
  }

  lemma SplitStays(buf: Bytes, more: Bytes, n: nat)
    requires n <= |buf|
    ensures (buf + more)[..n] == buf[..n] && (buf + more)[n..] == buf[n..] + more
  {
  }

  lemma {:induction false} DrainSplits(decode: Decode, c: Config, more: Bytes)
    requires Sane(c) && !c.state.Done? && Drain(decode, c).Ok?
    ensures Drain(decode, c.Add(more)) == Feed(decode, Drain(decode, c).value, more)
    decreases |c.buf|
  {
    hide Step;
    if Step(decode, c).Go? {
      StepConsumes(decode, c);
      StepStays(decode, c, more);
      var next := Step(decode, c).next;
      if next.state.Done? {
        DoneWaits(decode, next);
        assert c.buf + [] == c.buf && next.Add([]) == next;
      } else {
        DrainSplits(decode, next, more);
      }
    }
  }

  lemma DrainStep(decode: Decode, c: Config, next: Config)
    requires Sane(c) && Step(decode, c) == Go(next)
    ensures Sane(next) && Drain(decode, c) == Drain(decode, next)
  {
    StepConsumes(decode, c);
  }

  lemma DoneWaits(decode: Decode, c: Config)
    requires c.state.Done?
    ensures Step(decode, c) == Wait
  {
  }

  /** A feed can be cut in two wherever its first half succeeds. */
  lemma FeedSplits(decode: Decode, c: Config, a: Bytes, b: Bytes)
    requires Sane(c) && Feed(decode, c, a).Ok?
    ensures Feed(decode, c, a + b) == Feed(decode, Feed(decode, c, a).value, b)
  {
    hide Step;
    assert c.Add(a + b) == c.Add(a).Add(b);
    if c.state.Done? {
      DoneWaits(decode, c);
      assert a + b == b && c.Add(a) == c;
    } else {
      DrainSplits(decode, c.Add(a), b);
    }
  }

  /** If any cutting of a stream decodes, one feed of the whole stream decodes to the same
      chunks, trailers and final state. */
  lemma {:induction false} OneFeed(decode: Decode, c: Config, pieces: seq<Bytes>)
    requires Sane(c) && Step(decode, c) == Wait && FeedAll(decode, c, pieces).Ok?
    ensures Feed(decode, c, Concat(pieces)) == FeedAll(decode, c, pieces)
  {
    hide Step, Feed;
    if |pieces| == 0 {
      NoBytes(decode, c);
    } else {
      var front := pieces[..|pieces| - 1];
      OneFeed(decode, c, front);
      FeedSplits(decode, c, Concat(front), pieces[|pieces| - 1]);
    }
  }

  lemma NoBytes(decode: Decode, c: Config)
    requires Sane(c) && Step(decode, c) == Wait
    ensures Feed(decode, c, []) == Ok(c)
  {
    assert c.Add([]) == c;
  }

  // ---------------------------------------------------------------- the converse

  /** Every header or trailer line that the decoder completes has at most 8191 bytes. */
  ghost predicate LinesShort(decode: Decode, c: Config)
    requires Sane(c)
    decreases |c.buf|
  {
    match Step(decode, c)
    case Wait => true
    case Fail(_) => true
    case Go(next) =>
      StepConsumes(decode, c);
      (c.state.Header? || c.state.Trailers? ==> FindCrlf(c.buf).Some? && FindCrlf(c.buf).value < MAX_LINE_BYTES)
      && LinesShort(decode, next)
  }

  /** The lines of a stream are short if the first one is and the rest are. */
  lemma LinesShortStep(decode: Decode, c: Config, next: Config)
    requires Sane(c) && Step(decode, c) == Go(next)
    ensures Sane(next)
    ensures LinesShort(decode, c)
            <==> (c.state.Header? || c.state.Trailers? ==> FindCrlf(c.buf).Some? && FindCrlf(c.buf).value < MAX_LINE_BYTES)
                 && LinesShort(decode, next)
  {
    StepConsumes(decode, c);
  }

  lemma DoneIsShort(decode: Decode, c: Config)
    requires Sane(c) && c.state.Done?
    ensures LinesShort(decode, c)
  {
  }

  lemma LineOfStep(decode: Decode, c: Config)
    requires (c.state.Header? || c.state.Trailers?) && Step(decode, c).Go?
    ensures FindCrlf(c.buf).Some?
  {
  }

  /** A failure is final, except that of a pending line whose end comes later. */
  lemma FailStays(decode: Decode, c: Config, more: Bytes)
    requires Sane(c) && Sane(c.Add(more)) && Step(decode, c).Fail?
    ensures
      || Step(decode, c.Add(more)).Fail?
      || ((c.state.Header? || c.state.Trailers?) && Step(decode, c.Add(more)).Go? && FindCrlf(c.buf + more).Some? && FindCrlf(c.buf + more).value >= MAX_LINE_BYTES)
  {
    hide HeaderLine, TrailerLine, FindCrlf;
    if c.state.Header? || c.state.Trailers? {
      if FindCrlf(c.buf).Some? {
        CrlfStays(c.buf, more);
        var pos := FindCrlf(c.buf).value;
        assert (c.buf + more)[..pos] == c.buf[..pos] && (c.buf + more)[pos + 2..] == c.buf[pos + 2..] + more;
      } else if FindCrlf(c.buf + more).Some? {
        CrlfLater(c.buf, more);
      }
    } else {
      assert (c.buf + more)[..2] == c.buf[..2];
    }
  }

  lemma {:induction false} PrefixDrains(decode: Decode, c: Config, more: Bytes)
    requires Sane(c) && !c.state.Done? && Drain(decode, c.Add(more)).Ok? && LinesShort(decode, c.Add(more))
    ensures Drain(decode, c).Ok?
    ensures var mid := Drain(decode, c).value;
            if mid.state.Done? then more == [] else LinesShort(decode, mid.Add(more))
    decreases |c.buf|
  {
    hide Step;
    match Step(decode, c) {
      case Wait =>
      case Fail(_) => FailStays(decode, c, more);
      case Go(next) =>
        StepConsumes(decode, c);
        StepStays(decode, c, more);
        if next.state.Done? {
          DoneWaits(decode, next);
        } else {
          PrefixDrains(decode, next, more);
        }
    }
  }

  /** What is left of a stream after a feed has short lines, too. */
  ghost predicate RestShort(decode: Decode, c: Config, rest: Bytes)
    requires Sane(c)
  {
    if c.state.Done? then rest == [] else LinesShort(decode, c.Add(rest))
  }

  lemma {:induction false} AnyCut(decode: Decode, c: Config, pieces: seq<Bytes>, rest: Bytes)
    requires Sane(c) && Step(decode, c) == Wait
    requires Feed(decode, c, Concat(pieces) + rest).Ok? && RestShort(decode, c, Concat(pieces) + rest)
    ensures FeedAll(decode, c, pieces).Ok? && RestShort(decode, FeedAll(decode, c, pieces).value, rest)
  {
    hide Step, LinesShort, Drain;
    if |pieces| == 0 {
      assert Concat(pieces) + rest == rest;
    } else {
      var front, last := pieces[..|pieces| - 1], pieces[|pieces| - 1];
      assert Concat(pieces) + rest == Concat(front) + (last + rest);
      AnyCut(decode, c, front, last + rest);
      OneFeed(decode, c, front);
      var mid := FeedAll(decode, c, front).value;
      FeedSplits(decode, c, Concat(front), last + rest);
      assert mid.Add(last + rest) == mid.Add(last).Add(rest);
      if mid.state.Done? {
        assert last == [] && rest == [];
        DrainsNothing(decode, mid, last);
      } else {
        PrefixDrains(decode, mid.Add(last), rest);
      }
    }
  }

  lemma DrainsNothing(decode: Decode, c: Config, nothing: Bytes)
    requires Sane(c) && c.state.Done? && nothing == []
    ensures Feed(decode, c, nothing) == Ok(c)
  {
    assert c.Add(nothing) == c;
  }

  /** A long line fails if it is cut before its line feed. */
  lemma {:induction false} LongLineFails(decode: Decode, c: Config) returns (n: nat)
    requires Sane(c) && !c.state.Done? && Drain(decode, c).Ok? && !LinesShort(decode, c)
    ensures n <= |c.buf| && Drain(decode, c.(buf := c.buf[..n])).Err?
    decreases |c.buf|
  {
    hide Step;
    StepConsumes(decode, c);
    if c.state.Header? || c.state.Trailers? {
      LineOfStep(decode, c);
    }
    var next := Step(decode, c).next;
    if !LinesShort(decode, next) {
      if next.state.Done? {
        DoneWaits(decode, next);
      } else {
        var k := LongLineFails(decode, next);
        n := |c.buf| - |next.buf| + k;
        StepOnPrefix(decode, c, next, k);
      }
    } else {
      n := FindCrlf(c.buf).value + 1;
      PendingFails(decode, c, n);
    }
  }

  lemma PendingFails(decode: Decode, c: Config, n: nat)
    requires c.state.Header? || c.state.Trailers?
    requires FindCrlf(c.buf).Some? && n == FindCrlf(c.buf).value + 1 && n > MAX_LINE_BYTES
    ensures Step(decode, c.(buf := c.buf[..n])).Fail?
  {
    var r := FindCrlf(c.buf[..n]);
    assert r.Some? ==> CrlfAt(c.buf, r.value);
  }

  /** A step looks at no more bytes than it consumes. */
  lemma StepOnPrefix(decode: Decode, c: Config, next: Config, k: nat)
    requires Sane(c) && Step(decode, c) == Go(next) && !next.state.Done?
    requires |next.buf| < |c.buf| && k <= |next.buf|
    ensures Sane(c.(buf := c.buf[..|c.buf| - |next.buf| + k]))
    ensures Step(decode, c.(buf := c.buf[..|c.buf| - |next.buf| + k])) == Go(next.(buf := next.buf[..k]))
  {
    if c.state.Header? || c.state.Trailers? {
      LineOnPrefix(decode, c, next, k);
    } else {
      DataOnPrefix(decode, c, next, k);
    }
  }

  lemma LineOnPrefix(decode: Decode, c: Config, next: Config, k: nat)
    requires (c.state.Header? || c.state.Trailers?) && Step(decode, c) == Go(next) && !next.state.Done?
    requires |next.buf| < |c.buf| && k <= |next.buf|
    ensures Step(decode, c.(buf := c.buf[..|c.buf| - |next.buf| + k])) == Go(next.(buf := next.buf[..k]))
  {
    hide HeaderLine, TrailerLine, FindCrlf, StepData, StepDataCrlf;
    var pos := FindCrlf(c.buf).value;
    assert next.buf == c.buf[pos + 2..];
    var front := c.buf[..pos + 2 + k];
    FrontCrlf(c.buf, pos + 2 + k);
    assert front[..pos] == c.buf[..pos] && front[pos + 2..] == next.buf[..k];
  }

  lemma DataOnPrefix(decode: Decode, c: Config, next: Config, k: nat)
    requires Sane(c) && (c.state.Data? || c.state.DataCrlf?) && Step(decode, c) == Go(next)
    requires |next.buf| < |c.buf| && k <= |next.buf|
    ensures Step(decode, c.(buf := c.buf[..|c.buf| - |next.buf| + k])) == Go(next.(buf := next.buf[..k]))
  {
    hide StepHeader, StepTrailers;
    var used := if c.state.Data? then c.state.remaining else 2;
    assert next.buf == c.buf[used..];
    var front := c.buf[..used + k];
    assert front[..used] == c.buf[..used] && front[used..] == next.buf[..k];
  }

  lemma FrontCrlf(buf: Bytes, n: nat)
    requires FindCrlf(buf).Some? && FindCrlf(buf).value + 2 <= n <= |buf|
    ensures FindCrlf(buf[..n]) == FindCrlf(buf)
  {
    assert CrlfAt(buf[..n], FindCrlf(buf).value);
    assert CrlfAt(buf, FindCrlf(buf[..n]).value);
  }

  /** A stream that decodes in one feed decodes the same way under every cutting if and
      only if all of its terminated lines have at most 8191 bytes. */
  lemma EveryCut(decode: Decode, whole: Bytes)
    requires Feed(decode, START, whole).Ok?
    ensures (forall pieces: seq<Bytes> :: Concat(pieces) == whole ==> FeedAll(decode, START, pieces) == Feed(decode, START, whole))
            <==> LinesShort(decode, START.Add(whole))
  {
    hide LinesShort, Drain;
    var c := START.Add(whole);
    assert c.buf == whole && [] + whole == whole;
    if LinesShort(decode, c) {
      forall pieces: seq<Bytes> | Concat(pieces) == whole ensures FeedAll(decode, START, pieces) == Feed(decode, START, whole) {
        assert Concat(pieces) + [] == whole;
        AnyCut(decode, START, pieces, []);
        OneFeed(decode, START, pieces);
      }
    } else {
      var n := LongLineFails(decode, c);
      TwoPieces(decode, whole, n);
      var pieces: seq<Bytes> := [whole[..n], whole[n..]];
      assert Concat(pieces) == whole && FeedAll(decode, START, pieces).Err?;
    }
  }

  lemma TwoPieces(decode: Decode, whole: Bytes, n: nat)
    requires n <= |whole| && Drain(decode, START.(buf := whole[..n])).Err?
    ensures var pieces := [whole[..n], whole[n..]];
            Concat(pieces) == whole && FeedAll(decode, START, pieces).Err?
  {
    hide Drain;
    var a, b := whole[..n], whole[n..];
    assert START.Add(a) == START.(buf := a);
    assert [a, b][..1] == [a];
    assert Concat([a]) == [] + a == a;
    assert a + b == whole;
    assert Feed(decode, START, a).Err?;
    assert FeedAll(decode, START, [a]).Err?;
  }

  // ---------------------------------------------------------------- pending bytes

  /** What a decoder may hold between two feeds. */
  predicate Bounded(c: Config) {
    match c.state
    case Header => |c.buf| <= MAX_LINE_BYTES
    case Data(remaining, _) => |c.buf| < remaining <= MAX_DECLARED_CHUNK
    case DataCrlf => |c.buf| < 2
    case Trailers => |c.buf| <= MAX_LINE_BYTES
    case Done => c.buf == []
  }

  /** Between feeds the pending bytes are within the bound of the state. */
  lemma PendingBounded(decode: Decode, pieces: seq<Bytes>)
    requires FeedAll(decode, START, pieces).Ok?
    ensures Bounded(FeedAll(decode, START, pieces).value)
    ensures |FeedAll(decode, START, pieces).value.trailers| <= MAX_TRAILERS
  {
    hide FindCrlf, HeaderLine, TrailerLine;
    if |pieces| > 0 {
      var c := FeedAll(decode, START, pieces).value;
      assert Step(decode, c) == Wait;
    }
  }

  // ---------------------------------------------------------------- the terminator

  /** Data chunks are non-empty; past the headers the last chunk is the empty terminator. */
  predicate Terminated(c: Config) {
    var ended := c.state.Trailers? || c.state.Done?;
    var n := if ended then |c.chunks| - 1 else |c.chunks|;
    n >= 0 && (forall k :: 0 <= k < n ==> c.chunks[k].data != []) && (ended ==> c.chunks[n].data == [])
  }

  lemma StepTerminated(decode: Decode, c: Config)
    requires Sane(c) && Terminated(c) && Step(decode, c).Go?
    ensures Terminated(Step(decode, c).next)
  {
    hide FindCrlf, HeaderLine, TrailerLine;
  }

  lemma {:induction false} DrainTerminated(decode: Decode, c: Config)
    requires Sane(c) && Terminated(c) && Drain(decode, c).Ok?
    ensures Terminated(Drain(decode, c).value)
    decreases |c.buf|
  {
    hide Step, Terminated;
    if Step(decode, c).Go? {
      StepConsumes(decode, c);
      StepTerminated(decode, c);
      DrainTerminated(decode, Step(decode, c).next);
    }
  }

  /** A stream that ends decodes to non-empty chunks and one empty terminator behind them. */
  lemma {:induction false} EndsWithTerminator(decode: Decode, pieces: seq<Bytes>)
    requires FeedAll(decode, START, pieces).Ok?
    ensures Terminated(FeedAll(decode, START, pieces).value)
  {
    hide Step, Drain;
    if |pieces| > 0 {
      var front, last := pieces[..|pieces| - 1], pieces[|pieces| - 1];
      EndsWithTerminator(decode, front);
      DrainTerminated(decode, FeedAll(decode, START, front).value.Add(last));
    }
  }
}
