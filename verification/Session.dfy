/** The state a node keeps for one multipart upload: recorded parts, and the ciphertexts
    of small parts that a Complete may still have to merge with the footer. */
module Session {
  import opened Bytes
  import opened Cipher

  const MIN_PART_SIZE: nat := 5 * 1024 * 1024
  const MAX_TAIL_BYTES: nat := 3 * 5 * 1024 * 1024

  /** ETags, up to the quotes around them. */
  type ETag = nat

  datatype PartRecord = PartRecord(ptLen: nat, etag: ETag)

  /** The backend's answer to a Complete, kept for retries. */
  datatype Response = Response(status: nat, headers: seq<(string, string)>, body: Bytes)

  datatype SessionState = SessionState(
    dek: Option<Bytes>,
    parts: map<nat, PartRecord>,
    tails: map<nat, Bytes>,
    completed: Option<Response>,
    completing: bool
  )

  // ---------------------------------------------------------------- the tail buffer

  predicate IsLowest(keys: set<nat>, k: nat) {
    k in keys && forall j :: j in keys ==> k <= j
  }

  lemma {:induction false} LowestExists(keys: set<nat>) returns (low: nat)
    requires keys != {}
    ensures IsLowest(keys, low)
  {
    var k :| k in keys;
    var rest := keys - {k};
    assert forall j :: j in keys ==> j == k || j in rest;
    if rest == {} {
      return k;
    }
    low := LowestExists(rest);
    if k <= low {
      low := k;
    }
  }

  function Lowest<V>(m: map<nat, V>): (k: nat)
    requires |m| > 0
    ensures k in m && forall j :: j in m ==> k <= j
  {
    assert exists k :: IsLowest(m.Keys, k) by {
      var low := LowestExists(m.Keys);
    }
    var k :| IsLowest(m.Keys, k);
    k
  }

  function TotalBytes(m: map<nat, Bytes>): nat
    decreases |m|
  {
    if |m| == 0 then 0
    else
      var k := Lowest(m);
      assert (m - {k}).Keys == m.Keys - {k};
      |m[k]| + TotalBytes(m - {k})
  }

  /** The entries with number `k` or higher. */
  function From<V>(m: map<nat, V>, k: nat): map<nat, V> {
    map j | j in m && k <= j :: m[j]
  }

  /** What the cap leaves of a buffer: an entry stays exactly when it and all entries with
      higher numbers fit together. */
  function Kept(m: map<nat, Bytes>): map<nat, Bytes> {
    map k | k in m && TotalBytes(From(m, k)) <= MAX_TAIL_BYTES :: m[k]
  }

  lemma {:induction false} TotalFrom(m: map<nat, Bytes>, k: nat)
    ensures TotalBytes(From(m, k)) <= TotalBytes(m)
    decreases |m|
  {
    if |m| == 0 {
      assert From(m, k) == m;
    } else {
      var low := Lowest(m);
      if k <= low {
        assert From(m, k) == m;
      } else {
        var rest := m - {low};
        assert rest.Keys == m.Keys - {low};
        assert From(m, k) == From(rest, k);
        TotalFrom(rest, k);
      }
    }
  }

  lemma {:induction false} TotalOfSmall(m: map<nat, Bytes>)
    requires forall k :: k in m ==> |m[k]| < MIN_PART_SIZE
    ensures |m| <= 3 ==> TotalBytes(m) <= |m| * MIN_PART_SIZE
    decreases |m|
  {
    if |m| > 0 {
      var low := Lowest(m);
      assert (m - {low}).Keys == m.Keys - {low};
      TotalOfSmall(m - {low});
    }
  }

  /** An evicted entry had three buffered entries with higher numbers; the three highest
      are never evicted. */
  lemma EvictionSparesThree(m: map<nat, Bytes>, k: nat)
    requires forall j :: j in m ==> |m[j]| < MIN_PART_SIZE
    requires k in m && k !in Kept(m)
    ensures |From(m, k + 1)| >= 3
  {
    hide TotalBytes;
    TotalOfSmall(From(m, k));
    CountFrom(m, k);
  }

  lemma CountFrom<V>(m: map<nat, V>, k: nat)
    requires k in m
    ensures |From(m, k)| == |From(m, k + 1)| + 1
  {
    assert From(m, k).Keys == From(m, k + 1).Keys + {k};
    assert |From(m, k).Keys| == |From(m, k + 1).Keys| + 1;
  }

  lemma WholeFrom<V>(m: map<nat, V>)
    ensures From(m, 0) == m
  {
  }

  lemma EmptyTotal(m: map<nat, Bytes>)
    requires TotalBytes(m) > 0
    ensures |m| > 0
  {
  }

  /** Forgetting one entry keeps the buffer within its bound. */
  lemma {:induction false} RemovalFits(m: map<nat, Bytes>, k: nat)
    ensures TotalBytes(m - {k}) <= TotalBytes(m)
    decreases |m|
  {
    hide TotalBytes;
    if k !in m {
      assert m - {k} == m;
    } else {
      var low := Lowest(m);
      var rest := m - {low};
      TotalStep(m, low);
      if k != low {
        assert |rest| < |m| by { assert rest.Keys == m.Keys - {low}; }
        RemovalFits(rest, k);
        TotalStep(m - {k}, low);
        SwapRemoval(m, k, low);
      }
    }
  }

  lemma SwapRemoval<V>(m: map<nat, V>, j: nat, k: nat)
    ensures m - {j} - {k} == m - {k} - {j}
  {
  }

  lemma TotalStep(m: map<nat, Bytes>, low: nat)
    requires low in m && forall j :: j in m ==> low <= j
    ensures TotalBytes(m) == |m[low]| + TotalBytes(m - {low})
  {
    assert |m| > 0;
    assert Lowest(m) == low;
  }

  /** The entries from a cut on are what is kept, if they fit and no lower entry does. */
  lemma KeptFrom(m: map<nat, Bytes>, cut: nat)
    requires TotalBytes(From(m, cut)) <= MAX_TAIL_BYTES
    requires forall k :: k in m && k < cut ==> TotalBytes(From(m, k)) > MAX_TAIL_BYTES
    ensures Kept(m) == From(m, cut)
  {
    hide TotalBytes;
    forall k | k in m && cut <= k ensures TotalBytes(From(m, k)) <= MAX_TAIL_BYTES {
      TotalFrom(From(m, cut), k);
      assert From(From(m, cut), k) == From(m, k);
    }
  }

  /** Dropping the lowest entry of the rest moves the cut behind it. */
  lemma NextCut<V>(m: map<nat, V>, cut: nat)
    requires |From(m, cut)| > 0
    ensures var low := Lowest(From(m, cut));
            && cut <= low && From(m, low) == From(m, cut) && From(m, cut) - {low} == From(m, low + 1)
            && |From(m, low + 1)| < |From(m, cut)|
            && forall k :: k in m && cut <= k <= low ==> k == low
  {
    var low := Lowest(From(m, cut));
    assert forall k :: k in m && cut <= k ==> k in From(m, cut);
    assert From(m, low + 1).Keys == From(m, cut).Keys - {low};
  }

  /** A buffer that fits is kept as it is. */
  lemma AllKept(m: map<nat, Bytes>)
    ensures TotalBytes(m) <= MAX_TAIL_BYTES ==> Kept(m) == m
  {
    hide TotalBytes;
    WholeFrom(m);
    if TotalBytes(m) <= MAX_TAIL_BYTES {
      KeptFrom(m, 0);
    }
  }

  lemma KeptFits(m: map<nat, Bytes>)
    ensures TotalBytes(Kept(m)) <= MAX_TAIL_BYTES
  {
    if |Kept(m)| > 0 {
      var low := Lowest(Kept(m));
      KeptFromEntry(m, low);
    }
  }

  lemma KeptFromEntry(m: map<nat, Bytes>, low: nat)
    requires low in Kept(m) && forall j :: j in Kept(m) ==> low <= j
    ensures Kept(m) == From(m, low)
  {
    hide TotalBytes;
    forall k | k in m && k < low ensures TotalBytes(From(m, k)) > MAX_TAIL_BYTES {
      assert k !in Kept(m);
    }
    KeptFrom(m, low);
  }

  // ---------------------------------------------------------------- session steps

  /** A part is recorded, and its ciphertext buffered, unless the session is finished. */
  function Recorded(s: SessionState, number: nat, ptLen: nat, etag: ETag, ct: Option<Bytes>): SessionState {
    if s.completed.Some? then s
    else s.(parts := s.parts[number := PartRecord(ptLen, etag)],
            tails := if ct.Some? then Kept(s.tails[number := ct.value]) else s.tails - {number})
  }

  function Finished(s: SessionState, response: Response): SessionState {
    SessionState(None, map[], map[], Some(response), s.completing)
  }

  class Session {
    const alg: Alg
    const chunkSize: nat
    var dek: Option<Bytes>
    var parts: map<nat, PartRecord>
    var tails: map<nat, Bytes>
    var completed: Option<Response>
    var completing: bool

    function State(): SessionState
      reads this
    {
      SessionState(dek, parts, tails, completed, completing)
    }

    constructor (dek: Bytes, alg: Alg, chunkSize: nat)
      ensures State() == SessionState(Some(dek), map[], map[], None, false)
      ensures this.alg == alg && this.chunkSize == chunkSize
    {
      this.dek, this.alg, this.chunkSize := Some(dek), alg, chunkSize;
      parts, tails, completed, completing := map[], map[], None, false;
    }

    method Finish(response: Response)
      modifies this
      ensures State() == Finished(old(State()), response)
    {
      dek := None;
      parts := map[];
      tails := map[];
      completed := Some(response);
    }

    method RecordPart(number: nat, ptLen: nat, etag: ETag, ct: Option<Bytes>)
      modifies this
      ensures State() == Recorded(old(State()), number, ptLen, etag, ct)
      ensures old(completed).Some? ==> State() == old(State())
      ensures old(completed).None? ==>
                && parts == old(parts)[number := PartRecord(ptLen, etag)] && (dek, completed, completing) == old((dek, completed, completing))
                && (ct.None? ==> tails == old(tails) - {number})
                && (ct.Some? && TotalBytes(old(tails)[number := ct.value]) <= MAX_TAIL_BYTES ==> tails == old(tails)[number := ct.value])
    {
      hide TotalBytes, Kept;
      if completed.Some? {
        return;
      }
      if ct.Some? {
        AllKept(tails[number := ct.value]);
      }
      parts := parts[number := PartRecord(ptLen, etag)];
      match ct
      case Some(c) => BufferTail(number, c);
      case None => tails := tails - {number};
    }

    /** Evicts from the lowest number up until the buffer fits. */
    method BufferTail(number: nat, ct: Bytes)
      modifies this`tails
      ensures tails == Kept(old(tails)[number := ct])
    {
      hide TotalBytes, From, Kept;
      tails := tails[number := ct];
      ghost var all, cut: nat := tails, 0;
      WholeFrom(all);
      while TotalBytes(tails) > MAX_TAIL_BYTES
        invariant tails == From(all, cut)
        invariant forall k :: k in all && k < cut ==> TotalBytes(From(all, k)) > MAX_TAIL_BYTES
        decreases |tails|
      {
        EmptyTotal(tails);
        var lowest := Lowest(tails);
        NextCut(all, cut);
        tails := tails - {lowest};
        cut := lowest + 1;
      }
      KeptFrom(all, cut);
    }
  }
}
