/** The canonical query string of a signed request: parameters decoded once, encoded
    again, sorted and joined. */
module CanonicalQuery {
  import opened Bytes
  import opened Text
  import opened UriCodec

  const AMP: byte := 38
  const EQUALS: byte := 61

  datatype Param = Param(name: Bytes, value: Bytes)

  // ---------------------------------------------------------------- order

  predicate BytesLe(a: Bytes, b: Bytes) {
    |a| == 0 || (|b| > 0 && (a[0] < b[0] || (a[0] == b[0] && BytesLe(a[1..], b[1..]))))
  }

  /** The first difference is at `k`, where `a` is smaller. */
  predicate SmallerAt(a: Bytes, b: Bytes, k: nat) {
    k < |a| && k < |b| && a[k] < b[k] && forall j :: 0 <= j < k ==> a[j] == b[j]
  }

  lemma {:induction false} LeDiffers(a: Bytes, b: Bytes)
    requires BytesLe(a, b)
    ensures a <= b || exists k: nat :: SmallerAt(a, b, k)
  {
    if |a| > 0 {
      if a[0] < b[0] {
        assert SmallerAt(a, b, 0);
      } else {
        LeDiffers(a[1..], b[1..]);
        if a[1..] <= b[1..] {
          assert a == [a[0]] + a[1..] && b == [b[0]] + b[1..];
        } else {
          var k: nat :| SmallerAt(a[1..], b[1..], k);
          assert SmallerAt(a, b, k + 1);
        }
      }
    }
  }

  lemma {:induction false} SmallerIsLe(a: Bytes, b: Bytes, k: nat)
    requires SmallerAt(a, b, k)
    ensures BytesLe(a, b)
  {
    if k > 0 {
      SmallerIsLe(a[1..], b[1..], k - 1);
    }
  }

  lemma {:induction false} BeginsIsLe(a: Bytes, b: Bytes)
    requires a <= b
    ensures BytesLe(a, b)
  {
    if |a| > 0 {
      assert a == b[..|a|];
      assert a[1..] == b[1..][..|a| - 1];
      BeginsIsLe(a[1..], b[1..]);
    }
  }

  /** Byte order: one text begins the other, or is smaller where they first differ. */
  lemma BytesLeExact(a: Bytes, b: Bytes)
    ensures BytesLe(a, b) <==> a <= b || exists k: nat :: SmallerAt(a, b, k)
  {
    hide BytesLe, SmallerAt;
    if BytesLe(a, b) {
      LeDiffers(a, b);
    }
    if a <= b {
      BeginsIsLe(a, b);
    }
    forall k: nat | SmallerAt(a, b, k) ensures BytesLe(a, b) {
      SmallerIsLe(a, b, k);
    }
  }

  lemma {:induction false} BytesTotal(a: Bytes, b: Bytes)
    ensures BytesLe(a, b) || BytesLe(b, a)
    ensures BytesLe(a, b) && BytesLe(b, a) ==> a == b
  {
    if |a| > 0 && |b| > 0 {
      BytesTotal(a[1..], b[1..]);
      assert a == [a[0]] + a[1..] && b == [b[0]] + b[1..];
    }
  }

  lemma {:induction false} BytesTransitive(a: Bytes, b: Bytes, c: Bytes)
    requires BytesLe(a, b) && BytesLe(b, c)
    ensures BytesLe(a, c)
  {
    if |a| > 0 && a[0] == b[0] && b[0] == c[0] {
      BytesTransitive(a[1..], b[1..], c[1..]);
    }
  }

  /** By name, then by value. */
  predicate Le(p: Param, q: Param) {
    if p.name == q.name then BytesLe(p.value, q.value) else BytesLe(p.name, q.name)
  }

  lemma LeTotal(p: Param, q: Param)
    ensures Le(p, q) || Le(q, p)
    ensures Le(p, q) && Le(q, p) ==> p == q
  {
    BytesTotal(p.name, q.name);
    BytesTotal(p.value, q.value);
  }

  lemma LeTransitive(p: Param, q: Param, r: Param)
    requires Le(p, q) && Le(q, r)
    ensures Le(p, r)
  {
    if p.name == q.name == r.name {
      BytesTransitive(p.value, q.value, r.value);
    } else if p.name != q.name && q.name != r.name {
      BytesTransitive(p.name, q.name, r.name);
      if p.name == r.name {
        BytesTotal(p.name, q.name);
      }
    }
  }

  predicate Sorted(s: seq<Param>) {
    forall i, j :: 0 <= i < j < |s| ==> Le(s[i], s[j])
  }

  function Insert(p: Param, s: seq<Param>): seq<Param> {
    if |s| == 0 || Le(p, s[0]) then [p] + s else [s[0]] + Insert(p, s[1..])
  }

  function Sort(s: seq<Param>): seq<Param> {
    if |s| == 0 then [] else Insert(s[0], Sort(s[1..]))
  }

  lemma {:induction false} InsertKeeps(p: Param, s: seq<Param>)
    requires Sorted(s)
    ensures Sorted(Insert(p, s)) && multiset(Insert(p, s)) == multiset(s) + multiset{p}
  {
    if |s| == 0 {
    } else if Le(p, s[0]) {
      forall j | 0 < j < |s| ensures Le(p, s[j]) {
        LeTransitive(p, s[0], s[j]);
      }
    } else {
      LeTotal(p, s[0]);
      InsertKeeps(p, s[1..]);
      var rest := Insert(p, s[1..]);
      assert s == [s[0]] + s[1..];
      forall j | 0 <= j < |rest| ensures Le(s[0], rest[j]) {
        assert rest[j] in multiset(rest);
        assert rest[j] == p || rest[j] in s[1..];
      }
    }
  }

  lemma {:induction false} SortKeeps(s: seq<Param>)
    ensures Sorted(Sort(s)) && multiset(Sort(s)) == multiset(s)
  {
    if |s| > 0 {
      SortKeeps(s[1..]);
      InsertKeeps(s[0], Sort(s[1..]));
      assert s == [s[0]] + s[1..];
    }
  }

  lemma NoneLeft<T>(a: seq<T>, b: seq<T>)
    requires multiset(a) == multiset(b) && |a| == 0
    ensures |b| == 0
  {
    assert |multiset(b)| == |b|;
  }

  /** The first element of one arrangement stands somewhere in the other. */
  lemma TakeOut<T>(a: seq<T>, b: seq<T>) returns (k: nat)
    requires multiset(a) == multiset(b) && |a| > 0
    ensures k < |b| && b[k] == a[0] && b == b[..k] + [a[0]] + b[k + 1..]
    ensures multiset(b[..k] + b[k + 1..]) == multiset(a[1..])
  {
    assert a[0] in multiset(b);
    k :| 0 <= k < |b| && b[k] == a[0];
    assert a == [a[0]] + a[1..];
    assert b == b[..k] + [a[0]] + b[k + 1..];
    assert multiset(a) == multiset{a[0]} + multiset(a[1..]);
    assert multiset(b) == multiset{a[0]} + multiset(b[..k] + b[k + 1..]);
    Cancel(a[0], multiset(a[1..]), multiset(b[..k] + b[k + 1..]));
  }

  lemma Cancel<T>(x: T, m: multiset<T>, n: multiset<T>)
    requires multiset{x} + m == multiset{x} + n
    ensures m == n
  {
    assert m == multiset{x} + m - multiset{x};
    assert n == multiset{x} + n - multiset{x};
  }

  lemma SameFirst(s: seq<Param>, t: seq<Param>)
    requires Sorted(s) && Sorted(t) && multiset(s) == multiset(t) && |s| > 0
    ensures |t| > 0 && s[0] == t[0]
  {
    hide Le;
    var k := TakeOut(s, t);
    var j := TakeOut(t, s);
    assert k > 0 ==> Le(t[0], t[k]);
    assert j > 0 ==> Le(s[0], s[j]);
    LeTotal(s[0], t[0]);
  }

  lemma FirstAndRest<T>(s: seq<T>)
    requires |s| > 0
    ensures s == [s[0]] + s[1..] && multiset(s) == multiset{s[0]} + multiset(s[1..])
  {
    assert s == [s[0]] + s[1..];
  }

  /** There is one sorted arrangement. */
  lemma {:induction false} SortedUnique(s: seq<Param>, t: seq<Param>)
    requires Sorted(s) && Sorted(t) && multiset(s) == multiset(t)
    ensures s == t
  {
    hide Le;
    if |s| == 0 {
      NoneLeft(s, t);
    } else {
      SameFirst(s, t);
      FirstAndRest(s);
      FirstAndRest(t);
      Cancel(s[0], multiset(s[1..]), multiset(t[1..]));
      SortedUnique(s[1..], t[1..]);
    }
  }

  // ---------------------------------------------------------------- parameters

  /** The text before and behind the first separator; without one, all of it and nothing. */
  function SplitParam(s: Bytes): Param {
    if |s| == 0 then Param([], [])
    else if s[0] == EQUALS then Param([], s[1..])
    else
      var rest := SplitParam(s[1..]);
      Param([s[0]] + rest.name, rest.value)
  }

  lemma {:induction false} SplitsPrinted(name: Bytes, value: Bytes)
    requires EQUALS !in name
    ensures SplitParam(name + [EQUALS] + value) == Param(name, value)
  {
    var s := name + [EQUALS] + value;
    if |name| == 0 {
      assert s[1..] == value;
    } else {
      SplitsPrinted(name[1..], value);
      assert s[1..] == name[1..] + [EQUALS] + value;
      assert [name[0]] + name[1..] == name;
    }
  }

  /** A piece is split at its first equals sign; without one it is a name with no value. */
  lemma {:induction false} SplitParamExact(s: Bytes)
    ensures var p := SplitParam(s);
            if EQUALS in s then EQUALS !in p.name && s == p.name + [EQUALS] + p.value else p == Param(s, [])
  {
    if |s| > 0 && s[0] != EQUALS {
      SplitParamExact(s[1..]);
      assert s == [s[0]] + s[1..];
    }
  }

  function DecodeEach(p: Param): Param {
    Param(Decode(p.name), Decode(p.value))
  }

  function DecodeParam(s: Bytes): Param {
    DecodeEach(SplitParam(s))
  }

  function EncodeParam(p: Param): Param {
    Param(Encode(p.name), Encode(p.value))
  }

  /** The decoded parameters of the pieces of a query, without empty pieces and excluded names. */
  function Decoded(pieces: seq<Bytes>, exclude: set<Bytes>): seq<Param> {
    if |pieces| == 0 then [] else DecodedPiece(pieces[0], exclude) + Decoded(pieces[1..], exclude)
  }

  function DecodedPiece(piece: Bytes, exclude: set<Bytes>): seq<Param> {
    var p := DecodeParam(piece);
    if piece == [] || p.name in exclude then [] else [p]
  }

  /** What a query says: its decoded names and values. */
  function QueryParams(query: Bytes, exclude: set<Bytes>): seq<Param> {
    Decoded(Split(query, AMP), exclude)
  }

  function Each(f: Param -> Param, ps: seq<Param>): seq<Param> {
    seq(|ps|, k requires 0 <= k < |ps| => f(ps[k]))
  }

  function PrintParam(p: Param): Bytes {
    p.name + [EQUALS] + p.value
  }

  function PrintParams(ps: seq<Param>): seq<Bytes> {
    seq(|ps|, k requires 0 <= k < |ps| => PrintParam(ps[k]))
  }

  function Canonical(query: Bytes, exclude: set<Bytes>): Bytes {
    if query == [] then [] else Join(PrintParams(Sort(Each(EncodeParam, QueryParams(query, exclude)))), AMP)
  }

  // ---------------------------------------------------------------- rearranging

  lemma EachAround(f: Param -> Param, left: seq<Param>, p: Param, right: seq<Param>)
    ensures multiset(Each(f, left + [p] + right)) == multiset{f(p)} + multiset(Each(f, left + right))
  {
    assert Each(f, left + [p] + right) == Each(f, left) + [f(p)] + Each(f, right);
    assert Each(f, left + right) == Each(f, left) + Each(f, right);
  }

  lemma {:induction false} EachPermutes(f: Param -> Param, a: seq<Param>, b: seq<Param>)
    requires multiset(a) == multiset(b)
    ensures multiset(Each(f, a)) == multiset(Each(f, b))
    decreases |a|
  {
    if |a| == 0 {
      NoneLeft(a, b);
    } else {
      var k := TakeOut(a, b);
      EachPermutes(f, a[1..], b[..k] + b[k + 1..]);
      hide Each;
      EachAround(f, b[..k], a[0], b[k + 1..]);
      EachAround(f, [], a[0], a[1..]);
      assert [] + [a[0]] + a[1..] == a && [] + a[1..] == a[1..];
    }
  }

  lemma {:induction false} DecodedAppend(a: seq<Bytes>, b: seq<Bytes>, exclude: set<Bytes>)
    ensures Decoded(a + b, exclude) == Decoded(a, exclude) + Decoded(b, exclude)
  {
    hide DecodedPiece;
    if |a| == 0 {
      assert a + b == b;
    } else {
      DecodedAppend(a[1..], b, exclude);
      assert (a + b)[1..] == a[1..] + b;
      Associate(DecodedPiece(a[0], exclude), Decoded(a[1..], exclude), Decoded(b, exclude));
    }
  }

  lemma DecodedAround(left: seq<Bytes>, piece: Bytes, right: seq<Bytes>, exclude: set<Bytes>)
    ensures multiset(Decoded(left + [piece] + right, exclude))
            == multiset(DecodedPiece(piece, exclude)) + multiset(Decoded(left + right, exclude))
  {
    hide DecodedPiece;
    DecodedAppend(left + [piece], right, exclude);
    DecodedAppend(left, [piece], exclude);
    DecodedAppend(left, right, exclude);
    assert Decoded([piece], exclude) == DecodedPiece(piece, exclude) by { assert Decoded([piece][1..], exclude) == []; }
  }

  lemma {:induction false} DecodedPermutes(a: seq<Bytes>, b: seq<Bytes>, exclude: set<Bytes>)
    requires multiset(a) == multiset(b)
    ensures multiset(Decoded(a, exclude)) == multiset(Decoded(b, exclude))
    decreases |a|
  {
    hide DecodedPiece;
    if |a| == 0 {
      NoneLeft(a, b);
    } else {
      var k := TakeOut(a, b);
      DecodedPermutes(a[1..], b[..k] + b[k + 1..], exclude);
      hide Decoded;
      DecodedAround(b[..k], a[0], b[k + 1..], exclude);
      DecodedAround([], a[0], a[1..], exclude);
      assert [] + [a[0]] + a[1..] == a && [] + a[1..] == a[1..];
    }
  }

  // ---------------------------------------------------------------- what the canonical form says

  lemma PlainEncoding(s: Bytes)
    ensures AMP !in Encode(s) && EQUALS !in Encode(s)
  {
    EncodedFree([s], AMP);
    EncodedFree([s], EQUALS);
    assert EncodeAll([s])[0] == Encode(s);
  }

  lemma ReadsPrinted(p: Param)
    ensures var piece := PrintParam(EncodeParam(p));
            AMP !in piece && piece != [] && DecodeParam(piece) == p
  {
    DecodeEncode(p.name);
    DecodeEncode(p.value);
    PlainEncoding(p.name);
    PlainEncoding(p.value);
    SplitsPrinted(Encode(p.name), Encode(p.value));
  }

  lemma PrintedPiece(ps: seq<Param>, k: nat)
    requires k < |ps|
    ensures PrintParams(Each(EncodeParam, ps))[k] == Encode(ps[k].name) + [EQUALS] + Encode(ps[k].value)
  {
    assert Each(EncodeParam, ps)[k] == EncodeParam(ps[k]);
  }

  lemma {:induction false} ReadsAllPrinted(ps: seq<Param>)
    ensures var pieces := PrintParams(Each(EncodeParam, ps));
            Decoded(pieces, {}) == ps && Free(pieces, AMP)
  {
    hide PrintParam, EncodeParam, DecodeParam;
    if |ps| > 0 {
      var pieces, rest := PrintParams(Each(EncodeParam, ps)), PrintParams(Each(EncodeParam, ps[1..]));
      ReadsPrinted(ps[0]);
      ReadsAllPrinted(ps[1..]);
      assert pieces == [PrintParam(EncodeParam(ps[0]))] + rest;
      assert pieces[1..] == rest;
    }
  }

  lemma Undoes(p: Param)
    ensures DecodeEach(EncodeParam(p)) == p
  {
    DecodeEncode(p.name);
    DecodeEncode(p.value);
  }

  /** A canonical query is the printed form of the parameters in some order, ascending by
      encoded name and then by encoded value. */
  lemma CanonicalArranges(query: Bytes, exclude: set<Bytes>) returns (ps: seq<Param>)
    ensures Canonical(query, exclude) == Join(PrintParams(Each(EncodeParam, ps)), AMP)
    ensures multiset(ps) == multiset(QueryParams(query, exclude)) && Sorted(Each(EncodeParam, ps))
  {
    hide Join, Sort, PrintParams, QueryParams, Sorted, EncodeParam, DecodeEach;
    var given := QueryParams(query, exclude);
    var encoded := Each(EncodeParam, given);
    var sorted := Sort(encoded);
    SortKeeps(encoded);
    ps := Each(DecodeEach, sorted);
    EachPermutes(DecodeEach, sorted, encoded);
    assert Each(DecodeEach, encoded) == given by {
      forall k | 0 <= k < |given| ensures Each(DecodeEach, encoded)[k] == given[k] {
        Undoes(given[k]);
      }
    }
    assert Each(EncodeParam, ps) == sorted by {
      forall k | 0 <= k < |sorted| ensures Each(EncodeParam, ps)[k] == sorted[k] {
        assert sorted[k] in multiset(encoded);
        var j :| 0 <= j < |encoded| && encoded[j] == sorted[k];
        Undoes(given[j]);
      }
    }
    if query == [] {
      EmptyCanonical(exclude);
      NoneLeft(given, ps);
    }
  }

  lemma EmptyCanonical(exclude: set<Bytes>)
    ensures QueryParams([], exclude) == [] && Join(PrintParams([]), AMP) == []
  {
    assert Split([], AMP) == [[]] && Decoded([[]][1..], exclude) == [];
  }

  /** The canonical form says the same as the query, but for what is excluded. */
  lemma CanonicalReads(query: Bytes, exclude: set<Bytes>)
    ensures multiset(QueryParams(Canonical(query, exclude), {})) == multiset(QueryParams(query, exclude))
  {
    hide Join, Sort, Split, Decoded, EncodeParam, PrintParam;
    var ps := CanonicalArranges(query, exclude);
    var pieces := PrintParams(Each(EncodeParam, ps));
    ReadsAllPrinted(ps);
    if |ps| > 0 {
      SplitJoin(pieces, AMP);
    } else {
      EmptyCanonical({});
      assert pieces == [] && ps == [];
    }
  }

  /** Two queries have one canonical form exactly when they hold the same decoded names and
      values, each as often, outside the excluded names. */
  lemma CanonicalExact(a: Bytes, b: Bytes, exclude: set<Bytes>)
    ensures Canonical(a, exclude) == Canonical(b, exclude) <==> multiset(QueryParams(a, exclude)) == multiset(QueryParams(b, exclude))
  {
    hide QueryParams, Canonical;
    CanonicalReads(a, exclude);
    CanonicalReads(b, exclude);
    if multiset(QueryParams(a, exclude)) == multiset(QueryParams(b, exclude)) {
      SameCanonical(a, exclude, b, exclude);
    }
  }

  lemma SameCanonical(a: Bytes, x: set<Bytes>, b: Bytes, y: set<Bytes>)
    requires multiset(QueryParams(a, x)) == multiset(QueryParams(b, y))
    ensures Canonical(a, x) == Canonical(b, y)
  {
    hide QueryParams, Canonical, Join, PrintParams, Each;
    var p := CanonicalArranges(a, x);
    var q := CanonicalArranges(b, y);
    EachPermutes(EncodeParam, p, q);
    SortedUnique(Each(EncodeParam, p), Each(EncodeParam, q));
  }

  /** The order of the pairs in a query does not matter. */
  lemma CanonicalPermutes(a: Bytes, b: Bytes, exclude: set<Bytes>)
    requires multiset(Split(a, AMP)) == multiset(Split(b, AMP))
    ensures Canonical(a, exclude) == Canonical(b, exclude)
  {
    DecodedPermutes(Split(a, AMP), Split(b, AMP), exclude);
    CanonicalExact(a, b, exclude);
  }

  lemma {:induction false} DecodedExcludes(pieces: seq<Bytes>, exclude: set<Bytes>)
    ensures forall p :: p in Decoded(pieces, exclude) ==> p.name !in exclude
  {
    if |pieces| > 0 {
      DecodedExcludes(pieces[1..], exclude);
    }
  }

  lemma {:induction false} NothingToExclude(pieces: seq<Bytes>, exclude: set<Bytes>)
    requires forall p :: p in Decoded(pieces, {}) ==> p.name !in exclude
    ensures Decoded(pieces, exclude) == Decoded(pieces, {})
  {
    if |pieces| > 0 {
      var p := DecodeParam(pieces[0]);
      assert pieces[0] != [] ==> p in Decoded(pieces, {});
      assert forall q :: q in Decoded(pieces[1..], {}) ==> q in Decoded(pieces, {});
      NothingToExclude(pieces[1..], exclude);
    }
  }

  /** A canonical query is its own canonical form. */
  lemma CanonicalIdempotent(query: Bytes, exclude: set<Bytes>)
    ensures Canonical(Canonical(query, exclude), exclude) == Canonical(query, exclude)
  {
    hide Canonical, Decoded;
    var c := Canonical(query, exclude);
    CanonicalReads(query, exclude);
    DecodedExcludes(Split(query, AMP), exclude);
    forall p | p in QueryParams(c, {}) ensures p.name !in exclude {
      assert p in multiset(QueryParams(c, {}));
      assert p in QueryParams(query, exclude);
    }
    NothingToExclude(Split(c, AMP), exclude);
    CanonicalExact(c, query, exclude);
  }
}
