/** The cache in front of the footer reads: bounded, least recently used entries leave
    first, keyed by backend, request path and the ETag that the backend announced. */
module FooterCache {
  import opened Bytes
  import opened Cipher
  import opened FooterCodec
  import opened SealedFooter

  datatype Key = Key(backend: string, path: string, etag: string)

  // ---------------------------------------------------------------- entries, most recent first

  function Find(entries: seq<(Key, Footer)>, k: Key): Option<Footer> {
    if |entries| == 0 then None
    else if entries[0].0 == k then Some(entries[0].1)
    else Find(entries[1..], k)
  }

  function Without(entries: seq<(Key, Footer)>, k: Key): seq<(Key, Footer)> {
    if |entries| == 0 then []
    else if entries[0].0 == k then Without(entries[1..], k)
    else [entries[0]] + Without(entries[1..], k)
  }

  lemma {:induction false} FindWithout(entries: seq<(Key, Footer)>, k: Key, k': Key)
    ensures Find(Without(entries, k), k') == if k' == k then None else Find(entries, k')
    ensures |Without(entries, k)| + (if Find(entries, k).Some? then 1 else 0) <= |entries|
  {
    if |entries| > 0 {
      FindWithout(entries[1..], k, k');
    }
  }

  predicate Absent(entries: seq<(Key, Footer)>, k: Key) {
    forall i :: 0 <= i < |entries| ==> entries[i].0 != k
  }

  lemma {:induction false} WithoutAbsent(entries: seq<(Key, Footer)>, k: Key)
    requires Absent(entries, k)
    ensures Without(entries, k) == entries && Find(entries, k) == None
  {
    if |entries| > 0 {
      WithoutAbsent(entries[1..], k);
    }
  }

  /** Taking out an entry leaves the others in their order. */
  lemma {:induction false} WithoutExact(a: seq<(Key, Footer)>, k: Key, f: Footer, b: seq<(Key, Footer)>)
    requires Absent(a, k) && Absent(b, k)
    ensures Without(a + [(k, f)] + b, k) == a + b && Find(a + [(k, f)] + b, k) == Some(f)
  {
    var all := a + [(k, f)] + b;
    if |a| == 0 {
      assert all[1..] == b && a + b == b;
      WithoutAbsent(b, k);
    } else {
      WithoutExact(a[1..], k, f, b);
      assert all[1..] == a[1..] + [(k, f)] + b;
      assert a + b == [a[0]] + (a[1..] + b);
    }
  }

  /** Cutting the list short loses entries and changes none. */
  lemma {:induction false} FindCut(entries: seq<(Key, Footer)>, n: nat, k: Key)
    requires n <= |entries|
    ensures Find(entries[..n], k).Some? ==> Find(entries[..n], k) == Find(entries, k)
  {
    if n > 0 {
      assert entries[..n][1..] == entries[1..][..n - 1];
      FindCut(entries[1..], n - 1, k);
    }
  }

  // ---------------------------------------------------------------- the cache

  /** An object as its key names it: how its footer opens and what is stored. */
  datatype Named = Named(alg: Alg, open: Opener, stored: Bytes)

  /** Every entry is the footer of the object that its key names. */
  ghost predicate Sound(world: Key -> Named, entries: seq<(Key, Footer)>) {
    forall k :: Find(entries, k).Some? ==> EndsWithFooter(world(k).alg, world(k).open, world(k).stored, Find(entries, k).value)
  }

  class Cache {
    const capacity: nat
    var entries: seq<(Key, Footer)>

    ghost predicate Valid()
      reads this
    {
      1 <= capacity && |entries| <= capacity
    }

    constructor (capacity: nat)
      ensures Valid() && entries == [] && this.capacity == if capacity == 0 then 1 else capacity
    {
      this.capacity := if capacity == 0 then 1 else capacity;
      entries := [];
    }

    /** A hit becomes the most recent entry; nothing else changes. */
    method Get(k: Key) returns (r: Option<Footer>)
      requires Valid()
      modifies this`entries
      ensures Valid() && r == old(Find(entries, k))
      ensures entries == if r.Some? then [(k, r.value)] + old(Without(entries, k)) else old(entries)
      ensures forall k' :: Find(entries, k') == old(Find(entries, k'))
    {
      r := Find(entries, k);
      if r.Some? {
        forall k' ensures Find([(k, r.value)] + Without(entries, k), k') == Find(entries, k') {
          FindWithout(entries, k, k');
          FindFirst(k, r.value, Without(entries, k), k');
        }
        FindWithout(entries, k, k);
        entries := [(k, r.value)] + Without(entries, k);
      }
    }

    /** The new entry is there; of the others, just those beyond the capacity are gone, the
        least recent ones. */
    method Put(k: Key, f: Footer)
      requires Valid()
      modifies this`entries
      ensures Valid() && Find(entries, k) == Some(f)
      ensures entries <= [(k, f)] + old(Without(entries, k)) && |entries| == Min(capacity, 1 + |old(Without(entries, k))|)
      ensures forall k' :: Find(entries, k').Some? && k' != k ==> Find(entries, k') == old(Find(entries, k'))
    {
      var all := [(k, f)] + Without(entries, k);
      var n := Min(capacity, |all|);
      forall k' ensures Find(all[..n], k').Some? && k' != k ==> Find(all[..n], k') == Find(entries, k') {
        FindCut(all, n, k');
        FindFirst(k, f, Without(entries, k), k');
        FindWithout(entries, k, k');
      }
      assert all[..n][0] == (k, f);
      entries := all[..n];
    }

    /** Loads a footer through the cache. As long as a backend, path and ETag name one object
        and the backend serves it, the cache makes no difference to what is loaded. */
    method Load(ghost world: Key -> Named, alg: Alg, open: Opener, k: Key, a: Answers) returns (r: Result<Footer, LoadError>)
      requires Valid()
      modifies this`entries
      ensures Valid()
      ensures old(Find(entries, k)).Some? ==> r == Ok(old(Find(entries, k)).value)
      ensures old(Find(entries, k)).None? ==>
                && (r.Ok? <==> exists f :: Loads(alg, open, a, f)) && (r.Ok? ==> Loads(alg, open, a, r.value) && Find(entries, k) == Some(r.value))
      ensures old(Sound(world, entries)) && alg == world(k).alg && open == world(k).open && a == Served(world(k).stored) ==>
                && Sound(world, entries)
                && (r.Ok? <==> exists f :: EndsWithFooter(alg, open, world(k).stored, f))
                && (r.Ok? ==> EndsWithFooter(alg, open, world(k).stored, r.value))
    {
      hide Loads, EndsWithFooter, Find, Without, Served;
      ghost var before := entries;
      var cached := Get(k);
      if cached.Some? {
        return Ok(cached.value);
      }
      r := LoadFooter(alg, open, a);
      if a == Served(world(k).stored) {
        forall f ensures Loads(alg, open, a, f) <==> EndsWithFooter(alg, open, world(k).stored, f) {
          ServedLoads(alg, open, world(k).stored, f);
        }
      }
      if r.Ok? {
        Put(k, r.value);
      }
    }
  }

  lemma FindFirst(k: Key, f: Footer, rest: seq<(Key, Footer)>, k': Key)
    ensures Find([(k, f)] + rest, k') == if k' == k then Some(f) else Find(rest, k')
  {
    assert ([(k, f)] + rest)[1..] == rest;
  }
}
