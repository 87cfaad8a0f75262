/** Exact size arithmetic of format v1: chunk counts, ciphertext lengths and
    their inverse. */
module SizeMath {
  import opened Bytes
  import opened Cipher

  const MIN_CHUNK_SIZE: nat := 65_536
  const MAX_CHUNK_SIZE: nat := 8_388_608

  /** Chunks of a plaintext; an empty object still has one (empty) chunk. */
  function NChunks(ptLen: nat, chunkSize: nat): (n: nat)
    requires chunkSize > 0
    ensures n >= 1
  {
    var c := (ptLen + chunkSize - 1) / chunkSize;
    if c < 1 then 1 else c
  }

  function CiphertextLen(alg: Alg, ptLen: nat, chunkSize: nat): nat
    requires chunkSize > 0
  {
    ptLen + NChunks(ptLen, chunkSize) * alg.Overhead()
  }

  function PlaintextLen(alg: Alg, ctLen: nat, chunkSize: nat): Result<nat, Error>
    requires chunkSize > 0
  {
    var overhead := alg.Overhead();
    var full := chunkSize + overhead;
    if ctLen < overhead then Err(InvalidLength)
    else
      var nMinus1 := (ctLen - overhead) / full;
      var last := ctLen - nMinus1 * full;
      if last < overhead || last > full || (last == overhead && nMinus1 > 0) then Err(InvalidLength)
      else Ok(nMinus1 * chunkSize + (last - overhead))
  }

  lemma MulStep(k: nat, m: nat)
    ensures (k + 1) * m == k * m + m
  {
  }

  lemma MulMono(a: nat, b: nat, m: nat)
    requires a <= b
    ensures a * m <= b * m
  {
  }

  /** Euclidean division is the only way to write `x` as `q * d + r`, `r < d`. */
  lemma DivUnique(x: nat, d: nat, q: nat, r: nat)
    requires d > 0 && x == q * d + r && r < d
    ensures x / d == q && x % d == r
  {
    var q', r' := x / d, x % d;
    assert x == q' * d + r' && 0 <= r' < d;
    if q' < q {
      MulMono(q' + 1, q, d);
      MulStep(q', d);
      assert false;
    } else if q' > q {
      MulMono(q + 1, q', d);
      MulStep(q, d);
      assert false;
    }
  }

  lemma DivFacts(x: nat, d: nat)
    requires d > 0
    ensures x == x / d * d + x % d && 0 <= x % d < d
  {
  }

  /** The last chunk is the only one that may be short, and is empty only for
      the empty object. */
  lemma NChunksBounds(ptLen: nat, chunkSize: nat)
    requires chunkSize > 0
    ensures var n := NChunks(ptLen, chunkSize);
            ptLen <= n * chunkSize && (if ptLen == 0 then n == 1 else (n - 1) * chunkSize < ptLen)
  {
    if ptLen == 0 {
      DivUnique(chunkSize - 1, chunkSize, 0, chunkSize - 1);
    } else {
      var x := ptLen + chunkSize - 1;
      DivFacts(x, chunkSize);
      var c := x / chunkSize;
      MulStep(c - 1, chunkSize);
    }
  }

  /** Those bounds determine the chunk count. */
  lemma NChunksUnique(ptLen: nat, chunkSize: nat, n: nat)
    requires chunkSize > 0 && n > 0
    requires ptLen <= n * chunkSize && (if ptLen == 0 then n == 1 else (n - 1) * chunkSize < ptLen)
    ensures NChunks(ptLen, chunkSize) == n
  {
    NChunksBounds(ptLen, chunkSize);
    var m := NChunks(ptLen, chunkSize);
    if m < n {
      MulMono(m, n - 1, chunkSize);
    } else if n < m {
      MulMono(n, m - 1, chunkSize);
    }
  }

  /** The length of an encoded plaintext is inverted exactly. */
  lemma InvertsCiphertextLen(alg: Alg, ptLen: nat, chunkSize: nat)
    requires chunkSize > 0
    ensures PlaintextLen(alg, CiphertextLen(alg, ptLen, chunkSize), chunkSize) == Ok(ptLen)
  {
    var n := NChunks(ptLen, chunkSize);
    NChunksBounds(ptLen, chunkSize);
    var o := alg.Overhead();
    var q := n - 1;
    var r := ptLen - q * chunkSize;
    MulStep(q, chunkSize);
    MulStep(q, o);
    var c := CiphertextLen(alg, ptLen, chunkSize);
    assert q * (chunkSize + o) == q * chunkSize + q * o;
    DivUnique(c - o, chunkSize + o, q, r);
  }

  /** A length is accepted only when some plaintext encodes to it. */
  lemma AcceptsOnlyCiphertextLen(alg: Alg, ctLen: nat, chunkSize: nat)
    requires chunkSize > 0
    requires PlaintextLen(alg, ctLen, chunkSize).Ok?
    ensures CiphertextLen(alg, PlaintextLen(alg, ctLen, chunkSize).value, chunkSize) == ctLen
  {
    var o := alg.Overhead();
    var full := chunkSize + o;
    DivFacts(ctLen - o, full);
    var q, r := (ctLen - o) / full, (ctLen - o) % full;
    var p := PlaintextLen(alg, ctLen, chunkSize).value;
    assert q * full == q * chunkSize + q * o;
    assert p == q * chunkSize + r;
    MulStep(q, chunkSize);
    MulStep(q, o);
    NChunksUnique(p, chunkSize, q + 1);
  }

  /** `plaintext_len` inverts `ciphertext_len` and nothing else is accepted. */
  lemma PlaintextLenExact(alg: Alg, ctLen: nat, chunkSize: nat)
    requires chunkSize > 0
    ensures forall p: nat :: PlaintextLen(alg, ctLen, chunkSize) == Ok(p) <==> CiphertextLen(alg, p, chunkSize) == ctLen
    ensures PlaintextLen(alg, ctLen, chunkSize).Err? <==> !exists p: nat :: CiphertextLen(alg, p, chunkSize) == ctLen
  {
    forall p: nat
      ensures PlaintextLen(alg, ctLen, chunkSize) == Ok(p) <==> CiphertextLen(alg, p, chunkSize) == ctLen
    {
      InvertsCiphertextLen(alg, p, chunkSize);
      if PlaintextLen(alg, ctLen, chunkSize).Ok? {
        AcceptsOnlyCiphertextLen(alg, ctLen, chunkSize);
      }
    }
  }

  lemma NChunksMono(a: nat, b: nat, chunkSize: nat)
    requires chunkSize > 0 && a <= b
    ensures NChunks(a, chunkSize) <= NChunks(b, chunkSize)
  {
    NChunksBounds(a, chunkSize);
    NChunksBounds(b, chunkSize);
    if NChunks(b, chunkSize) < NChunks(a, chunkSize) {
      MulMono(NChunks(b, chunkSize), NChunks(a, chunkSize) - 1, chunkSize);
    }
  }

  lemma CiphertextLenIncreasing(alg: Alg, a: nat, b: nat, chunkSize: nat)
    requires chunkSize > 0 && a < b
    ensures CiphertextLen(alg, a, chunkSize) < CiphertextLen(alg, b, chunkSize)
  {
    NChunksMono(a, b, chunkSize);
    MulMono(NChunks(a, chunkSize), NChunks(b, chunkSize), alg.Overhead());
  }

  /** What 64-bit arithmetic keeps of a number. */
  function Wrap64(x: nat): nat { x % TWO_64 }

  lemma WrapExact(x: nat)
    ensures Wrap64(x) == x <==> x < TWO_64
  {
  }

  /** `ciphertext_len` as the 64-bit code computes it, wrapping on overflow. */
  function CiphertextLen64(alg: Alg, ptLen: nat, chunkSize: nat): nat
    requires chunkSize > 0
  {
    Wrap64(ptLen + Wrap64(NChunks(ptLen, chunkSize) * alg.Overhead()))
  }

  /** Wrapping early makes no difference to a sum. */
  lemma WrapFirst(a: nat, b: nat)
    ensures Wrap64(Wrap64(a) + b) == Wrap64(a + b)
  {
  }

  lemma WrapBoth(a: nat, b: nat)
    ensures Wrap64(Wrap64(a) + Wrap64(b)) == Wrap64(a + b)
  {
    hide Wrap64;
    WrapFirst(a, Wrap64(b));
    WrapFirst(b, a);
    assert a + Wrap64(b) == Wrap64(b) + a && b + a == a + b;
  }

  lemma CiphertextLenWraps(alg: Alg, ptLen: nat, chunkSize: nat)
    requires chunkSize > 0
    ensures CiphertextLen64(alg, ptLen, chunkSize) == Wrap64(CiphertextLen(alg, ptLen, chunkSize))
  {
    hide Wrap64;
    MulMono(0, NChunks(ptLen, chunkSize), alg.Overhead());
    var x := NChunks(ptLen, chunkSize) * alg.Overhead();
    WrapFirst(x, ptLen);
    assert Wrap64(x) + ptLen == ptLen + Wrap64(x);
  }

  lemma MulMonoRight(k: nat, a: nat, b: nat)
    requires a <= b
    ensures k * a <= k * b
  {
  }

  lemma OverheadTotalSmall(alg: Alg, ptLen: nat, chunkSize: nat)
    requires MIN_CHUNK_SIZE <= chunkSize && ptLen < TWO_64
    ensures NChunks(ptLen, chunkSize) * alg.Overhead() <= 0x40_0000_0000_0000
  {
    var n := NChunks(ptLen, chunkSize);
    NChunksBounds(ptLen, chunkSize);
    MulMonoRight(n - 1, MIN_CHUNK_SIZE, chunkSize);
    assert n <= 0x1_0000_0000_0000;
    MulMonoRight(n, alg.Overhead(), 64);
  }

  /** With a configured chunk size nothing wraps for lengths up to 2^63, and for
      any 64-bit length the result is right exactly when it fits in 64 bits. */
  lemma CiphertextLenNoWrap(alg: Alg, ptLen: nat, chunkSize: nat)
    requires MIN_CHUNK_SIZE <= chunkSize <= MAX_CHUNK_SIZE && ptLen < TWO_64
    ensures ptLen <= TWO_63 ==> CiphertextLen(alg, ptLen, chunkSize) < TWO_64
    ensures CiphertextLen64(alg, ptLen, chunkSize) == CiphertextLen(alg, ptLen, chunkSize)
            <==> CiphertextLen(alg, ptLen, chunkSize) < TWO_64
  {
    OverheadTotalSmall(alg, ptLen, chunkSize);
    var x := NChunks(ptLen, chunkSize) * alg.Overhead();
    assert x % TWO_64 == x;
  }
}
