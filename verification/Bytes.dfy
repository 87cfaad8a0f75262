/** Bytes, results, concatenation of pieces and little-endian integers:
    the vocabulary every other module is written in. */
module Bytes {

  type byte = x: int | 0 <= x < 256
  type Bytes = seq<byte>

  const TWO_32: nat := 0x1_0000_0000
  const TWO_63: nat := 0x8000_0000_0000_0000
  const TWO_64: nat := 0x1_0000_0000_0000_0000

  datatype Option<+T> = None | Some(value: T)

  datatype Result<+T, +E> = Ok(value: T) | Err(error: E) {
    predicate IsFailure() { Err? }

    function PropagateFailure<U>(): Result<U, E>
      requires Err?
    {
      Err(error)
    }

    function Extract(): T
      requires Ok?
    {
      value
    }
  }

  function Min(a: int, b: int): int { if a < b then a else b }

  lemma SliceOfJoin(a: Bytes, b: Bytes, lo: nat, hi: nat, from: nat, to: nat)
    requires lo <= hi <= |a| && from <= to <= |b| && (hi < |a| ==> to == 0) && (from > 0 ==> lo == |a|)
    ensures (a + b)[lo + from..hi + to] == a[lo..hi] + b[from..to]
  {
  }

  lemma PrefixesCompare<T>(a: seq<T>, b: seq<T>, all: seq<T>)
    requires a <= all && b <= all
    ensures a <= b || b <= a
  {
    assert all[..|a|] == a && all[..|b|] == b;
  }

  /** The pieces of a stream, put back together in order. */
  function Concat<T>(pieces: seq<seq<T>>): seq<T> {
    if |pieces| == 0 then [] else Concat(pieces[..|pieces| - 1]) + pieces[|pieces| - 1]
  }

  lemma ConcatPush<T>(pieces: seq<seq<T>>, piece: seq<T>)
    ensures Concat(pieces + [piece]) == Concat(pieces) + piece
  {
    assert (pieces + [piece])[..|pieces|] == pieces;
  }

  lemma ConcatStep<T>(pieces: seq<seq<T>>, i: nat)
    requires i < |pieces|
    ensures Concat(pieces[..i + 1]) == Concat(pieces[..i]) + pieces[i]
  {
    assert pieces[..i + 1] == pieces[..i] + [pieces[i]];
    ConcatPush(pieces[..i], pieces[i]);
  }

  lemma {:induction false} ConcatPrefix<T>(pieces: seq<seq<T>>, i: nat)
    requires i <= |pieces|
    ensures Concat(pieces[..i]) <= Concat(pieces)
    decreases |pieces| - i
  {
    if i == |pieces| {
      assert pieces[..i] == pieces;
    } else {
      ConcatPrefix(pieces, i + 1);
      ConcatStep(pieces, i);
    }
  }

  /** Whole pieces and the front of the next are the front of all. */
  lemma FrontOfConcat<T>(pieces: seq<seq<T>>, k: nat, own: seq<T>)
    requires k < |pieces| && own <= pieces[k]
    ensures Concat(pieces[..k]) + own <= Concat(pieces)
  {
    ConcatStep(pieces, k);
    ConcatPrefix(pieces, k + 1);
  }

  /** The low `n` bytes of `x`, least significant first, as the fixed-width
      `to_le_bytes` conversions write it (higher bytes are lost, as a cast loses them). */
  function LittleEndian(x: nat, n: nat): (b: Bytes)
    ensures |b| == n
  {
    if n == 0 then [] else [x % 256] + LittleEndian(x / 256, n - 1)
  }

  function FromLittleEndian(b: Bytes): nat {
    if |b| == 0 then 0 else b[0] + 256 * FromLittleEndian(b[1..])
  }

  function Pow256(n: nat): (p: nat)
    ensures p > 0
  {
    if n == 0 then 1 else 256 * Pow256(n - 1)
  }

  lemma Pow256Widths()
    ensures Pow256(4) == TWO_32 && Pow256(8) == TWO_64
  {
    assert Pow256(2) == 0x1_0000;
    assert Pow256(4) == TWO_32;
    assert Pow256(6) == 0x1_0000_0000_0000;
  }

  /** A number that fits in `n` bytes survives the trip. */
  lemma {:induction false} LittleEndianRoundTrip(x: nat, n: nat)
    requires x < Pow256(n)
    ensures FromLittleEndian(LittleEndian(x, n)) == x
  {
    if n > 0 {
      LittleEndianRoundTrip(x / 256, n - 1);
      assert LittleEndian(x, n)[1..] == LittleEndian(x / 256, n - 1);
    }
  }

  /** Every byte string is the encoding of the number it decodes to. */
  lemma {:induction false} LittleEndianReencode(b: Bytes)
    ensures FromLittleEndian(b) < Pow256(|b|)
    ensures LittleEndian(FromLittleEndian(b), |b|) == b
  {
    if |b| > 0 {
      LittleEndianReencode(b[1..]);
      assert FromLittleEndian(b) / 256 == FromLittleEndian(b[1..]);
    }
  }

  lemma LittleEndianInjective(x: nat, y: nat, n: nat)
    requires x < Pow256(n) && y < Pow256(n)
    requires LittleEndian(x, n) == LittleEndian(y, n)
    ensures x == y
  {
    LittleEndianRoundTrip(x, n);
    LittleEndianRoundTrip(y, n);
  }
}
