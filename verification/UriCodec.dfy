/** Percent-encoding as sections 2.1 and 2.3 of RFC 3986 define it, splitting and joining,
    and the canonical URI of a signed request. Texts are given by their bytes. */
module UriCodec {
  import opened Bytes
  import opened Text
  import opened Numerals

  const PERCENT: byte := 37
  const SLASH: byte := 47

  predicate Unreserved(b: byte) {
    48 <= b <= 57 || 65 <= b <= 90 || 97 <= b <= 122 || b == 45 || b == 46 || b == 95 || b == 126
  }

  function HexUpper(n: nat): byte
    requires n < 16
  {
    if n < 10 then 48 + n else 55 + n
  }

  function HexNibble(b: byte): Option<nat> {
    ToDigit(b as char, 16)
  }

  function EncodeByte(b: byte): Bytes {
    if Unreserved(b) then [b] else [PERCENT, HexUpper(b / 16), HexUpper(b % 16)]
  }

  function Encode(s: Bytes): Bytes {
    if |s| == 0 then [] else EncodeByte(s[0]) + Encode(s[1..])
  }

  predicate StartsEscape(s: Bytes) {
    |s| >= 3 && s[0] == PERCENT && HexNibble(s[1]).Some? && HexNibble(s[2]).Some?
  }

  /** Malformed escapes stand for themselves. */
  function Decode(s: Bytes): Bytes {
    if |s| == 0 then []
    else if StartsEscape(s) then [16 * HexNibble(s[1]).value + HexNibble(s[2]).value] + Decode(s[3..])
    else [s[0]] + Decode(s[1..])
  }

  lemma DecodesByte(b: byte, rest: Bytes)
    ensures Decode(EncodeByte(b) + rest) == [b] + Decode(rest)
  {
    var s := EncodeByte(b) + rest;
    if Unreserved(b) {
      assert s[1..] == rest;
    } else {
      assert StartsEscape(s) && s[3..] == rest;
    }
  }

  lemma {:induction false} DecodeEncode(s: Bytes)
    ensures Decode(Encode(s)) == s
  {
    if |s| > 0 {
      DecodesByte(s[0], Encode(s[1..]));
      DecodeEncode(s[1..]);
    }
  }

  // ---------------------------------------------------------------- spellings

  /** Letters, digits, hyphen, period, underscore and tilde. */
  lemma UnreservedExact(b: byte)
    ensures var c := b as char;
            Unreserved(b) <==> 'A' <= c <= 'Z' || 'a' <= c <= 'z' || '0' <= c <= '9' || c in {'-', '.', '_', '~'}
  {
  }

  /** A byte stands for itself or is escaped, in digits of either case. */
  predicate Spells(t: Bytes, s: Bytes) {
    if |s| == 0 then t == []
    else
      || (|t| > 0 && t[0] == s[0] && t[0] != PERCENT && Spells(t[1..], s[1..]))
      || (|t| > 2 && t[0] == PERCENT && IsDigit(t[1] as char, s[0] / 16) && IsDigit(t[2] as char, s[0] % 16) && Spells(t[3..], s[1..]))
  }

  lemma NibbleExact(b: byte, d: nat)
    ensures HexNibble(b) == Some(d) <==> IsDigit(b as char, d)
  {
    ToDigitExact(b as char, 16, d);
  }

  /** Every spelling decodes to what it spells. */
  lemma {:induction false} DecodesSpelled(t: Bytes, s: Bytes)
    requires Spells(t, s)
    ensures Decode(t) == s
  {
    hide HexNibble, IsDigit;
    if |s| > 0 {
      if t[0] == s[0] && t[0] != PERCENT && Spells(t[1..], s[1..]) {
        DecodesSpelled(t[1..], s[1..]);
      } else {
        NibbleExact(t[1], s[0] / 16);
        NibbleExact(t[2], s[0] % 16);
        DecodesSpelled(t[3..], s[1..]);
      }
    }
  }

  /** What is no escape stands for itself. */
  lemma {:induction false} DecodesLiterally(t: Bytes)
    requires forall k :: 0 <= k < |t| ==> !StartsEscape(t[k..])
    ensures Decode(t) == t
  {
    if |t| > 0 {
      assert t[0..] == t;
      forall k | 0 <= k < |t| - 1 ensures !StartsEscape(t[1..][k..]) {
        assert t[1..][k..] == t[k + 1..];
      }
      DecodesLiterally(t[1..]);
    }
  }

  /** Unreserved bytes stand for themselves; all others are escaped in upper case. */
  predicate Normal(t: Bytes, s: Bytes) {
    if |s| == 0 then t == []
    else if Unreserved(s[0]) then |t| > 0 && t[0] == s[0] && Normal(t[1..], s[1..])
    else |t| > 2 && t[0] == PERCENT && t[1] as char == UPPER[s[0] / 16] && t[2] as char == UPPER[s[0] % 16] && Normal(t[3..], s[1..])
  }

  lemma UpperExact(d: nat)
    requires d < 16
    ensures HexUpper(d) as char == UPPER[d]
  {
    assert UPPER[0] == '0' && UPPER[1] == '1' && UPPER[2] == '2' && UPPER[3] == '3' && UPPER[4] == '4' && UPPER[5] == '5'
        && UPPER[6] == '6' && UPPER[7] == '7' && UPPER[8] == '8' && UPPER[9] == '9' && UPPER[10] == 'A' && UPPER[11] == 'B'
        && UPPER[12] == 'C' && UPPER[13] == 'D' && UPPER[14] == 'E' && UPPER[15] == 'F';
  }

  /** The encoding is the one normal spelling. */
  lemma {:induction false} EncodeExact(t: Bytes, s: Bytes)
    ensures t == Encode(s) <==> Normal(t, s)
  {
    hide HexUpper, Unreserved;
    if |s| > 0 {
      var n := if Unreserved(s[0]) then 1 else 3;
      UpperExact(s[0] / 16);
      UpperExact(s[0] % 16);
      assert Encode(s)[n..] == Encode(s[1..]);
      if |t| >= n {
        EncodeExact(t[n..], s[1..]);
        assert t == t[..n] + t[n..] && Encode(s) == Encode(s)[..n] + Encode(s)[n..];
      }
    }
  }

  lemma {:induction false} EncodedBytes(s: Bytes, b: byte)
    requires b in Encode(s)
    ensures Unreserved(b) || b == PERCENT
  {
    if b in Encode(s[1..]) {
      EncodedBytes(s[1..], b);
    }
  }

  /** No escape reaches across a separator. */
  lemma EscapeAppend(a: Bytes, sep: byte, b: Bytes)
    requires sep != PERCENT && HexNibble(sep).None?
    ensures StartsEscape(a + [sep] + b) == StartsEscape(a)
    ensures StartsEscape(a) ==> |a| >= 3 && HexNibble(a[1]).Some? && HexNibble(a[2]).Some?
  {
  }

  lemma {:induction false} DecodeAppend(a: Bytes, sep: byte, b: Bytes)
    requires sep != PERCENT && HexNibble(sep).None?
    ensures Decode(a + [sep] + b) == Decode(a) + [sep] + Decode(b)
    decreases |a|
  {
    hide StartsEscape, HexNibble;
    var s := a + [sep] + b;
    EscapeAppend(a, sep, b);
    if |a| == 0 {
      assert s[1..] == b;
    } else if StartsEscape(a) {
      assert s[3..] == a[3..] + [sep] + b;
      DecodeAppend(a[3..], sep, b);
    } else {
      assert s[1..] == a[1..] + [sep] + b;
      DecodeAppend(a[1..], sep, b);
    }
  }

  // ---------------------------------------------------------------- segments

  function EncodeAll(parts: seq<Bytes>): seq<Bytes> {
    seq(|parts|, k requires 0 <= k < |parts| => Encode(parts[k]))
  }

  function DecodeAll(parts: seq<Bytes>): seq<Bytes> {
    seq(|parts|, k requires 0 <= k < |parts| => Decode(parts[k]))
  }

  lemma EncodedFree(parts: seq<Bytes>, sep: byte)
    requires !Unreserved(sep) && sep != PERCENT
    ensures Free(EncodeAll(parts), sep) && DecodeAll(EncodeAll(parts)) == parts
  {
    forall k | 0 <= k < |parts| ensures sep !in Encode(parts[k]) && Decode(Encode(parts[k])) == parts[k] {
      DecodeEncode(parts[k]);
      if sep in Encode(parts[k]) {
        EncodedBytes(parts[k], sep);
      }
    }
  }

  // ---------------------------------------------------------------- object keys

  /** The request path of a key: its segments encoded, its slashes kept. */
  function EncodeKeyForPath(key: Bytes): Bytes {
    Join(EncodeAll(Split(key, SLASH)), SLASH)
  }

  lemma {:induction false} DecodeJoin(parts: seq<Bytes>)
    ensures Decode(Join(parts, SLASH)) == Join(DecodeAll(parts), SLASH)
  {
    if |parts| > 1 {
      DecodeJoin(parts[1..]);
      assert DecodeAll(parts)[1..] == DecodeAll(parts[1..]);
      DecodeAppend(parts[0], SLASH, Join(parts[1..], SLASH));
    }
  }

  /** Decoding a key's request path gives the key back, so both name the same binding. */
  lemma KeyPathRoundTrip(key: Bytes)
    ensures Decode(EncodeKeyForPath(key)) == key
  {
    DecodeJoin(EncodeAll(Split(key, SLASH)));
    EncodedFree(Split(key, SLASH), SLASH);
    JoinSplit(key, SLASH);
  }

  /** The path has the key's segments, each encoded. */
  lemma KeyPathSegments(key: Bytes)
    ensures Split(EncodeKeyForPath(key), SLASH) == EncodeAll(Split(key, SLASH))
  {
    EncodedFree(Split(key, SLASH), SLASH);
    SplitJoin(EncodeAll(Split(key, SLASH)), SLASH);
  }

  // ---------------------------------------------------------------- the canonical URI

  /** What a path names: its decoded segments; no path is the root. */
  function Segments(path: Bytes): seq<Bytes> {
    DecodeAll(Split(if path == [] then [SLASH] else path, SLASH))
  }

  /** Each segment decoded and encoded again, without normalization. */
  function CanonicalUri(path: Bytes): Bytes {
    Join(EncodeAll(Segments(path)), SLASH)
  }

  lemma CanonicalSegments(path: Bytes)
    ensures CanonicalUri(path) != [] && Segments(CanonicalUri(path)) == Segments(path)
  {
    var segments := Segments(path);
    EncodedFree(segments, SLASH);
    SplitJoin(EncodeAll(segments), SLASH);
    CanonicalNotEmpty(path);
  }

  lemma CanonicalNotEmpty(path: Bytes)
    ensures CanonicalUri(path) != []
  {
    var p := if path == [] then [SLASH] else path;
    var parts := Split(p, SLASH);
    if |parts| == 1 {
      JoinSplit(p, SLASH);
      assert Decode(p) != [];
    }
  }

  /** Two paths have the same canonical URI exactly when their decoded segments agree. */
  lemma CanonicalUriExact(a: Bytes, b: Bytes)
    ensures CanonicalUri(a) == CanonicalUri(b) <==> Segments(a) == Segments(b)
  {
    CanonicalSegments(a);
    CanonicalSegments(b);
  }

  lemma CanonicalUriIdempotent(path: Bytes)
    ensures CanonicalUri(CanonicalUri(path)) == CanonicalUri(path)
  {
    CanonicalSegments(path);
  }
}
