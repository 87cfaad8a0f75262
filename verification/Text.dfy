/** Trimming, splitting and joining of text. */
module Text {
  import opened Bytes

  /** Unicode white space. */
  predicate IsSpace(c: char) {
    var n := c as int;
    || 0x09 <= n <= 0x0D || n == 0x20 || n == 0x85 || n == 0xA0 || n == 0x1680 || 0x2000 <= n <= 0x200A
    || n == 0x2028 || n == 0x2029 || n == 0x202F || n == 0x205F || n == 0x3000
  }

  function TrimStart(s: string): string {
    if |s| > 0 && IsSpace(s[0]) then TrimStart(s[1..]) else s
  }

  function TrimEnd(s: string): string {
    if |s| > 0 && IsSpace(s[|s| - 1]) then TrimEnd(s[..|s| - 1]) else s
  }

  function Trim(s: string): string {
    TrimEnd(TrimStart(s))
  }

  predicate Blank(s: string) {
    forall k :: 0 <= k < |s| ==> IsSpace(s[k])
  }

  /** Nothing to trim at either end. */
  predicate Tight(s: string) {
    |s| > 0 ==> !IsSpace(s[0]) && !IsSpace(s[|s| - 1])
  }

  lemma {:induction false} TrimStartExact(s: string) returns (left: string)
    ensures Blank(left) && s == left + TrimStart(s) && (|TrimStart(s)| > 0 ==> !IsSpace(TrimStart(s)[0]))
  {
    left := "";
    if |s| > 0 && IsSpace(s[0]) {
      left := TrimStartExact(s[1..]);
      left := [s[0]] + left;
    }
  }

  lemma {:induction false} TrimEndExact(s: string) returns (right: string)
    ensures Blank(right) && s == TrimEnd(s) + right && (|TrimEnd(s)| > 0 ==> !IsSpace(TrimEnd(s)[|TrimEnd(s)| - 1]))
  {
    right := "";
    if |s| > 0 && IsSpace(s[|s| - 1]) {
      right := TrimEndExact(s[..|s| - 1]);
      right := right + [s[|s| - 1]];
    }
  }

  /** Trimming takes the blanks from both ends and nothing else. */
  lemma TrimExact(s: string) returns (left: string, right: string)
    ensures Blank(left) && Blank(right) && Tight(Trim(s)) && s == left + Trim(s) + right
  {
    left := TrimStartExact(s);
    right := TrimEndExact(TrimStart(s));
    assert |Trim(s)| > 0 ==> Trim(s)[0] == TrimStart(s)[0];
  }

  lemma {:induction false} TrimsLeft(left: string, s: string)
    requires Blank(left) && (|s| > 0 ==> !IsSpace(s[0]))
    ensures TrimStart(left + s) == s
  {
    if |left| == 0 {
      assert left + s == s;
    } else {
      TrimsLeft(left[1..], s);
      assert (left + s)[1..] == left[1..] + s;
    }
  }

  lemma {:induction false} TrimsRight(s: string, right: string)
    requires Blank(right) && (|s| > 0 ==> !IsSpace(s[|s| - 1]))
    ensures TrimEnd(s + right) == s
  {
    if |right| == 0 {
      assert s + right == s;
    } else {
      var n := |right| - 1;
      TrimsRight(s, right[..n]);
      assert (s + right)[..|s + right| - 1] == s + right[..n];
    }
  }

  lemma TrimUnique(left: string, s: string, right: string)
    requires Blank(left) && Blank(right) && Tight(s)
    ensures Trim(left + s + right) == s
  {
    if |s| > 0 {
      TrimsLeft(left, s + right);
      TrimsRight(s, right);
      assert left + s + right == left + (s + right);
    } else {
      TrimsLeft(left + right, "");
      assert left + s + right == left + right + "";
    }
  }

  predicate IsAscii(s: string) {
    forall k :: 0 <= k < |s| ==> s[k] as int < 128
  }

  function Ascii(s: string): Bytes
    requires IsAscii(s)
  {
    seq(|s|, k requires 0 <= k < |s| && s[k] as int < 128 => s[k] as int)
  }

  /** The text before and behind the first separator. */
  function SplitOnce(s: string, sep: char): Option<(string, string)> {
    if |s| == 0 then None
    else if s[0] == sep then Some(("", s[1..]))
    else
      match SplitOnce(s[1..], sep)
      case None => None
      case Some((before, after)) => Some(([s[0]] + before, after))
  }

  lemma {:induction false} SplitFirst(before: string, sep: char, after: string)
    requires sep !in before
    ensures SplitOnce(before + [sep] + after, sep) == Some((before, after))
  {
    var s := before + [sep] + after;
    if |before| == 0 {
      assert s[1..] == after;
    } else {
      SplitFirst(before[1..], sep, after);
      assert s[1..] == before[1..] + [sep] + after;
      assert [s[0]] + before[1..] == before;
    }
  }

  lemma {:induction false} SplitNone(s: string, sep: char)
    requires sep !in s
    ensures SplitOnce(s, sep) == None
  {
    if |s| > 0 {
      SplitNone(s[1..], sep);
    }
  }

  /** Splitting finds the first separator, if there is one. */
  lemma {:induction false} SplitIs(s: string, sep: char)
    ensures match SplitOnce(s, sep)
            case None => sep !in s
            case Some((before, after)) => sep !in before && s == before + [sep] + after
  {
    if |s| > 0 && s[0] != sep {
      SplitIs(s[1..], sep);
      assert s == [s[0]] + s[1..];
    }
  }

  // ---------------------------------------------------------------- split and join

  /** The parts between separators; there is always at least one. */
  function Split<T(==)>(s: seq<T>, sep: T): (parts: seq<seq<T>>)
    ensures |parts| > 0
  {
    if |s| == 0 then [[]]
    else
      var rest := Split(s[1..], sep);
      if s[0] == sep then [[]] + rest else [[s[0]] + rest[0]] + rest[1..]
  }

  function Join<T>(parts: seq<seq<T>>, sep: T): seq<T> {
    if |parts| == 0 then []
    else if |parts| == 1 then parts[0]
    else parts[0] + [sep] + Join(parts[1..], sep)
  }

  predicate Free<T(==)>(parts: seq<seq<T>>, sep: T) {
    forall k :: 0 <= k < |parts| ==> sep !in parts[k]
  }

  lemma {:induction false} SplitPiece<T>(piece: seq<T>, sep: T)
    requires sep !in piece
    ensures Split(piece, sep) == [piece]
  {
    if |piece| > 0 {
      SplitPiece(piece[1..], sep);
      assert [piece[0]] + piece[1..] == piece;
    }
  }

  lemma {:induction false} SplitHead<T>(piece: seq<T>, sep: T, rest: seq<T>)
    requires sep !in piece
    ensures Split(piece + [sep] + rest, sep) == [piece] + Split(rest, sep)
  {
    var s := piece + [sep] + rest;
    if |piece| == 0 {
      assert s[1..] == rest;
    } else {
      SplitHead(piece[1..], sep, rest);
      assert s[1..] == piece[1..] + [sep] + rest;
      assert [piece[0]] + piece[1..] == piece;
    }
  }

  /** Splitting undoes joining. */
  lemma {:induction false} SplitJoin<T>(parts: seq<seq<T>>, sep: T)
    requires |parts| > 0 && Free(parts, sep)
    ensures Split(Join(parts, sep), sep) == parts
  {
    if |parts| == 1 {
      SplitPiece(parts[0], sep);
    } else {
      SplitJoin(parts[1..], sep);
      SplitHead(parts[0], sep, Join(parts[1..], sep));
    }
  }

  lemma {:induction false} JoinSplit<T>(s: seq<T>, sep: T)
    ensures Join(Split(s, sep), sep) == s && Free(Split(s, sep), sep)
  {
    if |s| > 0 {
      JoinSplit(s[1..], sep);
      var rest := Split(s[1..], sep);
      assert s == [s[0]] + s[1..];
      if s[0] == sep {
        assert ([[]] + rest)[1..] == rest;
      } else {
        JoinPrepend(s[0], rest, sep);
      }
    }
  }

  lemma JoinStep<T>(first: seq<T>, rest: seq<seq<T>>, sep: T)
    ensures Join([first] + rest, sep) == if |rest| == 0 then first else first + [sep] + Join(rest, sep)
  {
    assert ([first] + rest)[1..] == rest;
  }

  lemma Associate<T>(a: seq<T>, b: seq<T>, c: seq<T>)
    ensures a + b + c == a + (b + c)
  {
  }

  lemma JoinPrepend<T>(b: T, parts: seq<seq<T>>, sep: T)
    requires |parts| > 0
    ensures Join([[b] + parts[0]] + parts[1..], sep) == [b] + Join(parts, sep)
  {
    hide Join;
    var first, rest := parts[0], parts[1..];
    assert parts == [first] + rest;
    JoinStep(first, rest, sep);
    JoinStep([b] + first, rest, sep);
    Associate([b], first, [sep]);
    Associate([b], first + [sep], Join(rest, sep));
  }
}
