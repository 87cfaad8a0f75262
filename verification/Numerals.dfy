/** Unsigned numbers in text: digits of either case, leading zeros and a plus sign. */
module Numerals {
  import opened Bytes

  /** The value of a digit, if it is one to this base. */
  function ToDigit(c: char, base: nat): Option<nat> {
    var d := if '0' <= c <= '9' then c as int - '0' as int
             else if 'a' <= c <= 'f' then c as int - 'a' as int + 10
             else if 'A' <= c <= 'F' then c as int - 'A' as int + 10
             else base;
    if d < base then Some(d) else None
  }

  /** The number that a run of digits adds up to, from the left. */
  function Value(s: string, base: nat): Option<nat> {
    if |s| == 0 then Some(0)
    else
      match (Value(s[..|s| - 1], base), ToDigit(s[|s| - 1], base))
      case (Some(high), Some(low)) => Some(base * high + low)
      case _ => None
  }

  function ParseUnsigned(s: string, base: nat, limit: nat): Option<nat> {
    var digits := if |s| > 0 && s[0] == '+' then s[1..] else s;
    if |digits| == 0 then None
    else
      match Value(digits, base)
      case Some(n) => if n < limit then Some(n) else None
      case None => None
  }

  // ---------------------------------------------------------------- what the text denotes

  const LOWER: string := "0123456789abcdef"
  const UPPER: string := "0123456789ABCDEF"

  predicate IsDigit(c: char, d: nat) {
    d < 16 && (c == LOWER[d] || c == UPPER[d])
  }

  lemma ToDigitExact(c: char, base: nat, d: nat)
    requires base <= 16
    ensures ToDigit(c, base) == Some(d) <==> d < base && IsDigit(c, d)
  {
    assert LOWER[0] == '0' && LOWER[1] == '1' && LOWER[2] == '2' && LOWER[3] == '3' && LOWER[4] == '4' && LOWER[5] == '5'
        && LOWER[6] == '6' && LOWER[7] == '7' && LOWER[8] == '8' && LOWER[9] == '9' && LOWER[10] == 'a' && LOWER[11] == 'b'
        && LOWER[12] == 'c' && LOWER[13] == 'd' && LOWER[14] == 'e' && LOWER[15] == 'f';
    assert UPPER[0] == '0' && UPPER[1] == '1' && UPPER[2] == '2' && UPPER[3] == '3' && UPPER[4] == '4' && UPPER[5] == '5'
        && UPPER[6] == '6' && UPPER[7] == '7' && UPPER[8] == '8' && UPPER[9] == '9' && UPPER[10] == 'A' && UPPER[11] == 'B'
        && UPPER[12] == 'C' && UPPER[13] == 'D' && UPPER[14] == 'E' && UPPER[15] == 'F';
  }

  function Power(base: nat, e: nat): nat {
    if e == 0 then 1 else base * Power(base, e - 1)
  }

  /** Digits by place: the first one counts most. */
  function Positional(ds: seq<nat>, base: nat): nat {
    if |ds| == 0 then 0 else ds[0] * Power(base, |ds| - 1) + Positional(ds[1..], base)
  }

  predicate Spells(s: string, ds: seq<nat>, base: nat) {
    |s| == |ds| && forall k :: 0 <= k < |s| ==> ds[k] < base && IsDigit(s[k], ds[k])
  }

  /** Digits of either case and any number of leading zeros, with or without a plus sign. */
  ghost predicate Denotes(s: string, base: nat, n: nat) {
    exists ds: seq<nat> :: |ds| > 0 && Positional(ds, base) == n && (Spells(s, ds, base) || (|s| > 0 && s[0] == '+' && Spells(s[1..], ds, base)))
  }

  lemma {:induction false} PositionalLast(ds: seq<nat>, base: nat)
    requires |ds| > 0
    ensures Positional(ds, base) == base * Positional(ds[..|ds| - 1], base) + ds[|ds| - 1]
  {
    var n := |ds| - 1;
    if n == 0 {
      assert Power(base, 0) == 1;
    } else {
      var front := ds[..n];
      PositionalLast(ds[1..], base);
      assert ds[1..][..n - 1] == front[1..];
      Horner(base, ds[0], Power(base, n - 1), Positional(front[1..], base), ds[n]);
    }
  }

  lemma Horner(base: nat, high: nat, power: nat, mid: nat, low: nat)
    ensures high * (base * power) + (base * mid + low) == base * (high * power + mid) + low
  {
    assert high * (base * power) == base * (high * power);
  }

  lemma {:induction false} ValueSpelled(s: string, ds: seq<nat>, base: nat)
    requires base <= 16 && Spells(s, ds, base)
    ensures Value(s, base) == Some(Positional(ds, base))
  {
    hide ToDigit, IsDigit;
    if |s| > 0 {
      var n := |s| - 1;
      ValueSpelled(s[..n], ds[..n], base);
      ToDigitExact(s[n], base, ds[n]);
      PositionalLast(ds, base);
    }
  }

  lemma {:induction false} ValueIsSpelled(s: string, base: nat) returns (ds: seq<nat>)
    requires base <= 16 && Value(s, base).Some?
    ensures Spells(s, ds, base)
  {
    hide ToDigit, IsDigit;
    if |s| == 0 {
      ds := [];
    } else {
      var n := |s| - 1;
      ds := ValueIsSpelled(s[..n], base);
      ToDigitExact(s[n], base, ToDigit(s[n], base).value);
      ds := ds + [ToDigit(s[n], base).value];
    }
  }

  lemma PlusIsNoDigit(d: nat)
    ensures !IsDigit('+', d)
  {
    ToDigitExact('+', 16, d);
  }

  /** A text parses to a number exactly when it denotes it and the number is below the limit. */
  lemma ParseExact(s: string, base: nat, limit: nat, n: nat)
    requires base <= 16
    ensures ParseUnsigned(s, base, limit) == Some(n) <==> Denotes(s, base, n) && n < limit
  {
    hide IsDigit, Positional;
    var signed := |s| > 0 && s[0] == '+';
    var digits := if signed then s[1..] else s;
    if ParseUnsigned(s, base, limit) == Some(n) {
      var ds := ValueIsSpelled(digits, base);
      ValueSpelled(digits, ds, base);
    }
    if Denotes(s, base, n) {
      var ds: seq<nat> :| |ds| > 0 && Positional(ds, base) == n && (Spells(s, ds, base) || (|s| > 0 && s[0] == '+' && Spells(s[1..], ds, base)));
      PlusIsNoDigit(ds[0]);
      ValueSpelled(digits, ds, base);
    }
  }

  lemma DenotesOne(s: string, base: nat, m: nat, n: nat)
    requires base <= 16 && Denotes(s, base, m) && Denotes(s, base, n)
    ensures m == n
  {
    hide Denotes;
    ParseExact(s, base, m + n + 1, m);
    ParseExact(s, base, m + n + 1, n);
  }

  lemma {:induction false} PositionalBound(ds: seq<nat>, base: nat)
    requires base > 0 && forall k :: 0 <= k < |ds| ==> ds[k] < base
    ensures Positional(ds, base) < Power(base, |ds|)
  {
    if |ds| > 0 {
      PositionalBound(ds[1..], base);
      Carry(ds[0], base, Power(base, |ds| - 1), Positional(ds[1..], base));
    }
  }

  lemma Carry(d: nat, base: nat, power: nat, rest: nat)
    requires d < base && rest < power
    ensures d * power + rest < base * power
  {
    assert (d + 1) * power <= base * power;
  }

  lemma {:induction false} PowerGrows(base: nat, e: nat)
    requires base > 0
    ensures 0 < Power(base, e) <= Power(base, e + 1)
  {
    if e > 0 {
      PowerGrows(base, e - 1);
    }
    Grown(base, Power(base, e));
  }

  lemma Grown(base: nat, n: nat)
    requires base > 0
    ensures n <= base * n
  {
    assert 1 * n <= base * n;
  }

  /** A text of so many characters denotes a number of at most so many digits. */
  lemma DenotesBound(s: string, base: nat, n: nat)
    requires base > 0 && Denotes(s, base, n)
    ensures n < Power(base, |s|)
  {
    hide IsDigit, Power, Positional;
    var ds: seq<nat> :| |ds| > 0 && Positional(ds, base) == n && (Spells(s, ds, base) || (|s| > 0 && s[0] == '+' && Spells(s[1..], ds, base)));
    PositionalBound(ds, base);
    PowerGrows(base, |ds|);
    assert |s| == |ds| || |s| == |ds| + 1;
  }
}
