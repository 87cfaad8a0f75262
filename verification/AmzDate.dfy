/** Timestamps in the form `YYYYMMDDTHHMMSSZ`, printed from and parsed to seconds. */
module AmzDate {
  import opened Bytes
  import opened CivilTime
  import opened Numerals

  /** The first second of the year 10000. */
  const YEAR_10000: nat := 253402300800

  function Digit(n: nat): char
    requires n < 10
  {
    '0' + n as char
  }

  /** Decimal digits, with leading zeros up to the width. */
  function Padded(n: nat, width: nat): string
    decreases n + width
  {
    if n < 10 && width <= 1 then [Digit(n)]
    else Padded(n / 10, if width > 0 then width - 1 else 0) + [Digit(n % 10)]
  }

  /** A 32-bit decimal number. */
  function ParseNumber(s: string): Option<nat> {
    ParseUnsigned(s, 10, TWO_32)
  }

  function Combine(days: int, hour: nat, min: nat, sec: nat): Option<nat> {
    if hour > 23 || min > 59 || sec > 60 || days < 0 then None
    else Some(days * 86400 + hour * 3600 + min * 60 + sec)
  }

  function ParseAmzDate(s: string): Option<nat> {
    if |s| != 16 || s[8] != 'T' || s[15] != 'Z' || (exists k :: 0 <= k < |s| && s[k] as int >= 128) then None
    else
      match (ParseNumber(s[0..4]), ParseNumber(s[4..6]), ParseNumber(s[6..8]),
             ParseNumber(s[9..11]), ParseNumber(s[11..13]), ParseNumber(s[13..15]))
      case (Some(year), Some(month), Some(day), Some(hour), Some(min), Some(sec)) =>
        (match DaysFromCivil(Date(year, month, day))
         case Some(days) => Combine(days, hour, min, sec)
         case None => None)
      case _ => None
  }

  function DateText(a: Date): string
    requires a.y >= 0 && a.m >= 0 && a.d >= 0
  {
    Padded(a.y, 4) + Padded(a.m, 2) + Padded(a.d, 2)
  }

  function TimeText(rem: nat): string {
    Padded(rem / 3600, 2) + Padded(rem % 3600 / 60, 2) + Padded(rem % 60, 2)
  }

  /** Days from the epoch on fall in 1970 or later. */
  lemma SinceEpoch(days: nat)
    ensures var a := CivilFromDays(days);
            Real(a) && a.y >= 1970 && (a.y <= 9999 <==> days < YEAR_10000 / 86400)
  {
    hide DaysFromCivil, CivilFromDays;
    var a := CivilFromDays(days);
    DaysRoundTrip(days);
    Epoch();
    FirstOf10000();
    DaysIncrease(a, Date(1970, 1, 1));
    DaysIncrease(a, Date(10000, 1, 1));
  }

  lemma FirstOf10000()
    ensures DaysFromCivil(Date(10000, 1, 1)) == Some(YEAR_10000 / 86400)
  {
  }

  function FormatAmzDate(secs: nat): string {
    SinceEpoch(secs / 86400);
    DateText(CivilFromDays(secs / 86400)) + "T" + TimeText(secs % 86400) + "Z"
  }

  // ---------------------------------------------------------------- digits

  predicate Digits(s: string) {
    forall k :: 0 <= k < |s| ==> '0' <= s[k] <= '9'
  }

  lemma {:induction false} PaddedValue(n: nat, width: nat)
    ensures Value(Padded(n, width), 10) == Some(n) && Digits(Padded(n, width)) && |Padded(n, width)| > 0
    decreases n + width
  {
    var s := Padded(n, width);
    if n < 10 && width <= 1 {
      assert s[..0] == "";
    } else {
      var w := if width > 0 then width - 1 else 0;
      PaddedValue(n / 10, w);
      assert s[..|s| - 1] == Padded(n / 10, w);
    }
  }

  lemma PaddedParses(n: nat, width: nat)
    requires n < TWO_32
    ensures ParseNumber(Padded(n, width)) == Some(n) && Digits(Padded(n, width))
  {
    PaddedValue(n, width);
  }

  lemma TwoDigits(n: nat)
    ensures |Padded(n, 2)| == 2 <==> n < 100
    ensures |Padded(n, 2)| >= 2
  {
    if n < 100 {
      assert |Padded(n / 10, 1)| == 1;
    } else {
      LongText(n / 10, 1);
    }
  }

  lemma FourDigits(n: nat)
    ensures |Padded(n, 4)| == 4 <==> n < 10000
    ensures |Padded(n, 4)| >= 4
  {
    assert |Padded(n, 4)| == |Padded(n / 10, 3)| + 1 == |Padded(n / 10 / 10, 2)| + 2;
    TwoDigits(n / 10 / 10);
  }

  lemma LongText(n: nat, width: nat)
    requires n >= 10 && width == 1
    ensures |Padded(n, width)| >= 2
  {
    PaddedValue(n / 10, 0);
  }

  // ---------------------------------------------------------------- round trip

  function Stamp(y: string, mo: string, d: string, h: string, mi: string, sec: string): string {
    y + mo + d + "T" + (h + mi + sec) + "Z"
  }

  lemma StampFields(y: string, mo: string, d: string, h: string, mi: string, sec: string)
    requires |y| == 4 && |mo| == 2 && |d| == 2 && |h| == 2 && |mi| == 2 && |sec| == 2
    ensures var s := Stamp(y, mo, d, h, mi, sec);
            && |s| == 16 && s[8] == 'T' && s[15] == 'Z' && s[0..4] == y && s[4..6] == mo && s[6..8] == d
            && s[9..11] == h && s[11..13] == mi && s[13..15] == sec
  {
  }

  lemma StampIsAscii(y: string, mo: string, d: string, h: string, mi: string, sec: string)
    requires Digits(y) && Digits(mo) && Digits(d) && Digits(h) && Digits(mi) && Digits(sec)
    ensures var s := Stamp(y, mo, d, h, mi, sec);
            forall k :: 0 <= k < |s| ==> s[k] as int < 128
  {
    assert Digits(y + mo + d) && Digits(h + mi + sec);
  }

  /** A timestamp made of six fields reads back as those fields. */
  lemma FieldsParse(y: nat, mo: nat, d: nat, h: nat, mi: nat, sec: nat)
    requires y < 10000 && mo < 100 && d < 100 && h < 100 && mi < 100 && sec < 100
    ensures ParseAmzDate(Stamp(Padded(y, 4), Padded(mo, 2), Padded(d, 2), Padded(h, 2), Padded(mi, 2), Padded(sec, 2)))
            == match DaysFromCivil(Date(y, mo, d)) case Some(days) => Combine(days, h, mi, sec) case None => None
  {
    hide Padded, ParseNumber, DaysFromCivil, Combine, Stamp, Digits;
    FourDigits(y);
    TwoDigits(mo); TwoDigits(d); TwoDigits(h); TwoDigits(mi); TwoDigits(sec);
    PaddedParses(y, 4);
    PaddedParses(mo, 2); PaddedParses(d, 2); PaddedParses(h, 2); PaddedParses(mi, 2); PaddedParses(sec, 2);
    StampFields(Padded(y, 4), Padded(mo, 2), Padded(d, 2), Padded(h, 2), Padded(mi, 2), Padded(sec, 2));
    StampIsAscii(Padded(y, 4), Padded(mo, 2), Padded(d, 2), Padded(h, 2), Padded(mi, 2), Padded(sec, 2));
  }

  /** Parsing undoes printing exactly for the seconds before the year 10000. */
  lemma AmzDateRoundTrip(secs: nat)
    ensures ParseAmzDate(FormatAmzDate(secs)) == Some(secs) <==> secs < YEAR_10000
  {
    hide DaysFromCivil, CivilFromDays, Padded, ParseAmzDate;
    var days, rem := secs / 86400, secs % 86400;
    var a := CivilFromDays(days);
    SinceEpoch(days);
    DaysRoundTrip(days);
    if secs < YEAR_10000 {
      FieldsParse(a.y, a.m, a.d, rem / 3600, rem % 3600 / 60, rem % 60);
    } else {
      TooLong(secs);
    }
  }

  lemma TooLong(secs: nat)
    requires secs >= YEAR_10000
    ensures |FormatAmzDate(secs)| > 16 && ParseAmzDate(FormatAmzDate(secs)).None?
  {
    hide DaysFromCivil, CivilFromDays, Padded, ParseNumber;
    var days, rem := secs / 86400, secs % 86400;
    var a := CivilFromDays(days);
    SinceEpoch(days);
    FourDigits(a.y);
    TwoDigits(a.m); TwoDigits(a.d); TwoDigits(rem / 3600); TwoDigits(rem % 3600 / 60); TwoDigits(rem % 60);
  }

  // ---------------------------------------------------------------- which texts are timestamps

  /** The six numbers of a timestamp. */
  datatype Clock = Clock(date: Date, hour: nat, min: nat, sec: nat)

  ghost predicate Reads(s: string, f: Clock) {
    && |s| == 16 && s[8] == 'T' && s[15] == 'Z' && (forall k :: 0 <= k < |s| ==> s[k] as int < 128)
    && f.date.y >= 0 && f.date.m >= 0 && f.date.d >= 0
    && Denotes(s[0..4], 10, f.date.y) && Denotes(s[4..6], 10, f.date.m) && Denotes(s[6..8], 10, f.date.d)
    && Denotes(s[9..11], 10, f.hour) && Denotes(s[11..13], 10, f.min) && Denotes(s[13..15], 10, f.sec)
  }

  lemma NumberExact(s: string, n: nat)
    requires |s| <= 4
    ensures ParseNumber(s) == Some(n) <==> Denotes(s, 10, n)
  {
    hide Denotes;
    ParseExact(s, 10, TWO_32, n);
    if Denotes(s, 10, n) {
      DenotesBound(s, 10, n);
      SmallPowers();
    }
  }

  lemma SmallPowers()
    ensures forall e :: 0 <= e <= 4 ==> Power(10, e) <= 10000
  {
    assert Power(10, 0) == 1 && Power(10, 1) == 10 && Power(10, 2) == 100 && Power(10, 3) == 1000 && Power(10, 4) == 10000;
  }

  /** A text is a timestamp exactly when its six numbers are a day not before 1970, an hour, a
      minute and a second, where a second may be the sixtieth. */
  lemma ParseAmzDateExact(s: string, t: nat)
    ensures ParseAmzDate(s) == Some(t)
            <==> exists f :: Reads(s, f) && DaysFromCivil(f.date).Some? && DaysFromCivil(f.date).value >= 0 && f.hour <= 23 && f.min <= 59
                             && f.sec <= 60 && t == DaysFromCivil(f.date).value * 86400 + f.hour * 3600 + f.min * 60 + f.sec
  {
    hide ParseNumber, Denotes, DaysFromCivil;
    if ParseAmzDate(s) == Some(t) {
      var f := Clock(Date(ParseNumber(s[0..4]).value, ParseNumber(s[4..6]).value, ParseNumber(s[6..8]).value),
                      ParseNumber(s[9..11]).value, ParseNumber(s[11..13]).value, ParseNumber(s[13..15]).value);
      ReadsNumbers(s, f);
    }
    forall f | Reads(s, f) ensures ReadAs(s, f) {
      ReadsNumbers(s, f);
    }
  }

  predicate ReadAs(s: string, f: Clock)
    requires |s| == 16
  {
    && ParseNumber(s[0..4]) == Some(f.date.y) && ParseNumber(s[4..6]) == Some(f.date.m) && ParseNumber(s[6..8]) == Some(f.date.d)
    && ParseNumber(s[9..11]) == Some(f.hour) && ParseNumber(s[11..13]) == Some(f.min) && ParseNumber(s[13..15]) == Some(f.sec)
  }

  lemma ReadsNumbers(s: string, f: Clock)
    requires |s| == 16 && f.date.y >= 0 && f.date.m >= 0 && f.date.d >= 0
    ensures ReadAs(s, f) <==> Denotes(s[0..4], 10, f.date.y) && Denotes(s[4..6], 10, f.date.m) && Denotes(s[6..8], 10, f.date.d)
                              && Denotes(s[9..11], 10, f.hour) && Denotes(s[11..13], 10, f.min) && Denotes(s[13..15], 10, f.sec)
  {
    hide ParseNumber, Denotes;
    NumberExact(s[0..4], f.date.y);
    NumberExact(s[4..6], f.date.m);
    NumberExact(s[6..8], f.date.d);
    NumberExact(s[9..11], f.hour);
    NumberExact(s[11..13], f.min);
    NumberExact(s[13..15], f.sec);
  }
}
