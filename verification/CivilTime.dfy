/** Calendar dates and day numbers, and the 16-character timestamps of signed requests. */
module CivilTime {
  import opened Bytes

  datatype Date = Date(y: int, m: int, d: int)

  // ---------------------------------------------------------------- the calendar

  predicate Leap(y: int) {
    y % 4 == 0 && (y % 100 != 0 || y % 400 == 0)
  }

  function MonthLength(y: int, m: int): int {
    if m == 2 then (if Leap(y) then 29 else 28)
    else if m == 4 || m == 6 || m == 9 || m == 11 then 30
    else 31
  }

  /** A date of the proleptic Gregorian calendar. */
  predicate Real(a: Date) {
    1 <= a.m <= 12 && 1 <= a.d <= MonthLength(a.y, a.m)
  }

  function Tomorrow(a: Date): Date {
    if a.d < MonthLength(a.y, a.m) then Date(a.y, a.m, a.d + 1)
    else if a.m < 12 then Date(a.y, a.m + 1, 1)
    else Date(a.y + 1, 1, 1)
  }

  predicate Before(a: Date, b: Date) {
    a.y < b.y || (a.y == b.y && (a.m < b.m || (a.m == b.m && a.d < b.d)))
  }

  // ---------------------------------------------------------------- the conversions

  /** Division that rounds toward zero. */
  function Quot(a: int, b: int): int
    requires b > 0
  {
    if a >= 0 then a / b else -((-a) / b)
  }

  /** The day of the era on which its year `yoe` begins, in March. */
  function YearStart(yoe: int): int {
    365 * yoe + yoe / 4 - yoe / 100
  }

  /** The day of a March-based year on which its month `mp` begins. */
  function MonthStart(mp: int): int {
    (153 * mp + 2) / 5
  }

  /** Days since 1970-01-01; years begin in March, in eras of 400. */
  function DaysFromCivil(a: Date): Option<int> {
    if !(1 <= a.m <= 12 && 1 <= a.d <= 31) then None
    else
      var y := if a.m <= 2 then a.y - 1 else a.y;
      var era := Quot(if y >= 0 then y else y - 399, 400);
      var yoe := y - era * 400;
      var mp := (a.m + 9) % 12;
      var doy := MonthStart(mp) + a.d - 1;
      var doe := YearStart(yoe) + doy;
      Some(era * 146097 + doe - 719468)
  }

  /** Any day from 1 to 31 is taken, in any month, and counted on from the first. */
  lemma DaysOfMonth(a: Date)
    ensures DaysFromCivil(a).Some? <==> 1 <= a.m <= 12 && 1 <= a.d <= 31
    ensures DaysFromCivil(a).Some? ==> DaysFromCivil(a).value == DaysFromCivil(Date(a.y, a.m, 1)).value + a.d - 1
  {
  }

  function YearOfEra(doe: int): int
    requires 0 <= doe <= 146096
  {
    (doe - doe / 1460 + doe / 36524 - doe / 146096) / 365
  }

  function EraOfDay(z: int): int {
    Quot(if z >= 0 then z else z - 146096, 146097)
  }

  lemma EraOfDayFloors(z: int)
    ensures EraOfDay(z) == z / 146097 && 0 <= z - EraOfDay(z) * 146097 <= 146096
  {
  }

  function CivilFromDays(days: int): Date {
    var z := days + 719468;
    var era := EraOfDay(z);
    EraOfDayFloors(z);
    var doe := z - era * 146097;
    var yoe := YearOfEra(doe);
    var y := yoe + era * 400;
    var doy := doe - YearStart(yoe);
    var mp := (5 * doy + 2) / 153;
    var d := doy - MonthStart(mp) + 1;
    var m := if mp < 10 then mp + 3 else mp - 9;
    Date(if m <= 2 then y + 1 else y, m, d)
  }

  // ---------------------------------------------------------------- years of an era

  /** The days of the March-based year `yoe` of an era. */
  function YearDays(yoe: int): int {
    if Leap(yoe + 1) then 366 else 365
  }

  lemma YearParts(q: int, s: int, t: int)
    requires 0 <= q <= 3 && 0 <= s <= 24 && 0 <= t <= 3
    ensures var yoe := 100 * q + 4 * s + t;
            && yoe / 100 == q && yoe / 4 == 25 * q + s && YearStart(yoe) == 36524 * q + 1461 * s + 365 * t
            && (YearDays(yoe) == 366 <==> t == 3 && (s < 24 || q == 3))
  {
    var yoe := 100 * q + 4 * s + t;
    assert yoe / 100 == q && yoe % 100 == 4 * s + t;
    assert yoe / 4 == 25 * q + s && yoe % 4 == t;
  }

  lemma YearSplits(yoe: int) returns (q: int, s: int, t: int)
    requires 0 <= yoe <= 399
    ensures 0 <= q <= 3 && 0 <= s <= 24 && 0 <= t <= 3 && yoe == 100 * q + 4 * s + t
  {
    q := yoe / 100;
    s := yoe % 100 / 4;
    t := yoe % 100 % 4;
  }

  /** The closed form finds the year that a day of the era falls in. */
  lemma YearOfEraExact(yoe: int, doy: int)
    requires 0 <= yoe <= 399 && 0 <= doy < YearDays(yoe)
    ensures 0 <= YearStart(yoe) + doy <= 146096 && YearOfEra(YearStart(yoe) + doy) == yoe
  {
    var q, s, t := YearSplits(yoe);
    YearParts(q, s, t);
    YearOfParts(q, s, t, doy);
  }

  lemma YearOfParts(q: int, s: int, t: int, doy: int)
    requires 0 <= q <= 3 && 0 <= s <= 24 && 0 <= t <= 3 && 0 <= doy <= 365
    requires doy == 365 ==> t == 3 && (s < 24 || q == 3)
    ensures var doe := 36524 * q + 1461 * s + 365 * t + doy;
            0 <= doe <= 146096 && YearOfEra(doe) == 100 * q + 4 * s + t
  {
    var w := 1461 * s + 365 * t + doy;
    var doe := 36524 * q + w;
    var rest := 24 * q + s + 365 * t + doy;
    assert doe == 1460 * (25 * q + s) + rest;
    assert doe / 1460 == 25 * q + s + rest / 1460;
    CenturyTerms(q, w);
    var n := doe - doe / 1460 + q;
    assert n == 365 * (100 * q + 4 * s + t) + (doy - rest / 1460);
    assert 0 <= doy - rest / 1460 < 365;
  }

  lemma CenturyTerms(q: int, w: int)
    requires 0 <= q <= 3 && 0 <= w <= 36524 && (w == 36524 ==> q == 3)
    ensures var doe := 36524 * q + w;
            doe / 36524 - doe / 146096 == q
  {
  }

  /** Every day of an era lies in one of its years. */
  lemma DayHasYear(doe: int) returns (yoe: int, doy: int)
    requires 0 <= doe <= 146096
    ensures 0 <= yoe <= 399 && 0 <= doy < YearDays(yoe) && doe == YearStart(yoe) + doy
  {
    var q := Min(doe / 36524, 3);
    var inCentury := doe - 36524 * q;
    var s := Min(inCentury / 1461, 24);
    var inFour := inCentury - 1461 * s;
    var t := Min(inFour / 365, 3);
    doy := inFour - 365 * t;
    yoe := 100 * q + 4 * s + t;
    YearParts(q, s, t);
  }

  // ---------------------------------------------------------------- months

  /** A day of the March-based year falls in one month, on a day that month has. */
  lemma MonthOfDay(doy: int)
    requires 0 <= doy <= 365
    ensures var mp := (5 * doy + 2) / 153;
            && 0 <= mp <= 11 && MonthStart(mp) <= doy && (mp < 11 ==> doy < MonthStart(mp + 1))
  {
    var mp := (5 * doy + 2) / 153;
    assert 153 * mp <= 5 * doy + 2 < 153 * mp + 153;
  }

  lemma MonthIs(mp: int, d: int)
    requires 0 <= mp <= 11 && 1 <= d && (if mp < 11 then MonthStart(mp) + d - 1 < MonthStart(mp + 1) else d <= 29)
    ensures (5 * (MonthStart(mp) + d - 1) + 2) / 153 == mp
  {
    var doy := MonthStart(mp) + d - 1;
    assert 5 * MonthStart(mp) <= 153 * mp + 2 < 5 * MonthStart(mp) + 5;
    assert 153 * mp <= 5 * doy + 2 < 153 * mp + 153;
  }

  // ---------------------------------------------------------------- the conversions are inverse

  /** A day number in terms of era, year of the era, month from March and day. */
  function DayNumber(era: int, yoe: int, mp: int, d: int): int {
    era * 146097 + YearStart(yoe) + MonthStart(mp) + d - 1 - 719468
  }

  function DateOf(era: int, yoe: int, mp: int, d: int): Date {
    var m := if mp < 10 then mp + 3 else mp - 9;
    Date(if m <= 2 then yoe + era * 400 + 1 else yoe + era * 400, m, d)
  }

  predicate InEra(yoe: int, mp: int, d: int) {
    && 0 <= yoe <= 399 && 0 <= mp <= 11 && 1 <= d
    && if mp < 11 then MonthStart(mp) + d - 1 < MonthStart(mp + 1) else MonthStart(mp) + d - 1 < YearDays(yoe)
  }

  /** Real dates are exactly the ones with era coordinates. */
  lemma RealInEra(era: int, yoe: int, mp: int, d: int)
    requires 0 <= yoe <= 399 && 0 <= mp <= 11
    ensures Real(DateOf(era, yoe, mp, d)) <==> InEra(yoe, mp, d)
  {
    LeapRepeats(yoe + 1, era);
    assert yoe + 1 + era * 400 == yoe + era * 400 + 1;
    hide Leap;
  }

  lemma LeapRepeats(y: int, era: int)
    ensures Leap(y + era * 400) == Leap(y)
  {
    Shift400(y, era);
    Shift100(y, 4 * era);
    Shift4(y, 100 * era);
  }

  lemma Shift400(y: int, k: int)
    ensures (y + k * 400) % 400 == y % 400
  {
  }

  lemma Shift100(y: int, k: int)
    ensures (y + k * 100) % 100 == y % 100
  {
  }

  lemma Shift4(y: int, k: int)
    ensures (y + k * 4) % 4 == y % 4
  {
  }

  lemma EraCoordinates(a: Date) returns (era: int, yoe: int, mp: int)
    requires 1 <= a.m <= 12
    ensures 0 <= yoe <= 399 && 0 <= mp <= 11 && a == DateOf(era, yoe, mp, a.d)
  {
    var y := if a.m <= 2 then a.y - 1 else a.y;
    era, yoe, mp := y / 400, y % 400, (a.m + 9) % 12;
  }

  lemma DaysOfDate(era: int, yoe: int, mp: int, d: int)
    requires InEra(yoe, mp, d)
    ensures DaysFromCivil(DateOf(era, yoe, mp, d)) == Some(DayNumber(era, yoe, mp, d))
  {
    RealInEra(era, yoe, mp, d);
    InMonth(era, yoe, mp, d);
    hide Real, InEra, YearStart, MonthStart, Quot;
    EraOfYear(era, yoe);
  }

  lemma EraOfYear(era: int, yoe: int)
    requires 0 <= yoe <= 399
    ensures var y := yoe + era * 400;
            Quot(if y >= 0 then y else y - 399, 400) == era
  {
  }

  lemma InMonth(era: int, yoe: int, mp: int, d: int)
    requires InEra(yoe, mp, d)
    ensures 0 <= yoe <= 399 && 0 <= mp <= 11 && 1 <= d <= 31
  {
  }

  lemma DateOfDays(era: int, yoe: int, mp: int, d: int)
    requires InEra(yoe, mp, d)
    ensures CivilFromDays(DayNumber(era, yoe, mp, d)) == DateOf(era, yoe, mp, d)
  {
    hide YearOfEra, EraOfDay, YearStart, CivilFromDays, DateOf;
    var doy := MonthStart(mp) + d - 1;
    assert 0 <= doy < YearDays(yoe);
    YearOfEraExact(yoe, doy);
    MonthIs(mp, d);
    hide MonthStart, YearDays, InEra;
    var doe := YearStart(yoe) + doy;
    EraOfDayFloors(era * 146097 + doe);
    CivilParts(era, doe, yoe, mp, d);
  }

  /** The date is put together from the coordinates of its day. */
  lemma CivilParts(era: int, doe: int, yoe: int, mp: int, d: int)
    requires 0 <= doe <= 146096 && EraOfDay(era * 146097 + doe) == era && YearOfEra(doe) == yoe
    requires doe == YearStart(yoe) + MonthStart(mp) + d - 1 && (5 * (MonthStart(mp) + d - 1) + 2) / 153 == mp
    ensures CivilFromDays(era * 146097 + doe - 719468) == DateOf(era, yoe, mp, d)
  {
    hide YearOfEra, EraOfDay, YearStart, MonthStart;
  }

  lemma DayHasDate(days: int) returns (era: int, yoe: int, mp: int, d: int)
    ensures InEra(yoe, mp, d) && days == DayNumber(era, yoe, mp, d)
  {
    var z := days + 719468;
    era := z / 146097;
    var doy;
    yoe, doy := DayHasYear(z % 146097);
    MonthOfDay(doy);
    mp := (5 * doy + 2) / 153;
    d := doy - MonthStart(mp) + 1;
  }

  /** Every day number is the number of the date it converts to, and that date is real. */
  lemma DaysRoundTrip(days: int)
    ensures Real(CivilFromDays(days)) && DaysFromCivil(CivilFromDays(days)) == Some(days)
  {
    var era, yoe, mp, d := DayHasDate(days);
    DateOfDays(era, yoe, mp, d);
    DaysOfDate(era, yoe, mp, d);
    RealInEra(era, yoe, mp, d);
  }

  /** Every real date survives the trip to its day number and back. */
  lemma DateRoundTrip(a: Date)
    requires Real(a)
    ensures DaysFromCivil(a).Some? && CivilFromDays(DaysFromCivil(a).value) == a
  {
    assert 1 <= a.m <= 12;
    hide DaysFromCivil, CivilFromDays, DayNumber, DateOf, Real, InEra;
    var era, yoe, mp := EraCoordinates(a);
    RealInEra(era, yoe, mp, a.d);
    DaysOfDate(era, yoe, mp, a.d);
    DateOfDays(era, yoe, mp, a.d);
  }

  // ---------------------------------------------------------------- counting days

  lemma NextCoordinates(era: int, yoe: int, mp: int, d: int) returns (era': int, yoe': int, mp': int, d': int)
    requires InEra(yoe, mp, d)
    ensures InEra(yoe', mp', d') && Tomorrow(DateOf(era, yoe, mp, d)) == DateOf(era', yoe', mp', d')
    ensures DayNumber(era', yoe', mp', d') == DayNumber(era, yoe, mp, d) + 1
  {
    hide YearStart, Real;
    RealInEra(era, yoe, mp, d);
    RealInEra(era, yoe, mp, d + 1);
    LastOfMonth(era, yoe, mp, d);
    if InEra(yoe, mp, d + 1) {
      era', yoe', mp', d' := era, yoe, mp, d + 1;
    } else if mp < 11 {
      era', yoe', mp', d' := era, yoe, mp + 1, 1;
    } else if yoe < 399 {
      era', yoe', mp', d' := era, yoe + 1, 0, 1;
      NextYear(yoe);
    } else {
      era', yoe', mp', d' := era + 1, 0, 0, 1;
      EraLength();
    }
  }

  lemma LastOfMonth(era: int, yoe: int, mp: int, d: int)
    requires InEra(yoe, mp, d)
    ensures var a := DateOf(era, yoe, mp, d);
            a.d < MonthLength(a.y, a.m) <==> InEra(yoe, mp, d + 1)
  {
    RealInEra(era, yoe, mp, d);
    RealInEra(era, yoe, mp, d + 1);
  }

  /** The next day of the calendar has the next number; with the epoch this fixes them all. */
  lemma TomorrowIsNext(a: Date)
    requires Real(a)
    ensures Real(Tomorrow(a)) && DaysFromCivil(a).Some? && DaysFromCivil(Tomorrow(a)) == Some(DaysFromCivil(a).value + 1)
  {
    assert 1 <= a.m <= 12;
    hide DaysFromCivil, DayNumber, Tomorrow, DateOf, Real, InEra;
    var era, yoe, mp := EraCoordinates(a);
    RealInEra(era, yoe, mp, a.d);
    DaysOfDate(era, yoe, mp, a.d);
    var era', yoe', mp', d' := NextCoordinates(era, yoe, mp, a.d);
    InEraBounds(yoe', mp', d');
    RealInEra(era', yoe', mp', d');
    DaysOfDate(era', yoe', mp', d');
  }

  lemma Epoch()
    ensures DaysFromCivil(Date(1970, 1, 1)) == Some(0)
  {
  }

  lemma InEraBounds(yoe: int, mp: int, d: int)
    requires InEra(yoe, mp, d)
    ensures 0 <= yoe <= 399 && 0 <= mp <= 11
  {
  }

  lemma EraLength()
    ensures YearStart(399) + YearDays(399) == 146097 && YearStart(0) == 0
  {
  }

  lemma NextYear(yoe: int)
    requires 0 <= yoe < 399
    ensures YearStart(yoe + 1) == YearStart(yoe) + YearDays(yoe)
  {
    hide YearStart, YearDays;
    var q, s, t := YearSplits(yoe);
    YearParts(q, s, t);
    YearDaysBounds(yoe);
    if t < 3 {
      YearParts(q, s, t + 1);
    } else if s < 24 {
      YearParts(q, s + 1, 0);
    } else {
      YearParts(q + 1, 0, 0);
    }
  }

  lemma YearDaysBounds(yoe: int)
    ensures YearDays(yoe) == 365 || YearDays(yoe) == 366
  {
  }

  lemma {:induction false} LaterDays(days: int, more: nat)
    requires more > 0
    ensures Before(CivilFromDays(days), CivilFromDays(days + more))
  {
    hide DaysFromCivil, CivilFromDays, Real, MonthLength;
    var a := CivilFromDays(days + more - 1);
    DaysRoundTrip(days + more - 1);
    TomorrowIsNext(a);
    DateRoundTrip(Tomorrow(a));
    assert Before(a, Tomorrow(a));
    if more > 1 {
      LaterDays(days, more - 1);
    }
  }

  /** Day numbers follow the order of the calendar. */
  lemma DaysIncrease(a: Date, b: Date)
    requires Real(a) && Real(b)
    ensures DaysFromCivil(a).Some? && DaysFromCivil(b).Some?
    ensures Before(a, b) <==> DaysFromCivil(a).value < DaysFromCivil(b).value
  {
    hide DaysFromCivil, CivilFromDays, Real;
    DateRoundTrip(a);
    DateRoundTrip(b);
    var m, n := DaysFromCivil(a).value, DaysFromCivil(b).value;
    if m < n {
      LaterDays(m, n - m);
    } else if n < m {
      LaterDays(n, m - n);
    }
  }
}
