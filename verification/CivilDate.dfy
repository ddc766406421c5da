/** Civil UTC date and time from seconds since 1970, checked against the Gregorian rules. */
module CivilDate {

  const TWO_32: int := 0x1_0000_0000
  const TWO_63: int := 0x8000_0000_0000_0000
  const TWO_64: int := 0x1_0000_0000_0000_0000

  datatype Parts = Parts(year: int, month: int, day: int, hour: int, minute: int, second: int)

  /** A 64-bit word read as signed. */
  function Signed(secs: nat): int
    requires secs < TWO_64
  {
    if secs < TWO_63 then secs else secs - TWO_64
  }

  /** Division that drops the fraction, as machine division does. */
  function Truncated(a: int, b: int): int
    requires b > 0
  {
    if a >= 0 then a / b else -((-a) / b)
  }

  /** The conversion, with the year not yet cut to 32 bits. */
  function Civil(s: int): Parts {
    var timeOfDay := s % 86400;
    var z := s / 86400 + 719468;
    var era := Truncated(if z >= 0 then z else z - 146096, 146097);
    var doe := z - era * 146097;
    var yoe := YearOfEra(doe);
    var doy := doe - EraYearStart(yoe);
    var mp := (5 * doy + 2) / 153;
    var month := if mp < 10 then mp + 3 else mp - 9;
    var y := yoe + era * 400;
    Parts(if month <= 2 then y + 1 else y, month, doy - (153 * mp + 2) / 5 + 1,
          timeOfDay / 3600, timeOfDay % 3600 / 60, timeOfDay % 60)
  }

  function YearOfEra(doe: int): int {
    (doe - doe / 1460 + doe / 36524 - doe / 146096) / 365
  }

  /** First day of a year of the era; years of the era start in March. */
  function EraYearStart(yoe: int): int {
    365 * yoe + yoe / 4 - yoe / 100
  }

  /** The civil parts of a 64-bit count of seconds. */
  function UtcParts(secs: nat): Parts
    requires secs < TWO_64
  {
    var p := Civil(Signed(secs));
    p.(year := p.year % TWO_32)
  }

  // ----- The Gregorian calendar -----

  predicate Leap(y: int) {
    y % 4 == 0 && (y % 100 != 0 || y % 400 == 0)
  }

  function MonthLength(y: int, m: int): int {
    if m == 2 then (if Leap(y) then 29 else 28)
    else if m == 4 || m == 6 || m == 9 || m == 11 then 30
    else 31
  }

  /** Days from 1 January to the first of month `m`. */
  function MonthStart(y: int, m: int): int
    requires 1 <= m <= 12
    decreases m
  {
    if m == 1 then 0 else MonthStart(y, m - 1) + MonthLength(y, m - 1)
  }

  /** Days from 1 January 1970 to 1 January of year `y`. */
  function YearStart(y: int): int {
    365 * (y - 1970) + (y - 1) / 4 - (y - 1) / 100 + (y - 1) / 400 - 477
  }

  /** `YearStart` counts 365 days for a common year and 366 for a leap year, from the epoch both ways. */
  lemma YearStartCounts(y: int)
    ensures YearStart(1970) == 0
    ensures YearStart(y + 1) == YearStart(y) + (if Leap(y) then 366 else 365)
  {
    Fours(y);
    Hundreds(y);
    FourHundreds(y);
    Nested(y);
  }

  lemma Fours(y: int)
    ensures y / 4 == (y - 1) / 4 + (if y % 4 == 0 then 1 else 0)
  {
  }

  lemma Hundreds(y: int)
    ensures y / 100 == (y - 1) / 100 + (if y % 100 == 0 then 1 else 0)
  {
  }

  lemma FourHundreds(y: int)
    ensures y / 400 == (y - 1) / 400 + (if y % 400 == 0 then 1 else 0)
  {
  }

  lemma Nested(y: int)
    ensures (y % 400 == 0 ==> y % 100 == 0) && (y % 100 == 0 ==> y % 4 == 0)
  {
  }

  predicate Valid(p: Parts) {
    && 1 <= p.month <= 12 && 1 <= p.day <= MonthLength(p.year, p.month)
    && 0 <= p.hour < 24 && 0 <= p.minute < 60 && 0 <= p.second < 60
  }

  /** Seconds since the epoch by the Gregorian rules. */
  function Seconds(p: Parts): int
    requires Valid(p)
  {
    86400 * (YearStart(p.year) + MonthStart(p.year, p.month) + p.day - 1) + 3600 * p.hour + 60 * p.minute + p.second
  }

  // ----- The year -----

  /** The century a day falls in; the day at the end of the era is still in the last one. */
  lemma Century(doe: int)
    requires 0 <= doe < 146097
    ensures var c := doe / 36524 - doe / 146096;
            0 <= c < 4 && 36524 * c <= doe && (doe < 36524 * (c + 1) || (c == 3 && doe == 146096))
  {
  }

  lemma YearInCentury(doe: int, c: int, t: int, u: int, k: int)
    requires 0 <= doe < 146097 && doe == 1460 * t + u && 0 <= u < 1460
    requires 0 <= c < 4 && 36524 * c <= doe && (doe < 36524 * (c + 1) || (c == 3 && doe == 146096))
    requires 365 * k <= u + c - t < 365 * (k + 1)
    ensures -1 <= k <= 3 && 100 * c <= 4 * t + k < 100 * (c + 1)
  {
  }

  lemma FourYears(t: int, k: int)
    requires -1 <= k <= 4
    ensures (4 * t + k) / 4 == if k == -1 then t - 1 else if k == 4 then t + 1 else t
  {
  }

  lemma CenturyOf(y: int, c: int)
    requires 100 * c <= y < 100 * (c + 1)
    ensures y / 100 == c && (y + 1) / 100 == if y + 1 == 100 * (c + 1) then c + 1 else c
  {
  }

  lemma Quotient(doe: int, c: int, t: int, u: int)
    requires doe == 1460 * t + u
    ensures (doe - t + c) / 365 == 4 * t + (u + c - t) / 365
  {
  }

  /** The day lies in the year of the era that the formula finds. */
  lemma EraYear(doe: int)
    requires 0 <= doe < 146097
    ensures var yoe := YearOfEra(doe);
            0 <= yoe < 400 && EraYearStart(yoe) <= doe && (doe < EraYearStart(yoe + 1) || (yoe == 399 && doe == 146096))
  {
    var c := doe / 36524 - doe / 146096;
    var t, u := doe / 1460, doe % 1460;
    var k := (u + c - t) / 365;
    Century(doe);
    Quotient(doe, c, t, u);
    YearInCentury(doe, c, t, u, k);
    var yoe := 4 * t + k;
    assert YearOfEra(doe) == yoe;
    FourYears(t, k);
    FourYears(t, k + 1);
    CenturyOf(yoe, c);
    YearBounds(doe, c, t, u, k);
  }

  lemma YearBounds(doe: int, c: int, t: int, u: int, k: int)
    requires 0 <= doe < 146097 && doe == 1460 * t + u && 0 <= u < 1460
    requires 0 <= c < 4 && 36524 * c <= doe && (doe < 36524 * (c + 1) || (c == 3 && doe == 146096))
    requires 365 * k <= u + c - t < 365 * (k + 1) && -1 <= k <= 3
    ensures var yoe := 4 * t + k;
            var q := if k == -1 then t - 1 else t;
            var next := if k == 3 then t + 1 else t;
            && 365 * yoe + q - c <= doe
            && (doe < 365 * (yoe + 1) + next - (if yoe + 1 == 100 * (c + 1) then c + 1 else c)
                || (yoe == 399 && doe == 146096))
  {
  }

  lemma Era(z: int)
    ensures Truncated(if z >= 0 then z else z - 146096, 146097) == z / 146097
  {
  }

  // ----- The month and the day -----

  /** Days from 1 March to the first of the month `mp` months later. */
  function MarchOffset(mp: int): int {
    (153 * mp + 2) / 5
  }

  function MarchIndex(doy: int): int {
    (5 * doy + 2) / 153
  }

  lemma MonthOfDay(doy: int)
    requires 0 <= doy <= 365
    ensures var mp := MarchIndex(doy); 0 <= mp <= 11 && MarchOffset(mp) <= doy < MarchOffset(mp + 1)
  {
    var mp := (5 * doy + 2) / 153;
    assert 153 * mp <= 5 * doy + 2 < 153 * (mp + 1);
  }

  lemma Offsets()
    ensures MarchOffset(0) == 0 && MarchOffset(1) == 31 && MarchOffset(2) == 61 && MarchOffset(3) == 92
    ensures MarchOffset(4) == 122 && MarchOffset(5) == 153 && MarchOffset(6) == 184 && MarchOffset(7) == 214
    ensures MarchOffset(8) == 245 && MarchOffset(9) == 275 && MarchOffset(10) == 306 && MarchOffset(11) == 337
    ensures MarchOffset(12) == 367
  {
  }

  function MonthOf(mp: int): int {
    if mp < 10 then mp + 3 else mp - 9
  }

  /** First of the month of `mp` in the calendar year it lies in, counted from 1 January or from 1 March before. */
  lemma MonthStarts(y: int, mp: int)
    requires 0 <= mp <= 11
    ensures mp < 10 ==> MonthStart(y, MonthOf(mp)) == MonthStart(y, 3) + MarchOffset(mp)
    ensures mp >= 10 ==> MonthStart(y, MonthOf(mp)) == MarchOffset(mp) - 306
    ensures MonthStart(y, 3) == if Leap(y) then 60 else 59
    ensures mp != 11 ==> MonthLength(y, MonthOf(mp)) == MarchOffset(mp + 1) - MarchOffset(mp)
  {
    hide MarchOffset, Leap;
    Offsets();
    MonthTable(y);
  }

  lemma MonthTable(y: int)
    ensures MonthStart(y, 1) == 0 && MonthStart(y, 2) == 31 && MonthStart(y, 3) == if Leap(y) then 60 else 59
    ensures var m := MonthStart(y, 3);
            && MonthStart(y, 4) == m + 31 && MonthStart(y, 5) == m + 61 && MonthStart(y, 6) == m + 92
            && MonthStart(y, 7) == m + 122
            && MonthStart(y, 8) == m + 153 && MonthStart(y, 9) == m + 184 && MonthStart(y, 10) == m + 214
            && MonthStart(y, 11) == m + 245 && MonthStart(y, 12) == m + 275
  {
    hide Leap;
    assert MonthStart(y, 2) == 31;
    assert MonthStart(y, 4) == MonthStart(y, 3) + 31;
    assert MonthStart(y, 6) == MonthStart(y, 4) + 61;
    assert MonthStart(y, 8) == MonthStart(y, 6) + 61;
    assert MonthStart(y, 10) == MonthStart(y, 8) + 61;
    assert MonthStart(y, 11) == MonthStart(y, 10) + 31;
  }

  /** The day number of 1 March of a year, and the length of the year that starts there. */
  lemma MarchStart(y: int, era: int, yoe: int)
    requires y == yoe + 400 * era && 0 <= yoe < 400
    ensures YearStart(y) + (if Leap(y) then 60 else 59) == 146097 * era + EraYearStart(yoe) - 719468
  {
    hide Leap;
    YearStartCounts(y);
    var last := YearStart(y + 1);
    assert last == 365 * (y - 1969) + y / 4 - y / 100 + y / 400 - 477;
    Quarters(y, era, yoe);
  }

  lemma Quarters(y: int, era: int, yoe: int)
    requires y == yoe + 400 * era && 0 <= yoe < 400
    ensures y / 4 == yoe / 4 + 100 * era && y / 100 == yoe / 100 + 4 * era && y / 400 == era
  {
  }

  /** The day of the year is below its length: 366 when the following calendar year is leap. */
  lemma DayOfYear(y: int, era: int, yoe: int, doe: int)
    requires y == yoe + 400 * era && 0 <= yoe < 400 && 0 <= doe < 146097
    requires EraYearStart(yoe) <= doe && (doe < EraYearStart(yoe + 1) || (yoe == 399 && doe == 146096))
    ensures 0 <= doe - EraYearStart(yoe) <= 365
    ensures doe - EraYearStart(yoe) == 365 ==> Leap(y + 1)
  {
    Fours(yoe + 1);
    Hundreds(yoe + 1);
    Remainders(y, era, yoe);
  }

  lemma Remainders(y: int, era: int, yoe: int)
    requires y == yoe + 400 * era
    ensures (y + 1) % 4 == (yoe + 1) % 4 && (y + 1) % 100 == (yoe + 1) % 100 && (y + 1) % 400 == (yoe + 1) % 400
  {
    Remainder4(yoe + 1, era);
    Remainder100(yoe + 1, era);
    Remainder400(yoe + 1, era);
  }

  lemma Remainder4(x: int, k: int)
    ensures (x + 400 * k) % 4 == x % 4
  {
    assert x + 400 * k == 4 * (x / 4 + 100 * k) + x % 4;
  }

  lemma Remainder100(x: int, k: int)
    ensures (x + 400 * k) % 100 == x % 100
  {
    assert x + 400 * k == 100 * (x / 100 + 4 * k) + x % 100;
  }

  lemma Remainder400(x: int, k: int)
    ensures (x + 400 * k) % 400 == x % 400
  {
    assert x + 400 * k == 400 * (x / 400 + k) + x % 400;
  }

  // ----- Main results -----

  function DateOf(y: int, doy: int): Parts {
    var mp := MarchIndex(doy);
    Parts(if MonthOf(mp) <= 2 then y + 1 else y, MonthOf(mp), doy - MarchOffset(mp) + 1, 0, 0, 0)
  }

  /** Month and day from the day of a year that starts in March. */
  lemma DateIsRight(y: int, era: int, yoe: int, doy: int)
    requires y == yoe + 400 * era && 0 <= yoe < 400 && 0 <= doy <= 365 && (doy == 365 ==> Leap(y + 1))
    ensures var p := DateOf(y, doy);
            && Valid(p)
            && YearStart(p.year) + MonthStart(p.year, p.month) + p.day - 1
                 == 146097 * era + EraYearStart(yoe) - 719468 + doy
  {
    hide Leap, MarchOffset, YearStart, MonthStart, EraYearStart, MarchIndex;
    var mp := MarchIndex(doy);
    MonthOfDay(doy);
    Offsets();
    MarchStart(y, era, yoe);
    YearStartCounts(y);
    var p := DateOf(y, doy);
    MonthStarts(p.year, mp);
  }

  lemma CivilIs(s: int, era: int, yoe: int, doy: int)
    requires era == (s / 86400 + 719468) / 146097
    requires yoe == YearOfEra((s / 86400 + 719468) % 146097) && doy == (s / 86400 + 719468) % 146097 - EraYearStart(yoe)
    ensures Civil(s)
            == DateOf(yoe + 400 * era, doy).(hour := s % 86400 / 3600, minute := s % 86400 % 3600 / 60,
                                             second := s % 86400 % 60)
  {
    hide YearOfEra, EraYearStart;
    Era(s / 86400 + 719468);
  }

  lemma TimeOfDay(t: int)
    requires 0 <= t < 86400
    ensures 0 <= t / 3600 < 24 && 0 <= t % 3600 / 60 < 60 && 0 <= t % 60 < 60
    ensures 3600 * (t / 3600) + 60 * (t % 3600 / 60) + t % 60 == t
  {
    assert t % 3600 % 60 == t % 60 by {
      assert t == 60 * (60 * (t / 3600) + t % 3600 / 60) + t % 3600 % 60;
    }
  }

  /** The conversion is exact for every signed count of seconds, before and after the epoch. */
  lemma CivilIsExact(s: int)
    ensures Valid(Civil(s)) && Seconds(Civil(s)) == s
  {
    hide Leap, MarchOffset, YearStart, MonthStart, EraYearStart, YearOfEra, MonthLength, Civil, DateOf;
    var z := s / 86400 + 719468;
    var era, doe := z / 146097, z % 146097;
    var yoe := YearOfEra(doe);
    var doy := doe - EraYearStart(yoe);
    EraYear(doe);
    DayOfYear(yoe + 400 * era, era, yoe, doe);
    DateIsRight(yoe + 400 * era, era, yoe, doy);
    CivilIs(s, era, yoe, doy);
    TimeOfDay(s % 86400);
  }

  /** Two valid dates with the same count of seconds are equal. */
  lemma SecondsInjective(p: Parts, q: Parts)
    requires Valid(p) && Valid(q) && Seconds(p) == Seconds(q)
    ensures p == q
  {
    hide Leap, YearStart, MonthStart, MonthLength;
    DayBounds(p);
    DayBounds(q);
    SameDay(p, q);
    if p.year < q.year {
      YearsGrow(p.year, q.year);
    } else if q.year < p.year {
      YearsGrow(q.year, p.year);
    } else if p.month < q.month {
      MonthsGrow(p.year, p.month, q.month);
    } else if q.month < p.month {
      MonthsGrow(p.year, q.month, p.month);
    }
  }

  function DayNumber(p: Parts): int
    requires Valid(p)
  {
    YearStart(p.year) + MonthStart(p.year, p.month) + p.day - 1
  }

  lemma SameDay(p: Parts, q: Parts)
    requires Valid(p) && Valid(q) && Seconds(p) == Seconds(q)
    ensures DayNumber(p) == DayNumber(q) && p.hour == q.hour && p.minute == q.minute && p.second == q.second
  {
    hide YearStart, MonthStart, Leap, MonthLength;
  }

  lemma DayBounds(p: Parts)
    requires Valid(p)
    ensures YearStart(p.year) <= YearStart(p.year) + MonthStart(p.year, p.month) <= DayNumber(p)
    ensures DayNumber(p) < YearStart(p.year) + MonthStart(p.year, p.month) + MonthLength(p.year, p.month)
            <= YearStart(p.year + 1)
  {
    hide YearStart, Leap;
    MonthTable(p.year);
    YearStartCounts(p.year);
  }

  lemma {:induction false} YearsGrow(a: int, b: int)
    requires a < b
    ensures YearStart(a + 1) <= YearStart(b)
    decreases b - a
  {
    hide YearStart, Leap;
    if a + 1 < b {
      YearStartCounts(a + 1);
      YearsGrow(a + 1, b);
    }
  }

  lemma {:induction false} MonthsGrow(y: int, a: int, b: int)
    requires 1 <= a < b <= 12
    ensures MonthStart(y, a) + MonthLength(y, a) <= MonthStart(y, b)
    decreases b - a
  {
    hide Leap;
    if a + 1 < b {
      MonthsGrow(y, a, b - 1);
    }
  }

  /**
   Every 64-bit second count gives a date whose fields are in range for its
   month and year; counting its seconds back gives the same count exactly when
   the year before truncation fits 32 bits.
   */
  lemma UtcPartsIsExact(secs: nat)
    requires secs < TWO_64
    ensures var p := UtcParts(secs); var s := Signed(secs);
            && 1 <= p.month <= 12 && 1 <= p.day <= MonthLength(Civil(s).year, p.month)
            && 0 <= p.hour < 24 && 0 <= p.minute < 60 && 0 <= p.second < 60 && 0 <= p.year < TWO_32
            && ((Valid(p) && Seconds(p) == s) <==> 0 <= Civil(s).year < TWO_32)
  {
    hide Civil, YearStart, MonthStart, MonthLength;
    var s := Signed(secs);
    var p := UtcParts(secs);
    CivilIsExact(s);
    if Valid(p) && Seconds(p) == s {
      SecondsInjective(p, Civil(s));
    }
  }

  /** The conversion finds every valid date from 1970 on from its seconds. */
  lemma UtcPartsFinds(p: Parts)
    requires Valid(p) && 1970 <= p.year < TWO_32
    ensures 0 <= Seconds(p) < TWO_63 && UtcParts(Seconds(p)) == p
  {
    hide Civil, MonthStart, MonthLength, Leap;
    DayBounds(p);
    SecondsRange(p);
    CivilIsExact(Seconds(p));
    SecondsInjective(p, Civil(Seconds(p)));
  }

  lemma SecondsRange(p: Parts)
    requires Valid(p) && 1970 <= p.year < TWO_32
    ensures 0 <= Seconds(p) < TWO_63
  {
    hide MonthStart, MonthLength, Leap;
    DayBounds(p);
  }
}
