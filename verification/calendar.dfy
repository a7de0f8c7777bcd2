/**
 * Integer calendar arithmetic for the proleptic Gregorian calendar, used to
 * split an epoch-millisecond instant into the columns of the time table.
 * Day numbers count days since 1970-01-01 (day 0); the civil conversion is
 * the era-based (400-year cycle) algorithm, with the era starting on March 1.
 */
module Calendar {

  const MillisPerDay: int := 86_400_000
  const MillisPerHour: int := 3_600_000

  datatype Civil = Civil(year: int, month: int, day: int)

  predicate IsLeap(y: int)
  {
    y % 4 == 0 && (y % 100 != 0 || y % 400 == 0)
  }

  function DaysInMonth(y: int, m: int): int
    requires 1 <= m <= 12
  {
    if m == 2 then (if IsLeap(y) then 29 else 28)
    else if m == 4 || m == 6 || m == 9 || m == 11 then 30
    else 31
  }

  /** A date that exists in the calendar. */
  predicate ValidCivil(c: Civil)
  {
    1 <= c.month <= 12 && 1 <= c.day <= DaysInMonth(c.year, c.month)
  }

  /** Year within the 400-year era (from March 1) of day `doe` of the era. */
  function YearOfEra(doe: int): int
  {
    (doe - doe / 1460 + doe / 36524 - doe / 146096) / 365
  }

  /** Day of the era on which March-based year `yoe` of the era starts. */
  function YearStart(yoe: int): int
  {
    365 * yoe + yoe / 4 - yoe / 100
  }

  /** Day within its March-based year of day `doe` of the era. */
  function DayOfYear(doe: int): int
  {
    doe - YearStart(YearOfEra(doe))
  }

  /** Month (March = 0 ... February = 11) holding day `doy` of a March-based year. */
  function MarchMonthOf(doy: int): int
  {
    (5 * doy + 2) / 153
  }

  /** Day of a March-based year on which month `mp` starts. */
  function MonthStart(mp: int): int
  {
    (153 * mp + 2) / 5
  }

  /**
   * Splits day doe of an era (other than its last day) as
   * 36524 * c + 1461 * q + s: century c, four-year cycle q, day s of that
   * cycle, and t, the whole years of the cycle before the day (a leap day
   * ending the cycle, delta, shifts the count); the day lies in year
   * 100 * c + 4 * q + t of the era.
   */
  lemma EraParts(doe: int) returns (c: int, q: int, s: int, t: int)
    requires 0 <= doe < 146096
    ensures doe == 36524 * c + 1461 * q + s
    ensures 0 <= c <= 3 && 0 <= q <= 24 && 0 <= s <= 1460 && (q == 24 ==> s <= 1459) && 0 <= t <= 3
    ensures var delta := if 24 * c + q + s >= 1460 then 1 else 0;
      365 * t + delta <= s < 365 * t + 365 + delta
    ensures YearOfEra(doe) == 100 * c + 4 * q + t
  {
    c := doe / 36524;
    q := (doe - 36524 * c) / 1461;
    s := doe - 36524 * c - 1461 * q;
    var delta := if 24 * c + q + s >= 1460 then 1 else 0;
    t := (s - delta) / 365;
    assert doe / 1460 == 25 * c + q + delta;
  }

  /** Year 100 * c + 4 * q + t of an era starts 36524 * c + 1461 * q + 365 * t days into it. */
  lemma YearStartParts(c: int, q: int, t: int)
    requires 0 <= c <= 3 && 0 <= q <= 24 && 0 <= t <= 3
    ensures YearStart(100 * c + 4 * q + t) == 36524 * c + 1461 * q + 365 * t
  {
    var yoe := 100 * c + 4 * q + t;
    assert yoe / 4 == 25 * c + q;
    assert yoe / 100 == c;
  }

  /**
   * Every day of an era falls in one of its 400 years, at a day of that year
   * in 0..365, and day 365 (a February 29) only occurs in a year before a
   * leap year.
   */
  lemma EraDay(doe: int)
    requires 0 <= doe < 146097
    ensures 0 <= YearOfEra(doe) <= 399
    ensures 0 <= DayOfYear(doe) <= 365
    ensures DayOfYear(doe) == 365 ==>
      (YearOfEra(doe) + 1) % 4 == 0 && ((YearOfEra(doe) + 1) % 100 != 0 || YearOfEra(doe) == 399)
  {
    if doe == 146096 {
      assert YearOfEra(doe) == 399 && DayOfYear(doe) == 365;
    } else {
      var c, q, s, t := EraParts(doe);
      YearStartParts(c, q, t);
      assert DayOfYear(doe) == s - 365 * t;
      if s - 365 * t == 365 {
        assert 24 * c + q + s >= 1460;
        assert t == 3 && s == 1460 && q < 24;
        assert (100 * c + 4 * q + 4) / 4 == 25 * c + q + 1;
        assert (100 * c + 4 * q + 4) / 100 == c;
      }
    }
  }

  /** Length of month `mp` of a March-based year (March = 0 ... February = 11). */
  function MarchMonthLength(mp: int, leap: bool): int
  {
    if mp == 11 then (if leap then 29 else 28)
    else if mp == 1 || mp == 3 || mp == 6 || mp == 8 then 30
    else 31
  }

  /** Day `doy` of a March-based year lies in month MarchMonthOf(doy), on a day of that month. */
  lemma MarchMonth(doy: int)
    requires 0 <= doy <= 365
    ensures 0 <= MarchMonthOf(doy) <= 11
    ensures 1 <= doy - MonthStart(MarchMonthOf(doy)) + 1 <= MarchMonthLength(MarchMonthOf(doy), doy == 365)
  {
    var mp := MarchMonthOf(doy);
    assert 0 <= mp <= 11;
    if mp < 6 {
      if mp < 3 {
        assert mp == 0 || mp == 1 || mp == 2;
      } else {
        assert mp == 3 || mp == 4 || mp == 5;
      }
    } else {
      if mp < 9 {
        assert mp == 6 || mp == 7 || mp == 8;
      } else {
        assert mp == 9 || mp == 10 || mp == 11;
      }
    }
  }

  /**
   * The civil year holding the February that ends year `yoe` of era `era`
   * is a leap year exactly when the era arithmetic lets that year end on
   * February 29.
   */
  lemma LeapInEra(era: int, yoe: int)
    requires 0 <= yoe <= 399
    ensures (yoe + 1) % 4 == 0 && ((yoe + 1) % 100 != 0 || yoe == 399) <==> IsLeap(era * 400 + yoe + 1)
  {
    var y := era * 400 + yoe + 1;
    assert y / 4 == 100 * era + (yoe + 1) / 4;
    assert y / 100 == 4 * era + (yoe + 1) / 100;
    assert y / 400 == era + (yoe + 1) / 400;
  }

  /** Day `day` of March-based month `mp` is a day of the year that lies in month mp. */
  lemma DayInMarchMonth(mp: int, day: int, leap: bool)
    requires 0 <= mp <= 11 && 1 <= day <= MarchMonthLength(mp, leap)
    ensures 0 <= MonthStart(mp) + day - 1 <= 365
    ensures MonthStart(mp) + day - 1 == 365 ==> leap
    ensures MarchMonthOf(MonthStart(mp) + day - 1) == mp
  {
    if mp < 6 {
      if mp < 3 {
        assert mp == 0 || mp == 1 || mp == 2;
      } else {
        assert mp == 3 || mp == 4 || mp == 5;
      }
    } else {
      if mp < 9 {
        assert mp == 6 || mp == 7 || mp == 8;
      } else {
        assert mp == 9 || mp == 10 || mp == 11;
      }
    }
  }

  /**
   * Day `doy` of year 100 * c + 4 * q + t of an era is a day of the era
   * that the era arithmetic places back in that year; day 365 must be the
   * February 29 that ends a four-year cycle other than a century's last.
   */
  lemma YearOfDayParts(c: int, q: int, t: int, doy: int)
    requires 0 <= c <= 3 && 0 <= q <= 24 && 0 <= t <= 3 && 0 <= doy <= 365
    requires doy == 365 ==> t == 3 && (q < 24 || c == 3)
    ensures 0 <= 36524 * c + 1461 * q + 365 * t + doy < 146097
    ensures YearOfEra(36524 * c + 1461 * q + 365 * t + doy) == 100 * c + 4 * q + t
  {
    var doe := 36524 * c + 1461 * q + 365 * t + doy;
    if c == 3 && q == 24 && t == 3 && doy == 365 {
      assert doe == 146096;
    } else {
      var r := 24 * c + q + 365 * t + doy;
      var delta := if r >= 1460 then 1 else 0;
      assert doe == 1460 * (25 * c + q) + r;
      assert doe / 146096 == 0;
      assert doe / 36524 == c;
      assert doe / 1460 == 25 * c + q + delta;
      assert doe - doe / 1460 + doe / 36524 - doe / 146096 == 365 * (100 * c + 4 * q + t) + (doy - delta);
    }
  }

  /**
   * Day `doy` of year `yoe` of an era is a day of the era that the era
   * arithmetic places back in year yoe; day 365 must be a February 29.
   */
  lemma YearOfDay(yoe: int, doy: int)
    requires 0 <= yoe <= 399 && 0 <= doy <= 365
    requires doy == 365 ==> (yoe + 1) % 4 == 0 && ((yoe + 1) % 100 != 0 || yoe == 399)
    ensures 0 <= YearStart(yoe) + doy < 146097
    ensures YearOfEra(YearStart(yoe) + doy) == yoe
  {
    var c, q, t := yoe / 100, (yoe % 100) / 4, yoe % 4;
    assert yoe == 100 * c + 4 * q + t;
    YearStartParts(c, q, t);
    if doy == 365 {
      assert t == 3;
      if q == 24 {
        assert (yoe + 1) % 100 == 0;
      }
    }
    YearOfDayParts(c, q, t, doy);
  }

  /** The calendar date of day `doe` of era `era` (eras start on 0000-03-01). */
  function CivilOfEra(era: int, doe: int): Civil
  {
    var yoe := YearOfEra(doe);
    var doy := DayOfYear(doe);
    var mp := MarchMonthOf(doy);
    var m := if mp < 10 then mp + 3 else mp - 9;
    var y := yoe + era * 400;
    Civil(if m <= 2 then y + 1 else y, m, doy - MonthStart(mp) + 1)
  }

  /** The calendar date of day number `days`. */
  function CivilFromDays(days: int): Civil
  {
    var z := days + 719468;
    var era := z / 146097;
    CivilOfEra(era, z - era * 146097)
  }

  /** Every day of an era has a date that exists in the calendar. */
  lemma CivilOfEraValid(era: int, doe: int)
    requires 0 <= doe < 146097
    ensures ValidCivil(CivilOfEra(era, doe))
  {
    EraDay(doe);
    var yoe := YearOfEra(doe);
    var doy := DayOfYear(doe);
    MarchMonth(doy);
    var mp := MarchMonthOf(doy);
    var m := if mp < 10 then mp + 3 else mp - 9;
    var y := yoe + era * 400;
    LeapInEra(era, yoe);
    assert MarchMonthLength(mp, doy == 365) <= DaysInMonth(if m <= 2 then y + 1 else y, m);
  }

  /** Every day number has a date that exists in the calendar. */
  lemma CivilFromDaysValid(days: int)
    ensures ValidCivil(CivilFromDays(days))
  {
    var z := days + 719468;
    var era := z / 146097;
    CivilOfEraValid(era, z - era * 146097);
  }

  /** The day number of a calendar date. */
  function DaysFromCivil(c: Civil): int
  {
    var y := if c.month <= 2 then c.year - 1 else c.year;
    var era := y / 400;
    var yoe := y - era * 400;
    var mp := if c.month > 2 then c.month - 3 else c.month + 9;
    var doy := MonthStart(mp) + c.day - 1;
    var doe := YearStart(yoe) + doy;
    era * 146097 + doe - 719468
  }

  /** Counting the days of the date of day `doe` of era `era` gives back that day. */
  lemma EraInverse(era: int, doe: int)
    requires 0 <= doe < 146097
    ensures DaysFromCivil(CivilOfEra(era, doe)) == era * 146097 + doe - 719468
  {
    EraDay(doe);
    MarchMonth(DayOfYear(doe));
    var c := CivilOfEra(era, doe);
    var y := if c.month <= 2 then c.year - 1 else c.year;
    assert y == era * 400 + YearOfEra(doe);
    assert y / 400 == era;
  }

  /** Counting the days of the date of day `days` gives back `days`. */
  lemma DaysFromCivilInverse(days: int)
    ensures DaysFromCivil(CivilFromDays(days)) == days
  {
    var z := days + 719468;
    var era := z / 146097;
    EraInverse(era, z - era * 146097);
  }

  /** Day `doe` of era `era` is the era's day of its own day number. */
  lemma EraDayNumber(era: int, doe: int)
    requires 0 <= doe < 146097
    ensures CivilFromDays(era * 146097 + doe - 719468) == CivilOfEra(era, doe)
  {
    var z := era * 146097 + doe;
    assert z / 146097 == era && z - era * 146097 == doe;
  }

  /** The date of day `doe` of an era, given the year, day of year and month the era arithmetic finds for it. */
  lemma CivilOfEraFrom(era: int, doe: int, yoe: int, doy: int, mp: int)
    ensures YearOfEra(doe) == yoe && DayOfYear(doe) == doy && MarchMonthOf(doy) == mp ==>
      var m := if mp < 10 then mp + 3 else mp - 9;
      CivilOfEra(era, doe) == Civil(if m <= 2 then era * 400 + yoe + 1 else era * 400 + yoe, m, doy - MonthStart(mp) + 1)
  {
  }

  /** Day `day` of March-based month `mp` of year `yoe` of an era falls on that date. */
  lemma CivilOfEraDay(era: int, yoe: int, mp: int, day: int, leap: bool)
    requires 0 <= yoe <= 399 && 0 <= mp <= 11 && 1 <= day <= MarchMonthLength(mp, leap)
    requires leap ==> (yoe + 1) % 4 == 0 && ((yoe + 1) % 100 != 0 || yoe == 399)
    ensures 0 <= YearStart(yoe) + MonthStart(mp) + day - 1 < 146097
    ensures var m := if mp < 10 then mp + 3 else mp - 9;
      CivilOfEra(era, YearStart(yoe) + MonthStart(mp) + day - 1)
        == Civil(if m <= 2 then era * 400 + yoe + 1 else era * 400 + yoe, m, day)
  {
    DayInMarchMonth(mp, day, leap);
    var doy := MonthStart(mp) + day - 1;
    YearOfDay(yoe, doy);
    CivilOfEraFrom(era, YearStart(yoe) + doy, yoe, doy, mp);
  }

  /** The day number of day `day` of March-based month `mp` of year `yoe` of an era has that date. */
  lemma DateOfEraDay(era: int, yoe: int, mp: int, day: int, days: int)
    requires 0 <= yoe <= 399 && 0 <= mp <= 11
    requires 1 <= day <= MarchMonthLength(mp, IsLeap(era * 400 + yoe + 1))
    requires days == era * 146097 + YearStart(yoe) + MonthStart(mp) + day - 1 - 719468
    ensures var m := if mp < 10 then mp + 3 else mp - 9;
      CivilFromDays(days)
        == Civil(if m <= 2 then era * 400 + yoe + 1 else era * 400 + yoe, m, day)
  {
    LeapInEra(era, yoe);
    CivilOfEraDay(era, yoe, mp, day, IsLeap(era * 400 + yoe + 1));
    EraDayNumber(era, YearStart(yoe) + MonthStart(mp) + day - 1);
  }

  /** The date of the day number of a date that exists is that date. */
  lemma CivilFromDaysInverse(c: Civil)
    requires ValidCivil(c)
    ensures CivilFromDays(DaysFromCivil(c)) == c
  {
    var y := if c.month <= 2 then c.year - 1 else c.year;
    var era := y / 400;
    var yoe := y - era * 400;
    var mp := if c.month > 2 then c.month - 3 else c.month + 9;
    assert era * 400 + yoe + 1 == c.year || c.month > 2;
    DateOfEraDay(era, yoe, mp, c.day, DaysFromCivil(c));
  }

  /** Weekday of day number `days`, Monday = 1 ... Sunday = 7 (1970-01-01 was a Thursday). */
  function IsoWeekday(days: int): (w: int)
    ensures 1 <= w <= 7
    ensures (w - days) % 7 == 4
  {
    (days + 3) % 7 + 1
  }

  /** Weekday as Spark's `dayofweek` numbers it: Sunday = 1 ... Saturday = 7. */
  function DayOfWeek(days: int): (w: int)
    ensures 1 <= w <= 7
    ensures w == IsoWeekday(days) % 7 + 1
  {
    (days + 4) % 7 + 1
  }

  /** Number of ISO weeks in year y: 53 when it starts on a Thursday, or on a Wednesday in a leap year. */
  function WeeksInYear(y: int): (n: int)
    ensures n == 52 || n == 53
  {
    var jan1 := IsoWeekday(DaysFromCivil(Civil(y, 1, 1)));
    if jan1 == 4 || (IsLeap(y) && jan1 == 3) then 53 else 52
  }

  /** ISO week-of-year of a date, as Spark's `weekofyear` reports it. */
  function IsoWeek(c: Civil): (w: int)
    ensures 1 <= w <= 53
  {
    var ordinal := DaysFromCivil(c) - DaysFromCivil(Civil(c.year, 1, 1)) + 1;
    var wd := IsoWeekday(DaysFromCivil(c));
    var w := (ordinal - wd + 10) / 7;
    if w < 1 then WeeksInYear(c.year - 1)
    else if w > WeeksInYear(c.year) then 1
    else w
  }

  /** Week 1 of an ISO year is the week holding January 4. */
  lemma January4InWeekOne(y: int)
    ensures IsoWeek(Civil(y, 1, 4)) == 1
  {
    assert DaysFromCivil(Civil(y, 1, 4)) == DaysFromCivil(Civil(y, 1, 1)) + 3;
  }

  /** The calendar columns of a local wall-clock instant. */
  datatype Fields = Fields(hour: int, day: int, week: int, month: int, year: int, weekday: int)

  /**
   * Splits a local instant, in milliseconds since 1970-01-01T00:00 local
   * time, into hour, day of month, ISO week, month, year and weekday; the
   * fields name the hour that contains the instant.
   */
  function FieldsOf(localMs: int): (f: Fields)
    ensures 0 <= f.hour <= 23 && 1 <= f.day <= 31 && 1 <= f.week <= 53
    ensures 1 <= f.month <= 12 && 1 <= f.weekday <= 7
    ensures ValidCivil(Civil(f.year, f.month, f.day))
    ensures var start := DaysFromCivil(Civil(f.year, f.month, f.day)) * MillisPerDay + f.hour * MillisPerHour;
      start <= localMs < start + MillisPerHour
    ensures f.weekday == DayOfWeek(DaysFromCivil(Civil(f.year, f.month, f.day)))
  {
    var days := localMs / MillisPerDay;
    var hour := (localMs % MillisPerDay) / MillisPerHour;
    var c := CivilFromDays(days);
    CivilFromDaysValid(days);
    DaysFromCivilInverse(days);
    Fields(hour, c.day, IsoWeek(c), c.month, c.year, DayOfWeek(days))
  }

  /** The calendar fields a time zone gives an instant (milliseconds since the epoch). */
  type Clock = int -> Fields

  /** A time zone whose clock is always `offsetMs` milliseconds ahead of UTC. */
  function FixedOffset(offsetMs: int): Clock
  {
    instant => FieldsOf(instant + offsetMs)
  }

  /** Day 17836 is 2018-11-01. */
  lemma Day17836()
    ensures CivilFromDays(17836) == Civil(2018, 11, 1)
  {
    assert YearOfEra(6819) == 18;
    assert DayOfYear(6819) == 245;
    assert MarchMonthOf(245) == 8 && MonthStart(8) == 245;
    assert CivilOfEra(5, 6819) == Civil(2018, 11, 1);
    assert 17836 + 719468 == 5 * 146097 + 6819;
  }

  /** Day 2932897 is 10000-01-01. */
  lemma Day2932897()
    ensures CivilFromDays(2932897) == Civil(10000, 1, 1)
  {
    assert YearOfEra(146037) == 399;
    assert DayOfYear(146037) == 306;
    assert MarchMonthOf(306) == 10 && MonthStart(10) == 306;
    assert CivilOfEra(24, 146037) == Civil(10000, 1, 1);
    assert 2932897 + 719468 == 24 * 146097 + 146037;
  }

  /** ts = 253402300800000 is midnight starting 10000-01-01 in UTC. */
  lemma January1st10000()
    ensures FieldsOf(253402300800000).year == 10000
  {
    assert 253402300800000 / MillisPerDay == 2932897;
    Day2932897();
  }

  /** 2018-11-01, a Thursday, is in ISO week 44 of 2018, a year of 52 weeks starting on a Monday. */
  lemma Week44()
    ensures DaysFromCivil(Civil(2018, 11, 1)) == 17836
    ensures IsoWeek(Civil(2018, 11, 1)) == 44
    ensures DayOfWeek(17836) == 5
  {
    assert MonthStart(8) == 245 && YearStart(18) == 6574;
    assert DaysFromCivil(Civil(2018, 11, 1)) == 17836;
    assert DaysFromCivil(Civil(2018, 1, 1)) == 17532;
    assert IsoWeekday(17532) == 1 && !IsLeap(2018);
    assert WeeksInYear(2018) == 52;
  }

  /**
   * ts = 1541105830796 is 2018-11-01 20:57:10.796 in UTC, a Thursday of ISO
   * week 44; on a clock one hour ahead of UTC it falls in hour 21.
   */
  lemma November1st2018()
    ensures FieldsOf(1541105830796) == Fields(20, 1, 44, 11, 2018, 5)
    ensures FieldsOf(1541105830796 + MillisPerHour) == Fields(21, 1, 44, 11, 2018, 5)
  {
    assert 1541105830796 / MillisPerDay == 17836;
    assert (1541105830796 + MillisPerHour) / MillisPerDay == 17836;
    Day17836();
    Week44();
  }
}
