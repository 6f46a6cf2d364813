/** The proleptic Gregorian calendar on integers: days-from-civil and
    civil-from-days, and the POSIX "Seconds Since the Epoch" formula
    (POSIX.1-2017, Base Definitions, section 4.16) as the reference that
    `datetime.utcfromtimestamp` must agree with. Days are counted from
    0001-01-01, which is day 0. */
module Civil {

  const SecondsPerDay: nat := 86400
  /** Days from 0001-01-01 to 1970-01-01. */
  const EpochDays: nat := 719162
  /** 9999-12-31T23:59:59Z, the last second a Python `datetime` can hold. */
  const MaxTimestamp: nat := 253402300799

  datatype Date = Date(year: nat, month: nat, day: nat)
  /** A time of day, held as the seconds elapsed since midnight; the clock
      fields `hour`, `minute` and `second` are derived from it. */
  datatype TimeOfDay = TimeOfDay(secondOfDay: nat)
  datatype DateTime = DateTime(date: Date, time: TimeOfDay)

  predicate IsLeap(y: int) {
    y % 4 == 0 && (y % 100 != 0 || y % 400 == 0)
  }

  function DaysInYear(y: int): nat {
    if IsLeap(y) then 366 else 365
  }

  function DaysInMonth(y: int, m: int): nat
    requires 1 <= m <= 12
  {
    if m == 2 then (if IsLeap(y) then 29 else 28)
    else if m == 4 || m == 6 || m == 9 || m == 11 then 30
    else 31
  }

  /** Days in year `y` before the first of month `m`; month 13, and any
      later one, stands for the end of the year. */
  function DaysBeforeMonth(y: int, m: int): nat
    requires 1 <= m
  {
    var common :=
      match m
      case 1 => 0
      case 2 => 31
      case 3 => 59
      case 4 => 90
      case 5 => 120
      case 6 => 151
      case 7 => 181
      case 8 => 212
      case 9 => 243
      case 10 => 273
      case 11 => 304
      case 12 => 334
      case _ => 365;
    common + if m > 2 && IsLeap(y) then 1 else 0
  }

  /** Days from 0001-01-01 to the first of January of year `y`. */
  function DaysBeforeYear(y: int): int
    requires y >= 1
  {
    var p := y - 1;
    365 * p + p / 4 - p / 100 + p / 400
  }

  predicate ValidDate(d: Date) {
    1 <= d.year && 1 <= d.month <= 12 && 1 <= d.day <= DaysInMonth(d.year, d.month)
  }

  predicate ValidTime(t: TimeOfDay) {
    t.secondOfDay < SecondsPerDay
  }

  function Hour(t: TimeOfDay): nat {
    t.secondOfDay / 3600
  }

  function Minute(t: TimeOfDay): nat {
    t.secondOfDay % 3600 / 60
  }

  function Second(t: TimeOfDay): nat {
    t.secondOfDay % 60
  }

  /** The clock fields of a valid time are in range and add back up to
      the second of the day. */
  lemma ClockFields(t: TimeOfDay)
    requires ValidTime(t)
    ensures Hour(t) < 24 && Minute(t) < 60 && Second(t) < 60
    ensures Hour(t) * 3600 + Minute(t) * 60 + Second(t) == t.secondOfDay
  {
  }

  /** The time with the given clock fields. */
  function ClockTime(h: nat, m: nat, s: nat): (t: TimeOfDay)
    requires h < 24 && m < 60 && s < 60
    ensures ValidTime(t) && Hour(t) == h && Minute(t) == m && Second(t) == s
  {
    TimeOfDay(h * 3600 + m * 60 + s)
  }

  predicate ValidDateTime(dt: DateTime) {
    ValidDate(dt.date) && ValidTime(dt.time)
  }

  /** Zero-based day of the year, POSIX's `tm_yday`. */
  function YearDay(d: Date): int
    requires ValidDate(d)
  {
    DaysBeforeMonth(d.year, d.month) + d.day - 1
  }

  lemma DaysBeforeNextMonth(y: int, m: int)
    requires 1 <= m <= 12
    ensures DaysBeforeMonth(y, m + 1) == DaysBeforeMonth(y, m) + DaysInMonth(y, m)
  {
  }

  lemma DaysBeforeYearEnd(y: int)
    ensures DaysBeforeMonth(y, 13) == DaysInYear(y)
  {
  }

  lemma DaysBeforeNextYear(y: int)
    requires y >= 1
    ensures DaysBeforeYear(y + 1) == DaysBeforeYear(y) + DaysInYear(y)
  {
    var p := y - 1;
    assert (p + 1) / 4 == p / 4 + (if y % 4 == 0 then 1 else 0);
    assert (p + 1) / 100 == p / 100 + (if y % 100 == 0 then 1 else 0);
    assert (p + 1) / 400 == p / 400 + (if y % 400 == 0 then 1 else 0);
  }

  /** Each year is at least 365 days long, so later years start later. */
  lemma {:induction false} DaysBeforeYearMonotone(y1: int, y2: int)
    requires 1 <= y1 <= y2
    ensures DaysBeforeYear(y1) + 365 * (y2 - y1) <= DaysBeforeYear(y2)
    decreases y2 - y1
  {
    if y1 < y2 {
      DaysBeforeNextYear(y1);
      DaysBeforeYearMonotone(y1 + 1, y2);
    }
  }

  lemma {:induction false} DaysBeforeMonthMonotone(y: int, m1: int, m2: int)
    requires 1 <= m1 <= m2 <= 13
    ensures DaysBeforeMonth(y, m1) + 28 * (m2 - m1) <= DaysBeforeMonth(y, m2)
    decreases m2 - m1
  {
    if m1 < m2 {
      DaysBeforeNextMonth(y, m1);
      DaysBeforeMonthMonotone(y, m1 + 1, m2);
    }
  }

  /** The 400-year cycle split that civil-from-days relies on: a year given
      as `a` cycles, `c` centuries, `q` four-year groups and `r` years (all
      within range) starts at the day count that sum of lengths gives. */
  lemma CycleStart(a: nat, c: nat, q: nat, r: nat)
    requires c <= 3 && q <= 24 && r <= 3
    ensures DaysBeforeYear(400 * a + 100 * c + 4 * q + r + 1) == 146097 * a + 36524 * c + 1461 * q + 365 * r
  {
    var p := 400 * a + 100 * c + 4 * q + r;
    assert p / 4 == 100 * a + 25 * c + q;
    assert p / 100 == 4 * a + c;
    assert p / 400 == a;
  }

  /** Days-from-civil: the day number of a calendar date. */
  function DaysFromCivil(d: Date): int
    requires ValidDate(d)
  {
    DaysBeforeYear(d.year) + YearDay(d)
  }

  /** A date's day number lies within its year's days. */
  lemma DaysFromCivilInYear(d: Date)
    requires ValidDate(d)
    ensures 0 <= DaysBeforeYear(d.year) <= DaysFromCivil(d) < DaysBeforeYear(d.year + 1)
  {
    DaysBeforeNextMonth(d.year, d.month);
    DaysBeforeMonthMonotone(d.year, d.month + 1, 13);
    DaysBeforeYearEnd(d.year);
    DaysBeforeNextYear(d.year);
    DaysBeforeYearMonotone(1, d.year);
  }

  datatype YearAndDay = YearAndDay(year: nat, yday: nat)

  lemma LeapAtCycleEnd(a: nat)
    ensures IsLeap(400 * a + 400)
  {
    assert (400 * a + 400) % 400 == 0;
  }

  lemma LeapAtGroupEnd(a: nat, c: nat, q: nat)
    requires c <= 3 && q <= 23
    ensures IsLeap(400 * a + 100 * c + 4 * q + 4)
  {
    var y := 400 * a + 100 * c + 4 * q + 4;
    assert y == 4 * (100 * a + 25 * c + q + 1);
    assert y == 100 * (4 * a + c) + (4 * q + 4) && 4 * q + 4 < 100;
  }

  /** The year a day number falls in and its zero-based day within that
      year, by splitting off 400-year cycles, centuries, four-year groups
      and years: the same cycle split as CPython's `_ord2ymd` (the
      conversion itself takes its fields from `gmtime`, which follows the
      same proleptic Gregorian calendar). */
  function YearOf(n: nat): YearAndDay {
    var n400, r400 := n / 146097, n % 146097;
    var n100, r100 := r400 / 36524, r400 % 36524;
    if n100 == 4 then
      // The last day of a 400-year cycle: 31 December of a leap year.
      YearAndDay(400 * n400 + 400, 365)
    else
      var n4, r4 := r100 / 1461, r100 % 1461;
      var n1, r1 := r4 / 365, r4 % 365;
      if n1 == 4 then
        // The last day of a four-year group: 31 December of a leap year.
        YearAndDay(400 * n400 + 100 * n100 + 4 * n4 + 4, 365)
      else
        YearAndDay(400 * n400 + 100 * n100 + 4 * n4 + n1 + 1, r1)
  }

  /** Day `n` falls in year `YearOf(n).year`, `YearOf(n).yday` days after
      its first of January. */
  lemma YearOfSpec(n: nat)
    ensures YearOf(n).year >= 1 && YearOf(n).yday < DaysInYear(YearOf(n).year)
    ensures DaysBeforeYear(YearOf(n).year) + YearOf(n).yday == n
  {
    var n400, r400 := n / 146097, n % 146097;
    var n100, r100 := r400 / 36524, r400 % 36524;
    assert n == 146097 * n400 + 36524 * n100 + r100;
    if n100 == 4 {
      assert r100 == 0;
      CycleStart(n400, 3, 24, 3);
      LeapAtCycleEnd(n400);
    } else {
      var n4, r4 := r100 / 1461, r100 % 1461;
      var n1, r1 := r4 / 365, r4 % 365;
      assert n100 <= 3 && n4 <= 24 && n1 <= 4;
      assert r100 == 1461 * n4 + 365 * n1 + r1;
      if n1 == 4 {
        assert r1 == 0 && n4 <= 23;
        CycleStart(n400, n100, n4, 3);
        LeapAtGroupEnd(n400, n100, n4);
      } else {
        CycleStart(n400, n100, n4, n1);
      }
    }
  }

  /** The month a zero-based day of year `y` falls in: an estimate from
      `(yday + 50) / 32`, corrected by at most one, the same estimate as in `_ord2ymd`. */
  function MonthOf(y: int, yday: nat): (m: nat)
    ensures 1 <= m && DaysBeforeMonth(y, m) <= yday
    ensures yday < DaysInYear(y) ==> m <= 12 && yday < DaysBeforeMonth(y, m + 1)
  {
    var estimate := (yday + 50) / 32;
    if DaysBeforeMonth(y, estimate) > yday then estimate - 1 else estimate
  }

  /** Civil-from-days: the calendar date of a day number. */
  function CivilFromDays(n: nat): Date {
    var yd := YearOf(n);
    var m := MonthOf(yd.year, yd.yday);
    Date(yd.year, m, yd.yday - DaysBeforeMonth(yd.year, m) + 1)
  }

  /** Civil-from-days gives a valid date whose day number is `n`. */
  lemma CivilFromDaysSpec(n: nat)
    ensures ValidDate(CivilFromDays(n))
    ensures DaysFromCivil(CivilFromDays(n)) == n
  {
    var yd := YearOf(n);
    YearOfSpec(n);
    DaysBeforeNextMonth(yd.year, MonthOf(yd.year, yd.yday));
  }

  /** Two valid dates with the same day number are the same date. */
  lemma DaysFromCivilInjective(d1: Date, d2: Date)
    requires ValidDate(d1) && ValidDate(d2)
    requires DaysFromCivil(d1) == DaysFromCivil(d2)
    ensures d1 == d2
  {
    DaysFromCivilInYear(d1);
    DaysFromCivilInYear(d2);
    if d1.year < d2.year {
      DaysBeforeYearMonotone(d1.year + 1, d2.year);
    } else if d2.year < d1.year {
      DaysBeforeYearMonotone(d2.year + 1, d1.year);
    } else if d1.month < d2.month {
      DaysBeforeNextMonth(d1.year, d1.month);
      DaysBeforeMonthMonotone(d1.year, d1.month + 1, d2.month);
    } else if d2.month < d1.month {
      DaysBeforeNextMonth(d2.year, d2.month);
      DaysBeforeMonthMonotone(d2.year, d2.month + 1, d1.month);
    }
  }

  /** Civil-from-days undoes days-from-civil on every valid date. */
  lemma CivilFromDaysInverse(d: Date)
    requires ValidDate(d)
    ensures DaysFromCivil(d) >= 0 && CivilFromDays(DaysFromCivil(d)) == d
  {
    DaysFromCivilInYear(d);
    CivilFromDaysSpec(DaysFromCivil(d));
    DaysFromCivilInjective(CivilFromDays(DaysFromCivil(d)), d);
  }

  /** C's `/` on integers, which truncates toward zero. */
  function Quot(a: int, b: int): int
    requires b > 0
  {
    if a >= 0 then a / b else -((-a) / b)
  }

  /** POSIX.1-2017, Base Definitions, section 4.16: seconds since the Epoch
      of a broken-down UTC time, with `tm_year` counted from 1900 and
      `tm_yday` the zero-based day of the year. */
  function PosixSeconds(dt: DateTime): int
    requires ValidDate(dt.date)
  {
    var tmYear := dt.date.year - 1900;
    Second(dt.time) + Minute(dt.time) * 60 + Hour(dt.time) * 3600 + YearDay(dt.date) * 86400
      + (tmYear - 70) * 31536000 + Quot(tmYear - 69, 4) * 86400
      - Quot(tmYear - 1, 100) * 86400 + Quot(tmYear + 299, 400) * 86400
  }

  /** For years from 1970 on, the POSIX formula counts whole days exactly as
      days-from-civil does, from 1970-01-01. */
  lemma PosixDays(dt: DateTime)
    requires ValidDateTime(dt) && dt.date.year >= 1970
    ensures PosixSeconds(dt) == (DaysFromCivil(dt.date) - EpochDays) * 86400 + dt.time.secondOfDay
  {
    ClockFields(dt.time);
    var y := dt.date.year;
    var p := y - 1;
    assert Quot(y - 1969, 4) == p / 4 - 492;
    assert Quot(y - 1901, 100) == p / 100 - 19;
    assert Quot(y - 1601, 400) == p / 400 - 4;
  }

  /** `datetime.utcfromtimestamp(ts)` for a timestamp a `datetime` can
      hold: the date `ts / 86400` days after 1970-01-01 and the time of
      day `ts % 86400`. */
  function UtcFromTimestamp(ts: nat): DateTime
    requires ts <= MaxTimestamp
  {
    DateTime(CivilFromDays(EpochDays + ts / SecondsPerDay), TimeOfDay(ts % SecondsPerDay))
  }

  /** The converted date is valid, in years 1970 to 9999, `ts / 86400`
      days after 1970-01-01; the time of day is `ts % 86400`; and the POSIX
      formula maps the result back to `ts`. */
  lemma UtcFromTimestampSpec(ts: nat)
    requires ts <= MaxTimestamp
    ensures ValidDateTime(UtcFromTimestamp(ts))
    ensures 1970 <= UtcFromTimestamp(ts).date.year <= 9999
    ensures DaysFromCivil(UtcFromTimestamp(ts).date) == EpochDays + ts / SecondsPerDay
    ensures UtcFromTimestamp(ts).time.secondOfDay == ts % SecondsPerDay
    ensures PosixSeconds(UtcFromTimestamp(ts)) == ts
  {
    var dt := UtcFromTimestamp(ts);
    CivilFromDaysSpec(EpochDays + ts / SecondsPerDay);
    YearRange(dt.date);
    PosixDays(dt);
  }

  /** A day number from 1970-01-01 to 9999-12-31 lies in a year of that range. */
  lemma YearRange(d: Date)
    requires ValidDate(d) && EpochDays <= DaysFromCivil(d) <= EpochDays + MaxTimestamp / SecondsPerDay
    ensures 1970 <= d.year <= 9999
  {
    DaysFromCivilInYear(d);
    if d.year < 1970 {
      DaysBeforeYearMonotone(d.year + 1, 1970);
    }
    if d.year > 9999 {
      DaysBeforeYearMonotone(10000, d.year);
    }
  }

  /** Going the other way: every valid UTC date and time from 1970 to 9999
      has a timestamp in range, and `utcfromtimestamp` gives it back. */
  lemma UtcFromTimestampInverse(dt: DateTime)
    requires ValidDateTime(dt) && 1970 <= dt.date.year <= 9999
    ensures 0 <= PosixSeconds(dt) <= MaxTimestamp
    ensures UtcFromTimestamp(PosixSeconds(dt)) == dt
  {
    PosixDays(dt);
    var days := DaysFromCivil(dt.date);
    DaysFromCivilInYear(dt.date);
    DaysBeforeYearMonotone(1970, dt.date.year);
    DaysBeforeYearMonotone(dt.date.year + 1, 10000);
    var ts := PosixSeconds(dt);
    var s := dt.time.secondOfDay;
    assert ts == (days - EpochDays) * 86400 + s;
    assert ts / 86400 == days - EpochDays && ts % 86400 == s;
    var back := UtcFromTimestamp(ts);
    UtcFromTimestampSpec(ts);
    DaysFromCivilInjective(back.date, dt.date);
  }

  /** Timestamp 0, the fallback when a message has no ACCEPT event, is
      midnight at the start of 1970-01-01. */
  lemma EpochStart()
    ensures UtcFromTimestamp(0) == DateTime(Date(1970, 1, 1), TimeOfDay(0))
  {
    var epoch := DateTime(Date(1970, 1, 1), TimeOfDay(0));
    assert ValidDateTime(epoch);
    assert PosixSeconds(epoch) == 0;
    UtcFromTimestampInverse(epoch);
  }
}
