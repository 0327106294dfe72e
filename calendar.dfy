/** The calendar arithmetic of librtc: the mapping between a broken-down calendar time and seconds since
    the Unix epoch (section 4.16 of POSIX.1-2017, XBD "Seconds Since the Epoch", extended proleptically),
    computed with the same integer expressions, branches and constants as lib/librtc/librtc.c. */
module Calendar {
  import opened CInt

  /** `librtc_time`: the fields of C's `struct tm`, each a C `int`. `year` counts from 1900 and `mon` from
      January; `wday` and `yday` are derived fields, `isdst` is carried but has no effect. */
  datatype Time = Time(sec: int, min: int, hour: int, mday: int, mon: int, year: int,
                       wday: int, yday: int, isdst: int)

  const SECONDS_IN_MINUTE: int := 60
  const SECONDS_IN_HOUR: int := 3600
  const SECONDS_IN_DAY: int := 86400
  const SECONDS_IN_NON_LEAP_YEAR: int := 31536000
  /** The mean Gregorian year, 365.2425 days, used for the first guess of the year. */
  const MEAN_YEAR: int := 31556952

  /** Day of the year on which each month starts in a common year (`s_yday_table`). */
  const YDAY_TABLE: seq<int> := [0, 31, 59, 90, 120, 151, 181, 212, 243, 273, 304, 334]

  /** `LIBRTC_UNIX_EPOCH`: 1970-01-01 00:00:00, a Thursday, with `isdst` -1. */
  const UNIX_EPOCH: Time := Time(0, 0, 0, 1, 0, 70, 4, 0, -1)

  /** The record written when a time is too late: year 0x7FFFFFFF after 1900, 12-31 23:59:59. */
  const MAX_TIME: Time := Time(59, 59, 23, 31, 11, INT32_MAX, 3, 364, 0)

  /** The record written when a time is too early: year -0x80000000 after 1900, 01-01 00:00:00. */
  const MIN_TIME: Time := Time(0, 0, 0, 1, 0, INT32_MIN, 4, 0, 0)

  /** From this Unix time on, `librtc_from_unix_time` clamps to `MAX_TIME`. */
  const MAX_TS: int := 67768036191676800

  /** Below this Unix time, `librtc_from_unix_time` clamps to `MIN_TIME`. */
  const MIN_TS: int := -67768040609721748

  /** The start of the year 0x80000000: from here up to `MAX_TS` the year guess is capped at 0x7FFFFFFF
      (a year, not a `tm_year`), so the seconds left over no longer fit in an `int`. */
  const LIMIT_TS: int := 67767976233532800

  // ---------------------------------------------------------------------------------------------
  // Leap years and the start of each year

  /** `is_leap_year` as written. Its last line returns false, so a year divisible by 4 and not by 100 is
      NOT a leap year; only multiples of 400 are (see `LeapTestAsWritten`). */
  predicate IsLeapYear(year: int) {
    if CMod(year, 4) != 0 then false
    else if CMod(year, 100) == 0 then CMod(year, 400) == 0
    else false
  }

  /** The proleptic Gregorian leap-year rule, which `YearToUnixTime` follows. */
  predicate GregorianLeap(year: int) {
    year % 4 == 0 && (year % 100 != 0 || year % 400 == 0)
  }

  /** Days in a year under the Gregorian rule. */
  function YearDays(year: int): int {
    if GregorianLeap(year) then 366 else 365
  }

  lemma LeapTestAsWritten(year: int)
    ensures IsLeapYear(year) <==> year % 400 == 0
    ensures IsLeapYear(year) ==> GregorianLeap(year)
    ensures GregorianLeap(year) && year % 100 != 0 ==> !IsLeapYear(year)
  {
    CRemainderZero(year, 4);
    CRemainderZero(year, 100);
    CRemainderZero(year, 400);
    DivisibleBy400(year);
  }

  /** A C remainder is zero exactly when the Euclidean one is. */
  lemma CRemainderZero(a: int, k: int)
    requires k == 4 || k == 100 || k == 400
    ensures CMod(a, k) == 0 <==> a % k == 0
  {
    if a < 0 {
      if a % k == 0 {
        DivUnique(-a, k, -(a / k), 0);
      }
      if (-a) % k == 0 {
        DivUnique(a, k, -((-a) / k), 0);
      }
    }
  }

  /** The leap days that `year_to_unix_time` counts between 1970 and the start of `year`. `(year+3) >> 2` is
      a floor division; the other two divide a conditional expression with C's truncating `/`, written here
      branch by branch (the dividend is positive in the first branch and not positive in the second; see
      `LeapDaysBeforeAsWritten`). */
  function LeapDaysBefore(year: int): int {
    -478 + (year + 3) / 4
    - (if year > 0 then (year + 99) / 100 else -((-year) / 100))
    + (if year > 0 then (year + 399) / 400 else -((-year) / 400))
  }

  lemma LeapDaysBeforeAsWritten(year: int)
    ensures LeapDaysBefore(year) == -478 + (year + 3) / 4
                                    - CDiv(if year > 0 then year + 99 else year, 100)
                                    + CDiv(if year > 0 then year + 399 else year, 400)
  {
  }

  /** `year_to_unix_time`: the Unix time at which `year` (a real year, not a `tm_year`) starts. */
  function YearToUnixTime(year: int): int {
    (year - 1970) * SECONDS_IN_NON_LEAP_YEAR + LeapDaysBefore(year) * SECONDS_IN_DAY
  }

  /** `-((-y) / k)`: the quotient rounded up. */
  function CeilDiv(y: int, k: int): int
    requires k > 0
  {
    -((-y) / k)
  }

  lemma CeilDivStep(y: int, k: int)
    requires k == 4 || k == 100 || k == 400
    ensures CeilDiv(y + 1, k) - CeilDiv(y, k) == if y % k == 0 then 1 else 0
  {
    var q, r := (-y) / k, (-y) % k;
    assert -y == k * q + r && 0 <= r < k;
    if r == 0 {
      CeilDivStepMultiple(y, k, q);
    } else {
      CeilDivStepOther(y, k, q, r);
    }
  }

  lemma CeilDivStepMultiple(y: int, k: int, q: int)
    requires k == 4 || k == 100 || k == 400
    requires -y == k * q
    ensures CeilDiv(y + 1, k) == -q + 1 && CeilDiv(y, k) == -q && y % k == 0
  {
    DivUnique(-y, k, q, 0);
    DivUnique(-y - 1, k, q - 1, k - 1);
    DivUnique(y, k, -q, 0);
  }

  lemma CeilDivStepOther(y: int, k: int, q: int, r: int)
    requires k == 4 || k == 100 || k == 400
    requires -y == k * q + r && 0 < r < k
    ensures CeilDiv(y + 1, k) == -q && CeilDiv(y, k) == -q && y % k != 0
  {
    DivUnique(-y, k, q, r);
    DivUnique(-y - 1, k, q, r - 1);
    DivUnique(y, k, -q - 1, k - r);
  }

  lemma DivUnique(a: int, k: int, q: int, r: int)
    requires k == 4 || k == 100 || k == 400
    requires a == k * q + r && 0 <= r < k
    ensures a / k == q && a % k == r
  {
  }

  /** The three quotients of `LeapDaysBefore` are all divisions rounded up. */
  lemma LeapDaysBeforeCeil(year: int)
    ensures LeapDaysBefore(year) == -478 + CeilDiv(year, 4) - CeilDiv(year, 100) + CeilDiv(year, 400)
  {
    assert (year + 3) / 4 == CeilDiv(year, 4);
    if year > 0 {
      assert (year + 99) / 100 == CeilDiv(year, 100);
      assert (year + 399) / 400 == CeilDiv(year, 400);
    }
  }

  lemma DivisibleBy400(year: int)
    ensures year % 400 == 0 ==> year % 100 == 0 && year % 4 == 0
    ensures year % 100 == 0 ==> year % 4 == 0
  {
    if year % 400 == 0 {
      var q := year / 400;
      DivUnique(year, 100, 4 * q, 0);
      DivUnique(year, 4, 100 * q, 0);
    }
    if year % 100 == 0 {
      DivUnique(year, 4, 25 * (year / 100), 0);
    }
  }

  /** Consecutive year starts are one Gregorian year apart: 365 days, plus one exactly in a Gregorian
      leap year. */
  lemma {:induction false} YearLength(year: int)
    ensures YearToUnixTime(year + 1) - YearToUnixTime(year) == YearDays(year) * SECONDS_IN_DAY
  {
    LeapDaysBeforeCeil(year);
    LeapDaysBeforeCeil(year + 1);
    CeilDivStep(year, 4);
    CeilDivStep(year, 100);
    CeilDivStep(year, 400);
    DivisibleBy400(year);
  }

  /** A year starts less than two days away from where the mean Gregorian year would put it. */
  lemma YearStartNearMean(year: int)
    ensures (year - 1970) * MEAN_YEAR - 2 * SECONDS_IN_DAY < YearToUnixTime(year)
    ensures YearToUnixTime(year) < (year - 1970) * MEAN_YEAR + 2 * SECONDS_IN_DAY
  {
    LeapDaysBeforeCeil(year);
    var c4, c100, c400 := CeilDiv(year, 4), CeilDiv(year, 100), CeilDiv(year, 400);
    assert 4 * c4 - 3 <= year <= 4 * c4;
    assert 100 * c100 - 99 <= year <= 100 * c100;
    assert 400 * c400 - 399 <= year <= 400 * c400;
    var dev := 400 * LeapDaysBefore(year) - 97 * (year - 1970);
    assert -506 <= dev <= 589;
    assert 400 * YearToUnixTime(year) == 400 * (year - 1970) * MEAN_YEAR + dev * SECONDS_IN_DAY;
  }

  /** Year starts strictly increase. */
  lemma YearStartMonotone(a: int, b: int)
    requires a < b
    ensures YearToUnixTime(a) < YearToUnixTime(b)
  {
    YearStartNearMean(a);
    YearStartNearMean(b);
    assert (b - 1970) * MEAN_YEAR - (a - 1970) * MEAN_YEAR == (b - a) * MEAN_YEAR >= MEAN_YEAR;
  }

  /** Unix time `t` lies in year `y`. */
  predicate InYear(t: int, y: int) {
    YearToUnixTime(y) <= t < YearToUnixTime(y + 1)
  }

  /** Some year contains Unix time `t`: the mean-year estimate is off by at most one either way. */
  lemma YearContaining(t: int)
    ensures exists y :: InYear(t, y)
  {
    var g := 1970 + t / MEAN_YEAR;
    YearStartNearMean(g - 1);
    YearStartNearMean(g + 2);
    YearStartMonotone(g - 1, g);
    YearStartMonotone(g + 1, g + 2);
    var y := if t < YearToUnixTime(g) then g - 1 else if t < YearToUnixTime(g + 1) then g else g + 1;
    assert InYear(t, y);
  }

  /** Only one year contains a given Unix time. */
  lemma YearUnique(t: int, a: int, b: int)
    requires InYear(t, a) && InYear(t, b)
    ensures a == b
  {
    if a < b {
      if a + 1 < b { YearStartMonotone(a + 1, b); }
    } else if b < a {
      if b + 1 < a { YearStartMonotone(b + 1, a); }
    }
  }

  // ---------------------------------------------------------------------------------------------
  // Months

  /** The day of the year on which month `m` starts, with the leap day added as `is_leap_year` decides. */
  function MonthStart(year: int, m: int): int
    requires 0 <= m <= 11
  {
    YDAY_TABLE[m] + (if m >= 2 && IsLeapYear(year) then 1 else 0)
  }

  lemma MonthStartMonotone(year: int, a: int, b: int)
    requires 0 <= a < b <= 11
    ensures MonthStart(year, a) + 28 <= MonthStart(year, b)
  {
  }

  /** The last month, searching down from `m`, that has started by day `yday` (month 0 if none). */
  function LastMonthStartingBy(year: int, yday: int, m: int): (r: int)
    requires 0 <= m <= 11
    ensures 0 <= r <= m
    ensures r == 0 || MonthStart(year, r) <= yday
    ensures forall k :: r < k <= m ==> yday < MonthStart(year, k)
    decreases m
  {
    if m == 0 || MonthStart(year, m) <= yday then m else LastMonthStartingBy(year, yday, m - 1)
  }

  /** The month in which day `yday` of `year` falls. */
  function MonthOf(year: int, yday: int): int {
    LastMonthStartingBy(year, yday, 11)
  }

  lemma MonthOfUnique(year: int, yday: int, m: int)
    requires 0 <= m <= 11 && MonthStart(year, m) <= yday
    requires m < 11 ==> yday < MonthStart(year, m + 1)
    ensures MonthOf(year, yday) == m
  {
    var r := MonthOf(year, yday);
    if r > m && m < 11 {
      if m + 1 < r { MonthStartMonotone(year, m + 1, r); }
    }
  }

  /** `librtc_set_month_and_day`: the month and day of the month of day `yday` of `year`. For any `yday` the
      month is in range and the month start plus the day gives back `yday`; for a day of the year the day
      of the month is at least 1. In December the day is not capped, so the 366th day of a year that
      `year_to_unix_time` counts as a leap year but `is_leap_year` does not becomes December 32. The search
      loop only reads `YDAY_TABLE` at indices up to 11. */
  method SetMonthAndDay(year: int, yday: int) returns (mon: int, mday: int)
    ensures 0 <= mon <= 11
    ensures MonthStart(year, mon) + mday - 1 == yday
    ensures mon < 11 ==> yday < MonthStart(year, mon + 1)
    ensures yday >= 0 ==> mday >= 1
  {
    if yday < 31 {
      return 0, yday + 1;
    } else if yday < 59 {
      return 1, yday - 30;
    } else if yday == 59 {
      if IsLeapYear(year) {
        return 1, 29;
      } else {
        return 2, 1;
      }
    }
    var d := yday;
    if IsLeapYear(year) {
      d := d - 1;
    }
    if d >= 334 {
      return 11, d - 333;
    }
    var month := (d + 4) / 32;
    while true
      invariant 1 <= month <= 10
      invariant YDAY_TABLE[month] <= d
      decreases 11 - month
    {
      if d < YDAY_TABLE[month + 1] {
        return month, d + 1 - YDAY_TABLE[month];
      }
      month := month + 1;
    }
  }

  // ---------------------------------------------------------------------------------------------
  // Calendar time to Unix time

  /** `librtc_to_unix_time`. The month may lie outside [0,11]: the C remainder is corrected to [0,11], and
      the truncated quotient is added to the year, so month -1 is December of the SAME year. The leap day is
      decided on the unadjusted year. */
  function ToUnixTime(tm: Time): int {
    var m := CMod(tm.mon, 12);
    var month := if m < 0 then m + 12 else m;
    var days := MonthStart(tm.year + 1900, month) + tm.mday - 1;
    YearToUnixTime(tm.year + 1900 + CDiv(tm.mon, 12))
    + days * SECONDS_IN_DAY
    + tm.hour * SECONDS_IN_HOUR
    + tm.min * SECONDS_IN_MINUTE
    + tm.sec
  }

  /** For a month in [0,11] the conversion is the year start plus the days and the time of day. */
  lemma ToUnixTimeInRangeMonth(tm: Time)
    requires 0 <= tm.mon <= 11
    ensures ToUnixTime(tm) == YearToUnixTime(tm.year + 1900)
                              + (MonthStart(tm.year + 1900, tm.mon) + tm.mday - 1) * SECONDS_IN_DAY
                              + (tm.hour * 3600 + tm.min * 60 + tm.sec)
  {
    assert CMod(tm.mon, 12) == tm.mon && CDiv(tm.mon, 12) == 0;
  }

  /** Only the year, month, day of the month, hour, minute and second are read. */
  lemma ToUnixTimeIgnoresDerivedFields(a: Time, b: Time)
    requires a.year == b.year && a.mon == b.mon && a.mday == b.mday
    requires a.hour == b.hour && a.min == b.min && a.sec == b.sec
    ensures ToUnixTime(a) == ToUnixTime(b)
  {
  }

  /** Month -1 (as written: the truncating quotient is 0) is December of the same year, not of the year
      before. */
  lemma NegativeMonthStaysInYear(tm: Time)
    ensures ToUnixTime(tm.(mon := -1)) == ToUnixTime(tm.(mon := 11))
  {
  }

  /** The converted time does not overflow `long long` for `int` fields; it stays below 2^57 in magnitude. */
  lemma ToUnixTimeFitsInt64(tm: Time)
    requires IsInt32(tm.sec) && IsInt32(tm.min) && IsInt32(tm.hour) && IsInt32(tm.mday)
    requires IsInt32(tm.mon) && IsInt32(tm.year)
    ensures -0x0200_0000_0000_0000 <= ToUnixTime(tm) <= 0x0200_0000_0000_0000
    ensures IsInt64(ToUnixTime(tm))
  {
    var y := tm.year + 1900 + CDiv(tm.mon, 12);
    assert -0x0B00_0000 <= CDiv(tm.mon, 12) <= 0x0B00_0000;
    YearStartBound(y);
    var yearTs := YearToUnixTime(y);
    var m := CMod(tm.mon, 12);
    var month := if m < 0 then m + 12 else m;
    var days := MonthStart(tm.year + 1900, month) + tm.mday - 1;
    assert -0x1_0000_0000 <= days <= 0x1_0000_0000;
    assert ToUnixTime(tm) == yearTs + days * SECONDS_IN_DAY + tm.hour * SECONDS_IN_HOUR
                             + tm.min * SECONDS_IN_MINUTE + tm.sec;
  }

  lemma YearStartBound(y: int)
    requires -0x8C00_0000 <= y - 1970 <= 0x8C00_0000
    ensures -0x0110_0000_0000_0000 <= YearToUnixTime(y) <= 0x0110_0000_0000_0000
  {
    YearStartNearMean(y);
    assert -0x8C00_0000 * MEAN_YEAR <= (y - 1970) * MEAN_YEAR <= 0x8C00_0000 * MEAN_YEAR;
  }

  // ---------------------------------------------------------------------------------------------
  // Unix time to calendar time: the reference definition

  /** The weekday that `librtc_from_unix_time` assigns to Unix time `t`: 4 (Thursday) plus the number of
      days, the C quotient truncated toward zero, reduced into [0,6]. */
  function WeekdayOf(t: int): (w: int)
    ensures 0 <= w <= 6
  {
    (4 + CDiv(t, SECONDS_IN_DAY)) % 7
  }

  /** The date and time fields of a normalized record: every field in its range, the day of the month
      within its month (December may run to the end of the Gregorian year), and the day of the year
      consistent with them. */
  predicate DateInRange(tm: Time) {
    && 0 <= tm.sec < 60 && 0 <= tm.min < 60 && 0 <= tm.hour < 24
    && 0 <= tm.mon <= 11 && 1 <= tm.mday
    && tm.yday == MonthStart(tm.year + 1900, tm.mon) + tm.mday - 1
    && (if tm.mon < 11 then tm.yday < MonthStart(tm.year + 1900, tm.mon + 1)
        else tm.yday < YearDays(tm.year + 1900))
  }

  /** A normalized record: its date in range, and its weekday and `isdst` as `librtc_from_unix_time` sets
      them. */
  predicate IsNormalized(tm: Time) {
    && DateInRange(tm)
    && tm.wday == WeekdayOf(ToUnixTime(tm))
    && tm.isdst == 0
  }

  /** `tm` is a normalized record of Unix time `t`. */
  predicate IsRecordOf(t: int, tm: Time) {
    IsNormalized(tm) && ToUnixTime(tm) == t
  }

  /** The calendar record of day `yday` of year `y` at second `sod` of that day, with weekday `wday`: the
      month and day of the month of that day, and the hour, minute and second. */
  function RecordInYear(y: int, yday: int, sod: int, wday: int): Time {
    var mon := MonthOf(y, yday);
    Time(sec := sod % 60, min := (sod % 3600) / 60, hour := sod / 3600,
         mday := yday - MonthStart(y, mon) + 1, mon := mon, year := y - 1900,
         wday := wday, yday := yday, isdst := 0)
  }

  lemma YearOffsetInRange(t: int, y: int)
    requires InYear(t, y)
    ensures 0 <= t - YearToUnixTime(y) < YearDays(y) * SECONDS_IN_DAY
  {
    YearLength(y);
  }

  /** Splitting seconds into whole days and the seconds of the day. */
  lemma DaySplit(s: int)
    ensures s == s / SECONDS_IN_DAY * SECONDS_IN_DAY + s % SECONDS_IN_DAY
    ensures 0 <= s % SECONDS_IN_DAY < SECONDS_IN_DAY
  {
  }

  lemma DaySplitUnique(s: int, days: int, sod: int)
    requires s == days * SECONDS_IN_DAY + sod && 0 <= sod < SECONDS_IN_DAY
    ensures s / SECONDS_IN_DAY == days && s % SECONDS_IN_DAY == sod
  {
  }

  /** Splitting the seconds of a day into hours, minutes and seconds, and back. */
  lemma TimeOfDaySplit(sod: int)
    requires 0 <= sod < SECONDS_IN_DAY
    ensures sod == sod / 3600 * 3600 + (sod % 3600) / 60 * 60 + sod % 60
    ensures 0 <= sod / 3600 < 24 && 0 <= (sod % 3600) / 60 < 60 && 0 <= sod % 60 < 60
  {
    var h, r := sod / 3600, sod % 3600;
    assert sod == h * 3600 + r;
    assert r == r / 60 * 60 + r % 60;
    assert sod % 60 == r % 60;
  }

  lemma TimeOfDayUnique(hour: int, min: int, sec: int)
    requires 0 <= hour < 24 && 0 <= min < 60 && 0 <= sec < 60
    ensures var sod := hour * 3600 + min * 60 + sec;
            && sod / 3600 == hour && (sod % 3600) / 60 == min && sod % 60 == sec
  {
    var sod := hour * 3600 + min * 60 + sec;
    assert sod % 3600 == min * 60 + sec;
    assert sod % 60 == sec;
  }

  /** The record of a day of a year and a second of that day has its date in range, and its day of the
      year and time of day are those it was made from. */
  lemma RecordInYearFields(y: int, yday: int, sod: int, wday: int)
    requires 0 <= yday < YearDays(y) && 0 <= sod < SECONDS_IN_DAY
    ensures var r := RecordInYear(y, yday, sod, wday);
            && DateInRange(r)
            && r.year == y - 1900 && r.wday == wday && r.isdst == 0
            && r.yday == yday && r.hour * 3600 + r.min * 60 + r.sec == sod
  {
    TimeOfDaySplit(sod);
  }

  /** Conversely, a record whose date is in range is the record of its own day of the year and time of day. */
  lemma RecordInYearOfFields(tm: Time)
    requires DateInRange(tm) && tm.isdst == 0
    ensures RecordInYear(tm.year + 1900, tm.yday, tm.hour * 3600 + tm.min * 60 + tm.sec, tm.wday) == tm
  {
    TimeOfDayUnique(tm.hour, tm.min, tm.sec);
    MonthOfUnique(tm.year + 1900, tm.yday, tm.mon);
  }

  /** Every Unix time has a normalized record: the record of its second within the year containing it. */
  lemma RecordExists(t: int)
    ensures exists tm :: IsRecordOf(t, tm)
  {
    YearContaining(t);
    var y :| InYear(t, y);
    YearOffsetInRange(t, y);
    var s := t - YearToUnixTime(y);
    DaySplit(s);
    var r := RecordInYear(y, s / SECONDS_IN_DAY, s % SECONDS_IN_DAY, WeekdayOf(t));
    RecordInYearFields(y, s / SECONDS_IN_DAY, s % SECONDS_IN_DAY, WeekdayOf(t));
    ToUnixTimeInRangeMonth(r);
    assert ToUnixTime(r) == t;
    assert IsRecordOf(t, r);
  }

  /** The calendar record of Unix time `t`: the normalized record that converts back to `t` (there is one by
      `RecordExists`, and only one by `NormalizedUnique`). */
  ghost function Civil(t: int): (tm: Time)
    ensures IsNormalized(tm) && ToUnixTime(tm) == t
  {
    RecordExists(t);
    var tm :| IsRecordOf(t, tm);
    tm
  }

  /** The intended conversion, clamping included; it equals what `librtc_from_unix_time` computes outside
      `[LIMIT_TS, MAX_TS)`, where the C code caps the year and wraps the seconds left over. */
  ghost function FromUnix(t: int): (Time, bool) {
    if t >= MAX_TS then (MAX_TIME, false)
    else if t < MIN_TS then (MIN_TIME, false)
    else (Civil(t), true)
  }

  /** A record whose date is in range lies `yday` days and its time of day after the start of its year,
      inside that year. */
  lemma NormalizedOffset(tm: Time)
    requires DateInRange(tm)
    ensures var y := tm.year + 1900;
            && ToUnixTime(tm) == YearToUnixTime(y) + tm.yday * SECONDS_IN_DAY + (tm.hour * 3600 + tm.min * 60 + tm.sec)
            && InYear(ToUnixTime(tm), y)
  {
    var y := tm.year + 1900;
    ToUnixTimeInRangeMonth(tm);
    DayOfYearInRange(tm);
    YearLength(y);
  }

  /** The day of the year and the time of day of a record whose date is in range fall within its year. */
  lemma DayOfYearInRange(tm: Time)
    requires DateInRange(tm)
    ensures 0 <= tm.yday < YearDays(tm.year + 1900)
    ensures 0 <= tm.yday * SECONDS_IN_DAY + (tm.hour * 3600 + tm.min * 60 + tm.sec)
                < YearDays(tm.year + 1900) * SECONDS_IN_DAY
  {
    if tm.mon < 10 {
      MonthStartMonotone(tm.year + 1900, tm.mon + 1, 11);
    }
  }

  /** Two normalized records with the same Unix time are equal. */
  lemma NormalizedUnique(a: Time, b: Time)
    requires IsNormalized(a) && IsNormalized(b)
    requires ToUnixTime(a) == ToUnixTime(b)
    ensures a == b
  {
    var t := ToUnixTime(a);
    NormalizedOffset(a);
    NormalizedOffset(b);
    YearUnique(t, a.year + 1900, b.year + 1900);
    DaySplitUnique(t - YearToUnixTime(a.year + 1900), a.yday, a.hour * 3600 + a.min * 60 + a.sec);
    DaySplitUnique(t - YearToUnixTime(a.year + 1900), b.yday, b.hour * 3600 + b.min * 60 + b.sec);
    RecordInYearOfFields(a);
    RecordInYearOfFields(b);
  }

  /** A normalized record is the calendar record of its own Unix time: normalization changes nothing. */
  lemma NormalizedIsCivil(tm: Time)
    requires IsNormalized(tm)
    ensures Civil(ToUnixTime(tm)) == tm
  {
    NormalizedUnique(Civil(ToUnixTime(tm)), tm);
  }

  /** The weekday is the true one for times from the epoch on and for whole days, but for a negative time
      within a day the quotient truncates toward zero and the weekday is one day late. */
  lemma WeekdayAsWritten(t: int)
    ensures t >= 0 || t % SECONDS_IN_DAY == 0 ==> WeekdayOf(t) == (4 + t / SECONDS_IN_DAY) % 7
    ensures t < 0 && t % SECONDS_IN_DAY != 0 ==> WeekdayOf(t) == (5 + t / SECONDS_IN_DAY) % 7
  {
  }

  // ---------------------------------------------------------------------------------------------
  // Unix time to calendar time: the code

  /** Every year before the first mean-year estimate starts no later than `t`. */
  lemma GuessNotBelowFloor(t: int, g: int)
    requires t < YearToUnixTime(g)
    ensures g >= 1970 + t / MEAN_YEAR
  {
    YearStartNearMean(g);
  }

  /** The year search of `librtc_from_unix_time`: from the mean-year estimate, step down until the year
      starts no later than the time, or cap the estimate at 0x7FFFFFFF, or step up once. The year found
      starts no later than the time; below `LIMIT_TS` it is the year that contains the time. */
  method GuessYear(unixTime: int) returns (yearGuess: int, yearTs: int)
    requires MIN_TS <= unixTime < MAX_TS
    ensures yearTs == YearToUnixTime(yearGuess) <= unixTime
    ensures unixTime < LIMIT_TS ==> unixTime < YearToUnixTime(yearGuess + 1)
  {
    ghost var floorGuess := 1970 + unixTime / MEAN_YEAR;
    yearGuess := 1970 + CDiv(unixTime, MEAN_YEAR);
    yearTs := YearToUnixTime(yearGuess);
    if unixTime < yearTs {
      yearGuess := yearGuess - 1;
      yearTs := YearToUnixTime(yearGuess);
      while unixTime < yearTs
        invariant yearTs == YearToUnixTime(yearGuess)
        invariant unixTime < YearToUnixTime(yearGuess + 1)
        decreases yearGuess - floorGuess
      {
        GuessNotBelowFloor(unixTime, yearGuess);
        yearGuess := yearGuess - 1;
        yearTs := YearToUnixTime(yearGuess);
      }
    } else if yearGuess > INT32_MAX {
      YearStartMonotone(INT32_MAX, yearGuess);
      yearGuess := INT32_MAX;
      yearTs := YearToUnixTime(yearGuess);
      YearLimits();
    } else {
      YearStartNearMean(yearGuess + 2);
      YearStartMonotone(yearGuess + 1, yearGuess + 2);
      var nextYearTs := YearToUnixTime(yearGuess + 1);
      if unixTime >= nextYearTs {
        yearGuess := yearGuess + 1;
        yearTs := nextYearTs;
      }
    }
  }

  /** `librtc_from_unix_time`. A time from `MAX_TS` on gives `MAX_TIME` and one below `MIN_TS` gives
      `MIN_TIME`, both with false; any other time gives true, `isdst` 0, and up to the start of the year
      0x80000000 exactly the calendar record `Civil(t)`. From there up to `MAX_TS` (the year cap at line 498
      is on the real year, not on `tm_year`) the seconds within the year wrap at the `int` conversion; the
      month and weekday are still in range. */
  method FromUnixTime(unixTime: int) returns (tm: Time, ok: bool)
    ensures unixTime >= MAX_TS ==> !ok && tm == MAX_TIME
    ensures unixTime < MIN_TS ==> !ok && tm == MIN_TIME
    ensures MIN_TS <= unixTime < LIMIT_TS ==> ok && tm == Civil(unixTime)
    ensures LIMIT_TS <= unixTime < MAX_TS ==> ok && tm.isdst == 0
    ensures 0 <= tm.mon <= 11 && 0 <= tm.wday <= 6 && IsInt32(tm.year)
  {
    if unixTime >= MAX_TS {
      return MAX_TIME, false;
    } else if unixTime < MIN_TS {
      return MIN_TIME, false;
    }
    var yearGuess, yearTs := GuessYear(unixTime);
    var ts := ToInt32(unixTime - yearTs);
    var year := ToInt32(yearGuess - 1900);
    var yday := CDiv(ts, SECONDS_IN_DAY);
    ts := CMod(ts, SECONDS_IN_DAY);
    var mon, mday := SetMonthAndDay(yearGuess, yday);
    var hour := CDiv(ts, SECONDS_IN_HOUR);
    ts := CMod(ts, SECONDS_IN_HOUR);
    var min := CDiv(ts, SECONDS_IN_MINUTE);
    var sec := CMod(ts, SECONDS_IN_MINUTE);
    var wday := CMod(4 + CDiv(unixTime, SECONDS_IN_DAY), 7);
    if wday < 0 {
      wday := wday + 7;
    }
    tm := Time(sec, min, hour, mday, mon, year, wday, yday, 0);
    ok := true;

    if unixTime < LIMIT_TS {
      assert FieldsOfSecond(tm, yearGuess, ToInt32(unixTime - yearTs));
      FromUnixTimeIsCivil(unixTime, yearGuess, tm);
    }
  }

  /** The fields that `FromUnixTime` computes once the year is found are those of `Civil`. */
  lemma FromUnixTimeIsCivil(t: int, y: int, tm: Time)
    requires MIN_TS <= t < LIMIT_TS
    requires YearToUnixTime(y) <= t < YearToUnixTime(y + 1)
    requires tm.year == ToInt32(y - 1900)
    requires FieldsOfSecond(tm, y, ToInt32(t - YearToUnixTime(y)))
    requires tm.wday == (var w := CMod(4 + CDiv(t, SECONDS_IN_DAY), 7); if w < 0 then w + 7 else w)
    ensures tm == Civil(t)
  {
    YearRepresentable(t, y);
    FieldsOfSecondOffset(tm, y, t - YearToUnixTime(y));
    WeekdayRemainder(4 + CDiv(t, SECONDS_IN_DAY));
    assert ToUnixTime(tm) == t;
    assert tm.wday == WeekdayOf(t);
    assert IsNormalized(tm);
    NormalizedUnique(tm, Civil(t));
  }

  /** The fields computed for second `s` of year `y` form a record whose date is in range and which
      stands for that second. */
  lemma FieldsOfSecondOffset(tm: Time, y: int, s: int)
    requires 0 <= s < YearDays(y) * SECONDS_IN_DAY
    requires tm.year == y - 1900
    requires FieldsOfSecond(tm, y, s)
    ensures DateInRange(tm) && tm.isdst == 0
    ensures ToUnixTime(tm) == YearToUnixTime(y) + s
  {
    FieldsOfSecondIsRecord(tm, y, s);
    DaySplit(s);
    RecordInYearFields(y, s / SECONDS_IN_DAY, s % SECONDS_IN_DAY, tm.wday);
    ToUnixTimeInRangeMonth(tm);
  }


  /** The fields that `librtc_from_unix_time` computes from second `ts` of year `y` with C's `/` and `%`,
      and the month and day that `SetMonthAndDay` promises. */
  predicate FieldsOfSecond(tm: Time, y: int, ts: int) {
    var sod := CMod(ts, SECONDS_IN_DAY);
    && tm.yday == CDiv(ts, SECONDS_IN_DAY)
    && 0 <= tm.mon <= 11
    && MonthStart(y, tm.mon) + tm.mday - 1 == tm.yday
    && (tm.mon < 11 ==> tm.yday < MonthStart(y, tm.mon + 1))
    && (tm.yday >= 0 ==> tm.mday >= 1)
    && tm.hour == CDiv(sod, SECONDS_IN_HOUR)
    && tm.min == CDiv(CMod(sod, SECONDS_IN_HOUR), SECONDS_IN_MINUTE)
    && tm.sec == CMod(CMod(sod, SECONDS_IN_HOUR), SECONDS_IN_MINUTE)
    && tm.isdst == 0
  }

  /** For a second inside its year, those fields are the record of that second. */
  lemma FieldsOfSecondIsRecord(tm: Time, y: int, s: int)
    requires 0 <= s < YearDays(y) * SECONDS_IN_DAY
    requires tm.year == y - 1900
    requires FieldsOfSecond(tm, y, s)
    ensures tm == RecordInYear(y, s / SECONDS_IN_DAY, s % SECONDS_IN_DAY, tm.wday)
  {
    MonthOfUnique(y, tm.yday, tm.mon);
    SecondsOfMinute(s % SECONDS_IN_DAY);
  }

  /** A time from `MIN_TS` up to `LIMIT_TS` lies in a year whose `tm_year` and seconds fit in an `int`. */
  lemma YearRepresentable(t: int, y: int)
    requires MIN_TS <= t < LIMIT_TS
    requires YearToUnixTime(y) <= t < YearToUnixTime(y + 1)
    ensures INT32_MIN + 1900 <= y <= INT32_MAX
    ensures 0 <= t - YearToUnixTime(y) < YearDays(y) * SECONDS_IN_DAY
    ensures ToInt32(t - YearToUnixTime(y)) == t - YearToUnixTime(y)
    ensures ToInt32(y - 1900) == y - 1900
  {
    YearOffsetInRange(t, y);
    YearLimits();
    if y > INT32_MAX {
      if y > INT32_MAX + 1 { YearStartMonotone(INT32_MAX + 1, y); }
      assert false;
    }
    if y < INT32_MIN + 1900 {
      if y + 1 < INT32_MIN + 1900 { YearStartMonotone(y + 1, INT32_MIN + 1900); }
      assert false;
    }
  }

  /** The starts of the years -0x80000000 + 1900 and 0x80000000. */
  lemma YearLimits()
    ensures YearToUnixTime(INT32_MAX + 1) == LIMIT_TS
    ensures YearToUnixTime(INT32_MIN + 1900) == MIN_TS - 19052
  {
    assert LeapDaysBefore(INT32_MAX + 1) == 520764307;
    assert LeapDaysBefore(INT32_MIN + 1900) == -520764802;
  }

  lemma SecondsOfMinute(sod: int)
    requires 0 <= sod
    ensures (sod % 3600) % 60 == sod % 60
  {
    var h, r := sod / 3600, sod % 3600;
    assert sod == (60 * h) * 60 + r;
    assert r == r / 60 * 60 + r % 60;
    assert sod == (60 * h + r / 60) * 60 + r % 60;
  }

  /** The C remainder by 7, moved into [0,6] as `librtc_from_unix_time` does, is the Euclidean one. */
  lemma WeekdayRemainder(a: int)
    ensures (var w := CMod(a, 7); if w < 0 then w + 7 else w) == a % 7
  {
    var w := CMod(a, 7);
    assert a == 7 * CDiv(a, 7) + w;
    if w < 0 {
      assert a == 7 * (CDiv(a, 7) - 1) + (w + 7);
    }
  }

  // ---------------------------------------------------------------------------------------------
  // Fixed points of the conversion

  /** 1970-01-01 00:00:00 is Unix time 0, and Unix time 0 is that date, a Thursday, day 0 of the year. */
  lemma Epoch()
    ensures ToUnixTime(UNIX_EPOCH) == 0
    ensures Civil(0) == UNIX_EPOCH.(isdst := 0)
    ensures FromUnix(0) == (UNIX_EPOCH.(isdst := 0), true)
  {
    assert YearToUnixTime(1970) == 0;
    var e := UNIX_EPOCH.(isdst := 0);
    assert ToUnixTime(e) == 0;
    assert IsNormalized(e);
    NormalizedIsCivil(e);
  }

  /** `MAX_TIME` is the last second before `MAX_TS`, and the calendar record of that second. */
  lemma MaxTimeIsLastSecond()
    ensures ToUnixTime(MAX_TIME) == MAX_TS - 1
    ensures Civil(MAX_TS - 1) == MAX_TIME
    ensures YearToUnixTime(INT32_MAX + 1901) == MAX_TS
  {
    var y := INT32_MAX + 1900;
    MaxYear();
    ToUnixTimeInRangeMonth(MAX_TIME);
    assert ToUnixTime(MAX_TIME) == 67768036160140800 + 364 * SECONDS_IN_DAY + 86399;
    assert WeekdayOf(MAX_TS - 1) == 3;
    assert DateInRange(MAX_TIME);
    NormalizedIsCivil(MAX_TIME);
  }

  /** The last year that `MAX_TIME` can name: a common year under both rules, ending at `MAX_TS`. */
  lemma MaxYear()
    ensures YearToUnixTime(INT32_MAX + 1900) == 67768036160140800
    ensures YearToUnixTime(INT32_MAX + 1901) == MAX_TS
    ensures !IsLeapYear(INT32_MAX + 1900) && !GregorianLeap(INT32_MAX + 1900)
    ensures MonthStart(INT32_MAX + 1900, 11) == 334
  {
    assert LeapDaysBefore(INT32_MAX + 1900) == 520764767;
    assert LeapDaysBefore(INT32_MAX + 1901) == 520764767;
  }

  /** `MIN_TIME` is the start of the year -0x80000000 after 1900, which lies 19052 seconds BEFORE `MIN_TS`:
      the first seconds of the earliest year are clamped although they are representable. */
  lemma MinTimeBeforeMinTs()
    ensures ToUnixTime(MIN_TIME) == MIN_TS - 19052
    ensures Civil(ToUnixTime(MIN_TIME)) == MIN_TIME
  {
    YearLimits();
    assert MonthStart(INT32_MIN + 1900, 0) == 0;
    assert ToUnixTime(MIN_TIME) == YearToUnixTime(INT32_MIN + 1900);
    assert WeekdayOf(MIN_TS - 19052) == 4;
    assert IsNormalized(MIN_TIME);
    NormalizedIsCivil(MIN_TIME);
  }

  /** With the leap test as written, February 29 of 2024 normalizes to March 1. */
  lemma LeapDayOf2024BecomesMarch1()
    ensures Civil(ToUnixTime(Time(0, 0, 0, 29, 1, 124, 0, 0, 0))).mon == 2
    ensures Civil(ToUnixTime(Time(0, 0, 0, 29, 1, 124, 0, 0, 0))).mday == 1
  {
    var t := ToUnixTime(Time(0, 0, 0, 29, 1, 124, 0, 0, 0));
    assert !IsLeapYear(2024);
    assert t == YearToUnixTime(2024) + 59 * SECONDS_IN_DAY;
    var march1 := Time(0, 0, 0, 1, 2, 124, WeekdayOf(t), 59, 0);
    ToUnixTimeInRangeMonth(march1);
    assert IsNormalized(march1);
    NormalizedIsCivil(march1);
  }

  /** The last second of 2024 (a Gregorian leap year that `is_leap_year` rejects) is December 32. */
  lemma LastSecondOf2024IsDecember32()
    ensures Civil(YearToUnixTime(2025) - 1).mon == 11
    ensures Civil(YearToUnixTime(2025) - 1).mday == 32
  {
    var t := YearToUnixTime(2025) - 1;
    YearLength(2024);
    assert GregorianLeap(2024) && !IsLeapYear(2024);
    var dec32 := Time(59, 59, 23, 32, 11, 124, WeekdayOf(t), 365, 0);
    ToUnixTimeInRangeMonth(dec32);
    assert IsNormalized(dec32);
    NormalizedIsCivil(dec32);
  }
}
