# librtc and the symbol-table packer, modelled in Dafny

This project models two parts of HackerSM64.

**librtc**, a real-time-clock library for the Nintendo 64, in `lib/librtc/librtc.c` and `lib/librtc/librtc.h`:

- **Calendar arithmetic.** This converts between a broken-down `librtc_time` (`struct tm`) and seconds since the Unix epoch. It follows section 4.16 of POSIX.1-2017, XBD "Seconds Since the Epoch", extended proleptically. The pieces are `is_leap_year`, `year_to_unix_time`, `librtc_set_month_and_day`, `librtc_to_unix_time` and `librtc_from_unix_time`.
- **The header wrappers.** These are `librtc_add_time`, `librtc_time_diff` and `librtc_normalize`.
- **The RTC reply decoder.** It turns the eight BCD bytes of the RTC reply into a record.
- **Session state.** These are the initialization flags, the 20 ms wait window and the offset added to the RTC's time.
- **The formatter.** This is `librtc_strftime`, written in the manner of section 7.27.3.5 of ISO C11. Its `%G`, `%g` and `%V` directives use the week dates of section 4.1.4 of ISO 8601:2004.

**tools/mapPacker.py**, which turns `nm` output into `addr.bin`, `name.bin` and `debug_map.txt`. It does this in four steps:

1. It parses symbol lines.
2. It infers missing sizes from the next address.
3. It sorts the symbols stably by address.
4. It lays each record out in 16 big-endian bytes and writes each name NUL-padded to a multiple of four.

The model's form follows the code:

- **Pure expressions** become functions and lemmas.
- **Loops and out-parameters** become methods with loop invariants. Each is proved against a specification function: `SetMonthAndDay`, `GuessYear`, `FromUnixTime`, the `PushText` / `PushNumber` buffer writers, `FormatInternal`, `ParseSymbols`, `SortSymbols` and `WriteTables`.
- **The static state of librtc** becomes the class `Session.RtcSession`.
- **The formatter** writes into an `array<char>`. The packer's sort works in place on an `array<Symbol>`.

C's truncating `/` and `%` are `CInt.CDiv` and `CInt.CMod`. The `(int)` casts at `librtc.c:509-510` are `CInt.ToInt32`. Every proved property that needs the year to fit in an `int` states that requirement.

Modules, in dependency order:

| module | file | models |
|---|---|---|
| `CInt` | c_int.dfy | C integer widths, truncating division, the `int` cast |
| `Calendar` | calendar.dfy | `librtc_time`, leap years, year starts, months, `to_unix`, `from_unix` |
| `TimeOps` | time_ops.dfy | `librtc_time_diff`, `librtc_add_time`, `librtc_normalize` |
| `RawRecord` | raw_record.dfy | `decode_rtc_byte` and the decode in `librtc_get_time_raw` |
| `Session` | session.dfy | `s_rtc_state`, the wait window, the offsets, and the public calls that use them |
| `Digits` | digits.dfy | the decimal digits the formatter writes |
| `OutBuffer` | out_buffer.dfy | `strftime_push_text`, `strftime_push_number`, fixed-width fields |
| `Strftime` | strftime.dfy | `get_wby_*`, `librtc_strftime_internal`, `librtc_strftime` |
| `MapText` | map_text.dfy | `str.split()`, `int(t, 16)`, `%X` |
| `MapParse` | map_parse.dfy | `MapSymbol` and the parsing loop |
| `MapSort` | map_sort.dfy | `symNames.sort(key=lambda x: x.addr)` |
| `MapLayout` | map_layout.dfy | `struct.pack`, the write loop, the output sizes |

### Behaviour kept as written

The following quirks of the C code are modelled exactly and stated as lemmas. They are not fixed.

- **The leap-year test.** `is_leap_year` returns false on its last line, so only multiples of 400 are leap years (`Calendar.LeapTestAsWritten`). `year_to_unix_time` counts Gregorian leap years, so the two disagree. As a result, in 2024 February 29 normalizes to March 1 (`Calendar.LeapDayOf2024BecomesMarch1`). The last second of 2024 decodes as December 32 (`Calendar.LastSecondOf2024IsDecember32`).
- **A negative time of day.** For a negative sum, `librtc_get_time_of_day` returns `86400` minus the negative remainder. That lies above 86400, outside the range `[0, 86399]` its header comment promises (`Session.TimeOfDayLeavesRange`). For example, -1 gives 86401 (`Session.TimeOfDayMinusOne`).
- **Negative months.** Because the division truncates, `tm_mon = -1` is December of the same year (`Calendar.NegativeMonthStaysInYear`).
- **The year clamp.** The clamp caps the real year at `0x7FFFFFFF`, not `tm_year`. Between the start of year `0x80000000` (`LIMIT_TS`) and `MAX_TS` the seconds left over no longer fit in an `int`. For that window the model states only what still holds.
- **Repeated `librtc_init`.** A repeated call returns `s_rtc_state != LIBRTC_READY` and changes nothing (`Session.RtcSession.Init`).
- **The ISO week date.** `%V` of 2025-12-29 is week 53 of 2025, where ISO 8601 says week 1 of 2026 (`Strftime.WeekDateOf20251229`). The cause is the test `> 0` in `get_wby_years` and `get_wby_weeks`, where `>= 0` would be needed. Both helpers also take the year's length from `is_leap_year` (`Strftime.WbyYearLength`).
- **The day of the year.** `%j` writes the zero-based `tm_yday`, where ISO C writes 001 to 366. January 5 comes out as `004` (`Strftime.PieceDayOfYearZeroBased`).
- **The 20 ms wait.** `librtc_get_time_raw` tests `!(s_rtc_state & LIBRTC_READY)`, so it waits only when neither `INIT_CALLED` nor `NOT_WAITING` is set. A session whose `librtc_init` found an RTC less than 20 ms ago is read at once, although the header says the delay is enforced (`Session.RtcSession.ReadDuringWait`). The test that would keep the promise is `(s_rtc_state & LIBRTC_READY) != LIBRTC_READY`.
- **The weekday of negative times.** For a negative time that is not a whole day, the C quotient makes the weekday one day later than the Euclidean one (`Calendar.WeekdayAsWritten`). The model keeps that. It proves that the records `librtc_from_unix_time` returns are still the normalized ones for which `to_unix_time` gives the input back.

## Model

| member | source | states |
|---|---|---|
| CInt.CDiv | lib/librtc/librtc.c:511-518 | C's `/` on `long long` or `int` truncates toward zero: for a non-negative dividend the quotient is the floor, for a negative one it is rounded up |
| CInt.CMod | lib/librtc/librtc.c:512-517 | C's `%` satisfies `a == b * (a / b) + a % b` and takes the sign of the dividend, with magnitude below the divisor |
| CInt.ToInt32 | lib/librtc/librtc.c:509-510 | the `(int)` cast keeps the value modulo 2^32, lands in the `int` range, and leaves an `int` unchanged |
| Calendar.LeapTestAsWritten | lib/librtc/librtc.c:229-233 | `is_leap_year` holds exactly for multiples of 400; each such year is a Gregorian leap year, and years divisible by 4 but not by 100 are not leap years for it |
| Calendar.CRemainderZero | lib/librtc/librtc.c:230-231 | a C remainder by 4, 100 or 400 is zero exactly when the mathematical one is, so the tests of `is_leap_year` mean divisibility for negative years too |
| Calendar.LeapDaysBeforeAsWritten | lib/librtc/librtc.c:236-239 | the leap-day count is `-478 + ((year+3) >> 2)` minus and plus the two truncating divisions of the conditional dividends |
| Calendar.LeapDaysBeforeCeil | lib/librtc/librtc.c:236-239 | the leap-day count is `-478 + ceil(y/4) - ceil(y/100) + ceil(y/400)`: a count of the Gregorian leap years before `year` |
| Calendar.YearLength | lib/librtc/librtc.c:235-245 | for every year, `year_to_unix_time(y+1) - year_to_unix_time(y)` is 365 days, plus one day exactly when `y` is a Gregorian leap year |
| Calendar.YearStartNearMean | lib/librtc/librtc.c:235-245 | a year starts within two days of `(year - 1970)` mean Gregorian years after the epoch |
| Calendar.YearStartMonotone | lib/librtc/librtc.c:235-245 | later years start strictly later |
| Calendar.YearContaining | lib/librtc/librtc.c:235-245 | every Unix time lies in some year `[start(y), start(y+1))` |
| Calendar.YearUnique | lib/librtc/librtc.c:235-245 | and in only one |
| Calendar.YearOffsetInRange | lib/librtc/librtc.c:509 | the seconds since the start of the year containing `t` are less than that year's length |
| Calendar.MonthStartMonotone | lib/librtc/librtc.c:70-72 | the table of month starts, with the leap day after February, rises by at least 28 days per month |
| Calendar.LastMonthStartingBy | lib/librtc/librtc.c:276-283 | the search over `s_yday_table` finds the last month starting on or before `yday`, never past December |
| Calendar.MonthOfUnique | lib/librtc/librtc.c:254-285 | a month starting on or before `yday`, and followed by a month starting after it, is the month of `yday` |
| Calendar.SetMonthAndDay | lib/librtc/librtc.c:254-285 | `librtc_set_month_and_day` yields a month in 0..11 and a day with `s_yday_table[mon] + mday - 1 (+1 after February in a leap year) == yday`; `yday` is before the next month's start, and `mday >= 1` for a non-negative `yday` |
| Calendar.ToUnixTimeInRangeMonth | lib/librtc/librtc.c:450-463 | for months 0..11, `to_unix_time` is the year start plus days, hours, minutes and seconds, with the leap day counted after February |
| Calendar.ToUnixTimeIgnoresDerivedFields | lib/librtc/librtc.c:450-463 | `to_unix_time` reads only year, month, day, hour, minute and second |
| Calendar.NegativeMonthStaysInYear | lib/librtc/librtc.c:451-457 | month -1 gives the same time as month 11 of the same `tm_year` |
| Calendar.ToUnixTimeFitsInt64 | lib/librtc/librtc.c:450-463 | for a record of `int` fields the sum fits in a `long long` |
| Calendar.YearStartBound | lib/librtc/librtc.c:235-245 | year starts of years within about 2^31 of 1970 fit in 2^56 seconds |
| Calendar.WeekdayOf | lib/librtc/librtc.c:518-519 | the weekday expression yields a value in 0..6 |
| Calendar.WeekdayAsWritten | lib/librtc/librtc.c:518-519 | the weekday is `(4 + t / 86400) mod 7` for non-negative times and whole days, and one more for the other negative times |
| Calendar.DaySplit | lib/librtc/librtc.c:511-512 | a count of seconds is whole days plus a second of the day in 0..86399 |
| Calendar.DaySplitUnique | lib/librtc/librtc.c:511-512 | and that split is unique |
| Calendar.TimeOfDaySplit | lib/librtc/librtc.c:514-517 | a second of the day splits into an hour in 0..23 and a minute and second in 0..59 |
| Calendar.TimeOfDayUnique | lib/librtc/librtc.c:514-517 | the split gives back the hour, minute and second it was built from |
| Calendar.RecordInYearFields | lib/librtc/librtc.c:509-519 | the fields computed from a day of the year and a second of the day are in range, with `tm_isdst` 0 |
| Calendar.RecordInYearOfFields | lib/librtc/librtc.c:509-519 | a record in range is the one computed from its own day of the year and second of the day |
| Calendar.RecordExists | lib/librtc/librtc.c:492-519 | every Unix time has a normalized record |
| Calendar.Civil | lib/librtc/librtc.h:108-113 | the normalized record of `t`: fields in range, weekday of `t`, `tm_isdst` 0, and `to_unix_time` of it is `t` |
| Calendar.NormalizedOffset | lib/librtc/librtc.c:450-463 | for a record in range, `to_unix_time` lies in the year of the record |
| Calendar.DayOfYearInRange | lib/librtc/librtc.c:450-463 | a record in range has a day of the year less than its year's length |
| Calendar.NormalizedUnique | lib/librtc/librtc.h:108-113 | two normalized records with the same Unix time are equal |
| Calendar.NormalizedIsCivil | lib/librtc/librtc.h:108-113 | a normalized record is the record of its own Unix time |
| Calendar.GuessNotBelowFloor | lib/librtc/librtc.c:492-497 | a year starting after `t` is not below the first guess `1970 + t / 31556952` |
| Calendar.GuessYear | lib/librtc/librtc.c:492-507 | the guess and its correction loop end on a year starting at or before `t`; below `LIMIT_TS` the next year starts after `t` |
| Calendar.FromUnixTime | lib/librtc/librtc.c:465-522 | `librtc_from_unix_time` writes `MAX_TIME` and returns false from `67768036191676800` on, and `MIN_TIME` with false below `-67768040609721748`; otherwise it returns true and, for real years up to `0x7FFFFFFF`, writes the normalized record of `t`, with `tm_isdst` 0, month in 0..11, weekday in 0..6 and an `int` year |
| Calendar.FromUnixTimeIsCivil | lib/librtc/librtc.c:509-519 | the fields the C code computes from `ts`, the `(int)` casts and the weekday expression are the normalized record of `t` |
| Calendar.FieldsOfSecondOffset | lib/librtc/librtc.c:509-517 | those fields are in range and `to_unix_time` gives back the year start plus `ts` |
| Calendar.FieldsOfSecondIsRecord | lib/librtc/librtc.c:509-517 | those fields are the record of the day of the year and second of the day of `ts` |
| Calendar.YearRepresentable | lib/librtc/librtc.c:509-510 | for `MIN_TS <= t < LIMIT_TS` the year and the seconds left over fit in an `int`, so the casts change nothing |
| Calendar.YearLimits | lib/librtc/librtc.c:468-490 | year `0x80000000` starts at `LIMIT_TS`; `MIN_TIME` is 19052 seconds below the lower clamp |
| Calendar.SecondsOfMinute | lib/librtc/librtc.c:515-517 | the seconds left after the hour and the minute are the seconds of the minute |
| Calendar.WeekdayRemainder | lib/librtc/librtc.c:518-519 | adding 7 to a negative C remainder by 7 gives the mathematical remainder |
| Calendar.Epoch | lib/librtc/librtc.c:41-43 | `to_unix_time(LIBRTC_UNIX_EPOCH)` is 0, and `from_unix_time(0)` returns true with 1970-01-01 00:00:00, a Thursday, day 0 |
| Calendar.MaxTimeIsLastSecond | lib/librtc/librtc.c:468-478 | the maximum record is the last second before the upper clamp, and it is its own normalization |
| Calendar.MaxYear | lib/librtc/librtc.c:468-478 | the start of real year `0x7FFFFFFF + 1900` and of the next year, and that the year is not a leap year |
| Calendar.MinTimeBeforeMinTs | lib/librtc/librtc.c:479-489 | the minimum record is the normalized record of a time below the lower clamp |
| Calendar.LeapDayOf2024BecomesMarch1 | lib/librtc/librtc.c:229-233 | 2024-02-29 normalizes to 2024-03-01 |
| Calendar.LastSecondOf2024IsDecember32 | lib/librtc/librtc.c:229-233 | the last second of 2024 decodes as December 32 |
| TimeOps.TimeDiff | lib/librtc/librtc.h:135-141 | `librtc_time_diff` of records with `int` fields fits in a `long long` |
| TimeOps.TimeDiffFitsInt64 | lib/librtc/librtc.h:135-141 | the difference of the two Unix times fits in a `long long` |
| TimeOps.TimeDiffAntisymmetric | lib/librtc/librtc.h:135-141 | `time_diff(a, b) == -time_diff(b, a)` and `time_diff(a, a) == 0` |
| TimeOps.TimeDiffChain | lib/librtc/librtc.h:135-141 | differences add up: `diff(a, b) + diff(b, c) == diff(a, c)` |
| TimeOps.AddTime | lib/librtc/librtc.h:125-133 | `librtc_add_time` replaces the record with `from_unix_time(to_unix_time(tm) + s)`: clamped at the bounds, and the normalized record of the sum inside them |
| TimeOps.TimeDiffOfAdd | lib/librtc/librtc.h:125-141 | without clamping, `time_diff(tm, add_time(tm, s)) == s` |
| TimeOps.AddTimeTwice | lib/librtc/librtc.h:125-133 | without clamping, adding `a` and then `b` gives the same record as adding `a + b` once |
| TimeOps.Normalize | lib/librtc/librtc.h:143-153 | `librtc_normalize` returns false exactly outside the clamp bounds and leaves the extremal record there; otherwise, for real years up to `0x7FFFFFFF`, it leaves the normalized record with the same Unix time |
| TimeOps.NormalizeIgnoresDerivedFields | lib/librtc/librtc.h:143-148 | normalization depends only on year, month, day, hour, minute and second; `tm_wday`, `tm_yday` and `tm_isdst` are only overwritten |
| TimeOps.NormalizeFixesNormalized | lib/librtc/librtc.h:143-153 | a normalized record is left as it is, and the call returns true |
| TimeOps.NormalizeIdempotent | lib/librtc/librtc.h:143-153 | normalizing twice gives what normalizing once gives |
| RawRecord.DecodeRtcByte | lib/librtc/librtc.c:225-227 | `decode_rtc_byte` of any byte is at most 165 |
| RawRecord.EncodeBcd | lib/librtc/librtc.c:225-227 | the BCD byte of a number in 0..99 `((n/10) << 4) \| (n%10)` has two decimal digits |
| RawRecord.DecodeEncodeBcd | lib/librtc/librtc.c:225-227 | for every `n` in 0..99, `decode_rtc_byte(((n/10) << 4) \| (n%10)) == n` |
| RawRecord.EncodeDecodeBcd | lib/librtc/librtc.c:225-227 | a byte of two decimal digits decodes to at most 99 and encodes back to itself |
| RawRecord.DecodeRawRecord | lib/librtc/librtc.c:403-416 | the fields decoded from the reply are at most 165 (year at most 16665), `tm_isdst` is -1, and `tm_yday` is the month start plus day minus one, with the leap day, for months below 12; for others it is the caller's `tm_yday`, plus one in a leap year |
| RawRecord.EncodeRawRecord | lib/librtc/librtc.c:403-410 | a record of BCD-representable fields gives an eight-byte reply |
| RawRecord.HourFlagRoundTrip | lib/librtc/librtc.c:406 | subtracting `0x80` from the hour byte, truncated to a byte, undoes adding it |
| RawRecord.HourByteDecodes | lib/librtc/librtc.c:406 | an hour byte with the `0x80` flag decodes to the hour |
| RawRecord.DecodeEncodeRawRecord | lib/librtc/librtc.c:403-416 | decoding the reply for a record gives back its fields; `tm_yday` is computed from month and day |
| RawRecord.EncodedBytes | lib/librtc/librtc.c:403-410 | each byte of that reply decodes to the field it carries, the year as `100 * century + year of century` |
| RawRecord.YearBytesDecode | lib/librtc/librtc.c:410 | a year in 0..9999 survives its split into two BCD bytes |
| RawRecord.DecodeOfDigits | lib/librtc/librtc.c:403-416 | a reply whose bytes decode to a record's fields decodes to that record, with `tm_yday` computed and `tm_isdst` -1 |
| Session.TimeOfDayAsWritten | lib/librtc/librtc.c:535-540 | the time of day is the remainder for a non-negative sum, 0 for a negative whole day, and `2 * 86400 - (sum mod 86400)` for other negative sums |
| Session.CModNegative | lib/librtc/librtc.c:535 | C's remainder by 86400 of a negative sum is the mathematical one minus 86400, unless it is zero |
| Session.TimeOfDayLeavesRange | lib/librtc/librtc.h:115-123 | for every negative sum that is not a whole day the result lies strictly between 86400 and 172800, outside the promised `[0, 86399]` |
| Session.TimeOfDayMinusOne | lib/librtc/librtc.c:535-540 | the sum -1 gives 86401 |
| Session.RtcSession.constructor | lib/librtc/librtc.c:86-91 | the state starts with no flags set and zero offsets |
| Session.RtcSession.Init | lib/librtc/librtc.c:287-353 | a repeated `librtc_init` returns `s_rtc_state != LIBRTC_READY` and changes nothing; a failed probe sets only `INIT_CALLED` and returns false; a probe that finds the RTC (`status >> 8 == 0x001000`) also sets `GOOD` and opens a 20 ms wait window from the current cycle count, unless on an emulator; the offsets are never touched |
| Session.RtcSession.Ready | lib/librtc/librtc.c:355-377 | `librtc_ready` is false without `INIT_CALLED`, true once `NOT_WAITING` is set, and while waiting true exactly when `now < start \|\| now >= end`, or `end <= now < start` when the window wrapped; it sets `NOT_WAITING` exactly when it returns true |
| Session.RtcSession.WaitUntilReady | lib/librtc/librtc.c:380-383 | the busy-wait ends with `NOT_WAITING` set and nothing else changed |
| Session.RtcSession.ReadyStaysReady | lib/librtc/librtc.c:355-377 | once `librtc_ready` returns true it returns true again |
| Session.RtcSession.GetTimeRaw | lib/librtc/librtc.c:379-421 | `librtc_get_time_raw` initializes only when neither `INIT_CALLED` nor `NOT_WAITING` is set; without an RTC it writes `LIBRTC_UNIX_EPOCH` and returns false, otherwise it returns the decoded reply; the offsets are unchanged; the wait window is reset to `[initClock, initClock + 20 ms)` exactly when it initializes and the probe finds an RTC |
| Session.RtcSession.ReadDuringWait | lib/librtc/librtc.c:379-383 | inside the 20 ms window of an initialization that found an RTC, `librtc_ready` returns false and `librtc_get_time_raw` still returns the decoded reply at once, leaving `NOT_WAITING` clear: the delay that lib/librtc/librtc.h:60-63 and 70-72 promise is not enforced once `librtc_init` was called |
| Session.RtcSession.SetOffset | lib/librtc/librtc.c:423-426 | `librtc_set_offset(o)` stores `o` and `o % 86400`, a time-of-day offset with magnitude below 86400 and the sign of `o` |
| Session.RtcSession.SetTime | lib/librtc/librtc.c:428-436 | after a successful read `R` the offset is `to_unix_time(now) - to_unix_time(R)`; after a failed one it is unchanged; the result is the offset; the wait window is reset by the implicit initialization exactly as in `get_time_raw`, and unchanged otherwise |
| Session.RtcSession.GetTime | lib/librtc/librtc.c:438-448 | `librtc_get_time` writes the epoch and returns false without an RTC; otherwise it returns the raw record as it is for a zero offset, and `add_time(raw, offset)` for any other; the wait window is reset by the implicit initialization exactly as in `get_time_raw`, and unchanged otherwise; the offsets are unchanged |
| Session.RtcSession.SetTimeThenGetTime | lib/librtc/librtc.h:92-102 | after `set_time(now)`, `get_time` on the same reading gives a record with the Unix time of `now` |
| Session.RtcSession.GetTimeOfDay | lib/librtc/librtc.c:524-541 | `librtc_get_time_of_day` returns -1 without an RTC, otherwise the raw time of day plus the time-of-day offset reduced as above; the wait window is reset by the implicit initialization exactly as in `get_time_raw`, and unchanged otherwise; the offsets are unchanged |
| Session.ApplyOffset | lib/librtc/librtc.c:443-445 | a zero offset leaves the raw reading as it is; another one goes through `librtc_add_time` |
| Session.OffsetRestoresTime | lib/librtc/librtc.h:92-102 | adding `time_diff(raw, now)` to `raw` gives the Unix time of `now`, and a normalized record when the offset is not zero |
| Session.RawRecordFieldsAreInt | lib/librtc/librtc.c:403-416 | a decoded reply has `int` fields |
| Digits.DigitChar | lib/librtc/librtc.c:560 | `'0' + v` is the digit of `v` for `v` in 0..9 |
| Digits.TwoDigits | lib/librtc/librtc.c:629-634 | a two-character field, all digits for values in 0..99 |
| Digits.DecimalDigits | lib/librtc/librtc.c:557-562 | the digits the do-while loop collects: at least one, all decimal |
| Digits.DecimalDigitsLength | lib/librtc/librtc.c:557-562 | a number below `10^k` has at most `k` digits |
| Digits.YearOfCentury | lib/librtc/librtc.c:628-634 | `%y` writes a value in 0..99 congruent to the year modulo 100 |
| Digits.DigitsFitBuffer | lib/librtc/librtc.c:557 | the digits of every number the formatter writes fit in `char buff[17]` |
| Digits.ShiftOuter | lib/librtc/librtc.c:559-562 | dividing by 10 repeatedly, as the loop does |
| Digits.DigitsOfShift | lib/librtc/librtc.c:559-562 | the `k`-th digit the loop collects is `(n / 10^k) % 10`, and the loop runs while that quotient is non-zero |
| Digits.Year2023Text | lib/librtc/librtc.c:625-627 | the year 2023 is written as `"2023"` |
| OutBuffer.UnsignedGuard | lib/librtc/librtc.c:705 | the guard `i >= count - k` evaluated in `unsigned int` agrees with the mathematical one when `k <= count` and never fails when `count < k` |
| OutBuffer.ShortBufferGuardPasses | lib/librtc/librtc.c:704-709 | with `count` 2 the unsigned guard of `%a` passes at index 0, where the field and its NUL do not fit |
| OutBuffer.PushText | lib/librtc/librtc.c:543-549 | `strftime_push_text` succeeds exactly when the text and a NUL fit, writes the text at the index, and writes nothing outside the buffer |
| OutBuffer.CollectDigits | lib/librtc/librtc.c:557-562 | the do-while loop leaves the digits of `n` in `buff`, least significant first |
| OutBuffer.CopyReversed | lib/librtc/librtc.c:565-567 | the copy loop writes those digits most significant first |
| OutBuffer.PushSign | lib/librtc/librtc.c:552-555 | a negative number first writes `'-'` and goes on with its magnitude |
| OutBuffer.PushNumber | lib/librtc/librtc.c:551-570 | `strftime_push_number` succeeds exactly when the sign, the digits and a NUL fit, and then writes them at the index; nothing outside the buffer changes |
| OutBuffer.PutFixed | lib/librtc/librtc.c:704-709 | a fixed-width field fails when it and a NUL do not fit, and otherwise is written at the index |
| OutBuffer.PutChar | lib/librtc/librtc.c:616-624 | the one-character directives write their character without a guard |
| Strftime.WbyYearLength | lib/librtc/librtc.c:579-591 | the helpers take a year as 365 or 366 days from `is_leap_year`, so a Gregorian leap year that is not a multiple of 400 counts as 365 |
| Strftime.WbyYears | lib/librtc/librtc.c:576-584 | the week-based year is the calendar year or one of its neighbours |
| Strftime.WbyDaysShape | lib/librtc/librtc.c:572-574 | `get_wby_days` is `day + 3 - (day - wday + 382) mod 7` over the days it is called with |
| Strftime.WbyWeeksRange | lib/librtc/librtc.c:586-596 | the week number is in 1..53 |
| Strftime.January4InWeek1 | lib/librtc/librtc.c:576-596 | January 4 is in week 1 of its own year, as in section 4.1.4 of ISO 8601:2004 |
| Strftime.December28InOwnYear | lib/librtc/librtc.c:576-596 | December 28 is in week 52 or 53 of its own year |
| Strftime.WeekDateOf20251229 | lib/librtc/librtc.c:576-596 | 2025-12-29 is given week 53 of 2025 |
| Strftime.CompositeAt | lib/librtc/librtc.c:744-775 | a format holding a composite directive counts at least one |
| Strftime.InnerFormatSimple | lib/librtc/librtc.c:744-775 | the fixed formats of the composite directives hold no composite directive, so the recursion is one level deep |
| Strftime.NoComposites | lib/librtc/librtc.c:744-775 | a format without composite directives counts none |
| Strftime.DirectiveAt | lib/librtc/librtc.c:605-614 | the conversion character follows the `%` directly or after one `E` or `0` modifier |
| Strftime.NumberOf | lib/librtc/librtc.c:625-641 | the numbers `%Y`, `%C` and `%G` write are small enough for the digit buffer |
| Strftime.FixedText | lib/librtc/librtc.c:628-742 | each fixed-width field has exactly the width its guard reserves |
| Strftime.Simple | lib/librtc/librtc.c:616-742 | a simple directive appends one character, or text that leaves room for a NUL |
| Strftime.Piece | lib/librtc/librtc.c:616-779 | what a directive appends stays inside the buffer |
| Strftime.Run | lib/librtc/librtc.c:598-782 | what the formatter produces is at least what was written so far and shorter than `count` |
| Strftime.DirectiveFailures | lib/librtc/librtc.c:776-779 | an unknown directive, a `%` at the end, or a fixed-width field that does not fit makes the formatter return 0 |
| Strftime.LiteralsCopied | lib/librtc/librtc.c:601-604 | a format without directives that fits with its NUL is copied as it is |
| Strftime.RunDirective | lib/librtc/librtc.c:605-779 | a directive that succeeds appends its piece and formatting continues after it |
| Strftime.RunDirectiveFails | lib/librtc/librtc.c:605-779 | a directive that fails makes the whole result 0 |
| Strftime.StepLiteral | lib/librtc/librtc.c:601-604 | an ordinary character is appended |
| Strftime.StepDirective | lib/librtc/librtc.c:605-779 | a directive without modifier that succeeds appends its piece |
| Strftime.StepEnd | lib/librtc/librtc.c:780-781 | the end of the format terminates the result |
| Strftime.PieceYear | lib/librtc/librtc.c:625-627 | `%Y` of 2023-01-05 is `"2023"` |
| Strftime.PieceMonth | lib/librtc/librtc.c:661-665 | `%m` of 2023-01-05 is `"01"` |
| Strftime.PieceDay11 | lib/librtc/librtc.c:689-693 | `%d` of 2023-01-05 at index 8 of an 11-character buffer is `"05"` |
| Strftime.PieceDay10 | lib/librtc/librtc.c:689-693 | and fails in a 10-character buffer |
| Strftime.PieceDayOfYearZeroBased | lib/librtc/librtc.c:683-688 | `%j` of 2023-01-05 is `"004"`: the zero-based day of the year |
| Strftime.ShortDateFails | lib/librtc/librtc.c:753-756 | the inner format `"%m/%d/%y"` of `%x` fails in a 7-character buffer, at `%y` |
| Strftime.ShortCompositeFails | lib/librtc/librtc.c:753-756 | for `"%xA"` in a 7-character buffer, the C code's unsigned guard of `%x` passes, the failed inner call adds nothing, and the rest of the format gives `"A"`, so the C returns 1; with the intended guard `%x` fails, and so does the whole format |
| Strftime.IsoDateYear | lib/librtc/librtc.c:598-782 | formatting `"%Y-%m-%d"` writes `"2023-"` first |
| Strftime.IsoDateMonth | lib/librtc/librtc.c:598-782 | then `"01-"` |
| Strftime.IsoDateExample | lib/librtc/librtc.h:155-160 | `"%Y-%m-%d"` on 2023-01-05 with `count` 11 gives `"2023-01-05"` and length 10 |
| Strftime.IsoDateNoRoomForNul | lib/librtc/librtc.h:155-160 | with `count` 10 it gives 0 |
| Strftime.SimpleDirective | lib/librtc/librtc.c:616-742 | writing a simple directive does what `Simple` says, inside the buffer |
| Strftime.Directive | lib/librtc/librtc.c:616-779 | writing any directive does what `Piece` says, inside the buffer |
| Strftime.CompositeDirective | lib/librtc/librtc.c:744-775 | a composite directive formats its own format into the rest of the buffer: `%c` and `%F` fail when that returns 0, the others append what it returned |
| Strftime.FormatStep | lib/librtc/librtc.c:600-779 | one turn of the main loop writes the next literal or directive, or reports the failure of the whole format |
| Strftime.DirectiveStep | lib/librtc/librtc.c:605-779 | one directive is written, or the whole format fails |
| Strftime.FormatInternal | lib/librtc/librtc.c:598-782 | `librtc_strftime_internal` returns 0 when the format fails, and otherwise the length `r < count` of the text it wrote, followed by `str[r] == '\0'`; it never writes outside the `count` characters. This is the formatter with the intended signed guards, which equals the C code for `count >= 21` (`OutBuffer.UnsignedGuard`); below that see "## Left out" |
| Strftime.Strftime | lib/librtc/librtc.c:784-791 | `librtc_strftime` formats a normalized copy of the record, clamped as `librtc_normalize` clamps, and writes nothing outside the buffer; as for `FormatInternal`, with the intended guards, which the C code matches for `count >= 21` |
| MapText.WordLength | tools/mapPacker.py:48 | the first token of a line runs to the next whitespace |
| MapText.Split | tools/mapPacker.py:48 | `line.split()` yields non-empty tokens free of whitespace |
| MapText.SplitJoin | tools/mapPacker.py:48 | splitting tokens joined by spaces gives them back |
| MapText.SplitSkipsSpace | tools/mapPacker.py:48 | extra whitespace does not change the tokens |
| MapText.SplitWord | tools/mapPacker.py:48 | a token followed by whitespace is split off first |
| MapText.SplitAscii | tools/mapPacker.py:39-48 | the tokens of ASCII text are ASCII |
| MapText.ParseHex | tools/mapPacker.py:50 | the model's `int(t, 16)`, restricted to bare digits as "## Left out" says, succeeds exactly on a non-empty string of hexadecimal digits |
| MapText.HexText | tools/mapPacker.py:103 | `%X` and `%x` write hexadecimal digits with no leading zero |
| MapText.ParseHexText | tools/mapPacker.py:103 | reading back what `%X` or `%x` wrote gives the number |
| MapText.LeadingZeros | tools/mapPacker.py:50 | the leading zeros `nm` prints do not change the value |
| MapText.ParseHexExample | tools/mapPacker.py:44 | the address `000000f8` is 248 and the empty string raises, as in Python; `0x80` is rejected by the model's bare-digit restriction (Python would give 128), which `nm` output never needs |
| MapParse.Symbol.StrLen | tools/mapPacker.py:23 | `strlen = (len(name) + 4) & ~3` is a multiple of 4, strictly greater than `len(name)`, and at most `len(name) + 4` |
| MapParse.PaddedLength | tools/mapPacker.py:23 | the same for any length; a length that is a multiple of 4 gets four NULs |
| MapParse.PaddedLengthLeast | tools/mapPacker.py:23 | it is the least multiple of 4 with room for a NUL |
| MapParse.Infer | tools/mapPacker.py:56-68 | size inference changes at most the previous record |
| MapParse.AcceptedLine | tools/mapPacker.py:48-81 | an accepted line appends one record: the address is `int(tokens[0], 16)`, the name the last token, the type the one-character token before it, and the size `int(tokens[-3], 16)` with four or more tokens, else 0 |
| MapParse.AcceptFails | tools/mapPacker.py:48-81 | a line with fewer than three tokens or a longer type token is skipped; one whose address or size is not hexadecimal stops the script |
| MapParse.SizeInference | tools/mapPacker.py:56-68 | when the previous record has size 0 and the new address is greater, a gap below `0xFFFFF` becomes its size, and otherwise the new record gets error character `'S'`; no other record changes |
| MapParse.AcceptKeepsWellFormed | tools/mapPacker.py:52-81 | every accepted line keeps each error character NUL or `'S'`, and `'S'` only where the gap was too large |
| MapParse.ParseAllWellFormed | tools/mapPacker.py:41-81 | and so does the whole loop |
| MapParse.ParseAllAscii | tools/mapPacker.py:39-81 | the records parsed from ASCII text have ASCII names |
| MapParse.SplitExample | tools/mapPacker.py:46-47 | the line `addr T name` splits into three tokens |
| MapParse.AcceptShortLine | tools/mapPacker.py:74-76 | a three-token line gets size 0 |
| MapParse.FirstLineExample | tools/mapPacker.py:48-81 | the first line `8 T a` becomes one record |
| MapParse.InferExample | tools/mapPacker.py:56-65 | a next address 12 gives that record size 4 |
| MapParse.SecondLineExample | tools/mapPacker.py:56-81 | the line `c T b` does that and appends its own record |
| MapParse.ParseExample | tools/mapPacker.py:41-81 | the two lines give both records |
| MapParse.ParseAllStops | tools/mapPacker.py:50 | once a line raises, the whole parse fails |
| MapParse.ParseSymbols | tools/mapPacker.py:41-81 | the parsing loop builds `symNames` as `ParseAll` says, and its records are well formed |
| MapSort.Insert | tools/mapPacker.py:87 | inserting one record lengthens the list by one |
| MapSort.SortByAddr | tools/mapPacker.py:87 | the sort keeps the length |
| MapSort.AtAddrAppend | tools/mapPacker.py:87 | the records at one address of two lists joined are those of each, in order |
| MapSort.InsertSorted | tools/mapPacker.py:87 | insertion keeps a list sorted and adds only the new record |
| MapSort.InsertPermutes | tools/mapPacker.py:87 | insertion adds exactly the new record |
| MapSort.InsertStable | tools/mapPacker.py:87 | insertion puts the record after every record at its address |
| MapSort.SortByAddrSorted | tools/mapPacker.py:87 | after the sort the addresses are non-decreasing |
| MapSort.SortByAddrPermutes | tools/mapPacker.py:87 | the sort keeps every record as often as it occurs |
| MapSort.SortByAddrStable | tools/mapPacker.py:87 | records with equal addresses keep their order |
| MapSort.SortByAddrOfSorted | tools/mapPacker.py:87 | a sorted list is left as it is |
| MapSort.InsertStep | tools/mapPacker.py:87 | insertion passes over one larger address |
| MapSort.InsertStop | tools/mapPacker.py:87 | insertion stops after a record that is not larger |
| MapSort.InsertPastLarger | tools/mapPacker.py:87 | insertion passes over a run of larger addresses |
| MapSort.ShiftLarger | tools/mapPacker.py:87 | the inner loop moves the larger records up by one |
| MapSort.InsertLast | tools/mapPacker.py:87 | one step of the sort inserts the next record into the sorted prefix |
| MapSort.SortSymbols | tools/mapPacker.py:87 | sorting `symNames` in place leaves `SortByAddr` of its contents |
| MapLayout.BigEndianRoundTrip | tools/mapPacker.py:33 | a number that fits in `k` bytes is read back from its big-endian bytes |
| MapLayout.Pow256Widths | tools/mapPacker.py:33 | `L`, `H` and `B` are 4, 2 and 1 bytes |
| MapLayout.PackRecord | tools/mapPacker.py:91 | `struct.pack(">LLLHBB", ...)` succeeds exactly when each field fits its width, and then gives 16 bytes |
| MapLayout.RecordRoundTrip | tools/mapPacker.py:33-91 | the record read back holds address, size, name offset, `len(name)` (not the padded length), type and error character |
| MapLayout.AsciiBytes | tools/mapPacker.py:92 | `bytes(name, "ascii")` has one byte per character, its code |
| MapLayout.Zeros | tools/mapPacker.py:92 | the padding is zero bytes |
| MapLayout.PaddedName | tools/mapPacker.py:92 | `struct.pack(">%ds" % strlen, ...)` is the name's bytes padded with NULs to `strlen` |
| MapLayout.NameTable | tools/mapPacker.py:92 | the name table is as long as the sum of the padded lengths |
| MapLayout.AddrTable | tools/mapPacker.py:91 | the address table is 16 bytes per record |
| MapLayout.NameTableLast | tools/mapPacker.py:90-93 | the name table ends with the last padded name |
| MapLayout.NameTableAppend | tools/mapPacker.py:90-93 | the name table of two lists joined is the two tables joined |
| MapLayout.NameTableAround | tools/mapPacker.py:90-93 | the name table splits around any record |
| MapLayout.NameAtOffset | tools/mapPacker.py:89-93 | at the sum of the padded lengths before a record its name's bytes stand, followed by a NUL |
| MapLayout.AllFitLast | tools/mapPacker.py:89-93 | every record fits exactly when the earlier ones fit and the last fits at its offset |
| MapLayout.AddrTableFits | tools/mapPacker.py:89-93 | the write loop succeeds exactly when every record fits its fields |
| MapLayout.RecordAt | tools/mapPacker.py:89-93 | record `k` of the table is record `k` packed with the name offset of the padded lengths before it |
| MapLayout.LookUp | tools/mapPacker.py:89-93 | the name offset and length read from record `k` pick out its name in the name table, followed by a NUL |
| MapLayout.WriteTables | tools/mapPacker.py:89-93 | the write loop produces both tables as `AddrTable` and `NameTable` say, or fails where `struct.pack` raises |
| MapLayout.AddrTableStops | tools/mapPacker.py:91 | once a record does not fit, the whole write fails |
| MapLayout.DebugMapText | tools/mapPacker.py:103 | the text for the linker script is not empty |
| MapLayout.PackMap | tools/mapPacker.py:41-103 | the script parses, sorts and writes: the tables are those of the sorted records, the address table is 16 bytes per symbol, the name table their padded lengths, and the total size is written as their sum |
| MapLayout.SortedNamesAscii | tools/mapPacker.py:87-92 | sorting keeps the names ASCII, so encoding them cannot fail |

## Left out

- **The hardware transport.** This is `librtc_clock`, the interrupt enable and disable code, `si_await_op`, `si_wait_safe`, `librtc_pif_save`/`restore`, `librtc_dma_write`/`read`, `librtc_exec` and `librtc_is_emulator` (lib/librtc/librtc.c:113-223, 248-251). Their results are inputs of the model, as a `Session.Hardware` value.
- **The command buffers.** The joybus command words and buffer setup are left out, because only the device reads them. Only the probe test `status >> 8 == 0x001000` is kept.
- **Concurrency.** The critical sections and the second check of `LIBRTC_INIT_CALLED` in `librtc_init` are left out, because the model is sequential.
- **The month byte.** A reply whose month byte decodes to 0 makes `tm_mon` -1, and the C code then reads `s_yday_table[-1]`. `RawRecord.DecodeRawRecord` excludes that case by its precondition.
- **`Session.RtcSession.GetTime`, `Session.RtcSession.SetTimeThenGetTime`:** these require that the sum of the offset and the raw time fits in a `long long`. The C code would overflow otherwise.
- **`Calendar.FromUnixTime`, `TimeOps.Normalize`, `TimeOps.AddTime`:** between `LIMIT_TS` and `MAX_TS` these state only that the result is true, `tm_isdst` is 0 and the year is an `int`. The C code's `(int)` casts wrap there.
- **`Strftime.WbyWeeksRange`:** this is stated for days of the year 0..365. The `int` overflow of `get_wby_days` for huge `tm_yday` values is not modelled.
- **`OutBuffer.PushNumber`:** this does not model the `*i + j < *i` wrap test at lib/librtc/librtc.c:564. That test can only fire when `*i` is near `UINT_MAX`, and `*i < count` rules that out.
- **`Strftime.FormatInternal`, `Strftime.Strftime`:** on failure these state only that the result is 0 and that nothing outside the buffer changed. They do not say which partial text is left in the buffer.
- **`Strftime.Strftime`:** this requires `count >= 1`, because the C code writes `str[count - 1]` before anything else.
- **The formatter's `switch`.** It is regrouped by kind of directive (one character, number, name, fixed width, composite). The branches of each kind are the ones in the C code.
- **The formatter's guards.** They use the intended signed comparison; see "Findings".
- **`Strftime.FormatInternal`, `Strftime.Strftime`, `Strftime.Piece`, `Strftime.Run`:** for `count < 21` these state the formatter with the corrected guards, not the C code. The results then differ even where the C writes nothing out of bounds. For example, `librtc_strftime_internal(str, 7, "%xA", tp)` in the C passes the wrapped guard of `%x`, its inner call fails at `%y` and adds 0, and then `A` and the NUL are written: it returns 1. The model returns 0 (`Strftime.ShortCompositeFails`). For `count >= 21` every guard agrees (`OutBuffer.UnsignedGuard`).
- **The mapPacker I/O.** The `nm` subprocess, the file handles, the `decode('ascii')` and the split into lines at tools/mapPacker.py:37-39, and `os.path.getsize` are left out. The model takes the lines as input, and the sizes are the lengths of the tables. Partial files left behind when `struct.pack` raises are not modelled.
- **`MapLayout.PackMap`:** this requires ASCII lines, which is what `decode('ascii')` guarantees.
- **`includeSegmented`.** It is always `True`, so the filter at tools/mapPacker.py:54 is left out.
- **`MapText.ParseHex`:** this accepts only hexadecimal digits. Python's `int(t, 16)` also accepts a sign, a `0x` prefix, underscores and surrounding whitespace. The tokens of a split line hold no whitespace, and `nm` prints none of the other forms.
- **`MapLayout.AsciiBytes`:** this keeps the low byte of a non-ASCII character, where Python raises. Such a character cannot reach it, because the lines have been decoded as ASCII.
- **`MapSymbol` object identity.** The in-place update `prevEntry.size = ...` is modelled as a value update of the last element of the list. No other reference to that object exists.
- **`__str__` and `__repr__` of `MapSymbol`** are left out, because the script never uses them.

## Findings

| source | as written | input that shows it | evidently intended | confidence | as-written member | corrected member |
|---|---|---|---|---|---|---|
| lib/librtc/librtc.c:705 (and the other `count - k` guards of `librtc_strftime_internal`) | the guard `i >= count - k` is computed in `unsigned int`, so for `count < k` it wraps to a huge value and the guard passes | `librtc_strftime(buf, 2, "%a", tp)`: at index 0 the guard passes and three letters are written into a 2-character buffer. On other short buffers only the result changes: `librtc_strftime_internal(str, 7, "%xA", tp)` returns 1 with `"A"`, where the corrected formatter returns 0 | fail when the field and its NUL do not fit | not executed | OutBuffer.UnsignedGuard, OutBuffer.ShortBufferGuardPasses, Strftime.ShortCompositeFails | OutBuffer.PutFixed, Strftime.Piece |
