/** The formatter of lib/librtc/librtc.c: `librtc_strftime` and its helpers, a `strftime` in the manner of
    section 7.27.3.5 of ISO C11 whose `%G`, `%g` and `%V` directives number weeks as the week dates of
    section 4.1.4 of ISO 8601:2004 do. The output goes into a caller's `char` buffer at a running index;
    the composite directives (`%c`, `%x`, `%D`, `%X`, `%T`, `%F`, `%r`, `%R`) call the formatter again on
    a fixed format, writing at the current index.

    `Run` says what the formatter produces for a format; `FormatInternal` is proved to write exactly
    that. */
module Strftime {
  import opened CInt
  import opened Calendar
  import opened TimeOps
  import opened Digits
  import opened OutBuffer

  /** `s_weekdayNames`. */
  const WEEKDAY_NAMES: seq<string> :=
    ["Sunday", "Monday", "Tuesday", "Wednesday", "Thursday", "Friday", "Saturday"]

  /** `s_monthNames`. */
  const MONTH_NAMES: seq<string> :=
    ["January", "February", "March", "April", "May", "June", "July", "August", "September", "October",
     "November", "December"]

  /** The formats that the composite directives format again. */
  const C_FORMAT: string := "%a %b %e %H:%M:%S %Y"
  const D_FORMAT: string := "%m/%d/%y"
  const T_FORMAT: string := "%H:%M:%S"
  const F_FORMAT: string := "%Y-%m-%d"
  const R12_FORMAT: string := "%I:%M:%S %p"
  const R_FORMAT: string := "%H:%M"

  // ---------------------------------------------------------------------------------------------------
  // Week-based years (the `get_wby_*` helpers)

  /** `get_wby_days`: the day of the year `day`, counted from the Monday that starts week 1 of the
      week-based year, for a day whose weekday is `wday`. */
  function WbyDays(day: int, wday: int): int {
    day - CMod(day - wday + 382, 7) + 3
  }

  /** The length of `year` as `get_wby_years` and `get_wby_weeks` take it: from `is_leap_year`, so only
      multiples of 400 count as 366 days. */
  function WbyYearLength(year: int): (n: int)
    ensures n == 365 || n == 366
    ensures n == YearDays(year) || (n == 365 && YearDays(year) == 366)
  {
    LeapTestAsWritten(year);
    if IsLeapYear(year) then 366 else 365
  }

  /** `get_wby_years`: the week-based year of day `day` of `year`. */
  function WbyYears(year: int, day: int, wday: int): (y: int)
    ensures year - 1 <= y <= year + 1
  {
    if WbyDays(day, wday) < 0 then year - 1
    else if WbyDays(day - WbyYearLength(year), wday) > 0 then year + 1
    else year
  }

  /** `get_wby_weeks`: the week number within the week-based year. */
  function WbyWeeks(year: int, day: int, wday: int): int {
    var days := WbyDays(day, wday);
    var days2 := WbyDays(day - WbyYearLength(year), wday);
    var d := if days < 0 then WbyDays(day + WbyYearLength(year), wday) else if days2 > 0 then days2 else days;
    1 + CDiv(d, 7)
  }

  /** For a day of the year and a weekday in range, `WbyDays` is that day plus 3 less its distance from
      the Monday before (Euclidean, as the dividend is then positive). */
  lemma WbyDaysShape(day: int, wday: int)
    requires -366 <= day <= 731 && 0 <= wday <= 6
    ensures WbyDays(day, wday) == day + 3 - (day - wday + 382) % 7
  {
  }

  /** Every week number is between 1 and 53. */
  lemma WbyWeeksRange(year: int, day: int, wday: int)
    requires 0 <= day <= 365 && 0 <= wday <= 6
    ensures 1 <= WbyWeeks(year, day, wday) <= 53
  {
    var n := WbyYearLength(year);
    WbyDaysShape(day, wday);
    WbyDaysShape(day - n, wday);
    WbyDaysShape(day + n, wday);
    var m := (day - wday + 382) % 7;
    var k := (day - wday + 382) / 7;
    assert day - wday + 382 == 7 * k + m;
    if n == 365 {
      assert day - n - wday + 382 == 7 * (k - 53) + m + 6;
      assert day + n - wday + 382 == 7 * (k + 52) + m + 1;
    } else {
      assert day - n - wday + 382 == 7 * (k - 53) + m + 5;
      assert day + n - wday + 382 == 7 * (k + 52) + m + 2;
    }
  }

  /** 4 January always lies in week 1 of its own year, as ISO 8601 requires. */
  lemma January4InWeek1(year: int, wday: int)
    requires 0 <= wday <= 6
    ensures WbyWeeks(year, 3, wday) == 1 && WbyYears(year, 3, wday) == year
  {
    WbyDaysShape(3, wday);
    WbyDaysShape(3 - WbyYearLength(year), wday);
  }

  /** 28 December always lies in the last week of its own year, as ISO 8601 requires, even in the leap
      years that `get_wby_years` takes to have 365 days. */
  lemma December28InOwnYear(year: int, wday: int)
    requires 0 <= wday <= 6
    ensures WbyYears(year, YearDays(year) - 4, wday) == year
    ensures WbyWeeks(year, YearDays(year) - 4, wday) >= 52
  {
    var n := YearDays(year);
    WbyDaysShape(n - 4, wday);
    WbyDaysShape(n - 4 - WbyYearLength(year), wday);
  }

  /** Monday 29 December 2025 (day 362, weekday 1) starts week 1 of 2026 under ISO 8601, but the test
      `> 0` in `get_wby_years` and `get_wby_weeks` puts it in week 53 of 2025. */
  lemma WeekDateOf20251229()
    ensures WbyWeeks(2025, 362, 1) == 53 && WbyYears(2025, 362, 1) == 2025
  {
    assert WbyDays(362, 1) == 364;
    assert WbyDays(362 - 365, 1) == 0;
  }

  // ---------------------------------------------------------------------------------------------------
  // What the formatter produces

  /** The character at `p`, or the terminating NUL beyond the end. */
  function At(format: seq<char>, p: int): char {
    if 0 <= p < |format| then format[p] else '\0'
  }

  /** The directives that format a fixed format again. */
  predicate IsComposite(d: char) {
    || d == 'c' || d == 'x' || d == 'D' || d == 'X' || d == 'T' || d == 'F' || d == 'r' || d == 'R'
  }

  /** How many composite directive letters `s` holds: the inner formats hold none. */
  function Composites(s: seq<char>): nat {
    if |s| == 0 then 0 else (if IsComposite(s[0]) then 1 else 0) + Composites(s[1..])
  }

  lemma {:induction false} CompositeAt(s: seq<char>, k: nat)
    requires k < |s|
    ensures IsComposite(s[k]) ==> Composites(s) >= 1
  {
    if k > 0 {
      CompositeAt(s[1..], k - 1);
    }
  }

  /** The fixed format of a composite directive. */
  function InnerFormat(d: char): (f: string)
    requires IsComposite(d)
  {
    match d
    case 'c' => C_FORMAT
    case 'x' => D_FORMAT
    case 'D' => D_FORMAT
    case 'X' => T_FORMAT
    case 'T' => T_FORMAT
    case 'F' => F_FORMAT
    case 'r' => R12_FORMAT
    case 'R' => R_FORMAT
  }

  /** The inner formats hold no composite directive letter, so the formatter recurses only once. */
  lemma InnerFormatSimple(d: char)
    requires IsComposite(d)
    ensures Composites(InnerFormat(d)) == 0
  {
    NoComposites(InnerFormat(d));
  }

  lemma {:induction false} NoComposites(s: seq<char>)
    requires forall k :: 0 <= k < |s| ==> !IsComposite(s[k])
    ensures Composites(s) == 0
  {
    if |s| > 0 {
      NoComposites(s[1..]);
    }
  }

  /** The `k` of the unsigned guard `count - k` that a directive evaluates (0 for none). */
  function GuardOf(d: char): nat {
    if d == 'c' then 21
    else if d == 'r' then 11
    else if d == 'x' || d == 'D' || d == 'X' || d == 'T' then 8
    else if d == 'F' then 7
    else if d == 'R' then 5
    else if d == 'a' || d == 'b' || d == 'h' || d == 'j' then 3
    else if d == 'y' || d == 'g' || d == 'V' || d == 'm' || d == 'U' || d == 'W' || d == 'd' || d == 'e'
            || d == 'H' || d == 'I' || d == 'M' || d == 'S' || d == 'p' then 2
    else if d == 'A' || d == 'B' then 1
    else 0
  }

  /** Where the directive that starts with the `%` at `p` names its conversion: after an `E` or `0`
      modifier, if there is one. */
  function DirectiveAt(format: seq<char>, p: nat): (q: nat)
    ensures p + 1 <= q <= p + 2
  {
    if At(format, p + 1) == 'E' || At(format, p + 1) == '0' then p + 2 else p + 1
  }

  /** The record indexes the name tables, and its year plus 1900 is a `long long`. */
  predicate Formattable(tp: Time) {
    0 <= tp.mon <= 11 && 0 <= tp.wday <= 6 && IsInt32(tp.year)
  }

  /** The directives the C code writes as one character without a guard. */
  predicate IsOneChar(d: char) {
    d == '%' || d == 'n' || d == 't' || d == 'w' || d == 'u'
  }

  /** The directives written with `strftime_push_number`. */
  predicate IsNumeric(d: char) {
    d == 'Y' || d == 'C' || d == 'G'
  }

  /** The directives written with `strftime_push_text`. */
  predicate IsName(d: char) {
    GuardOf(d) == 1
  }

  /** The fixed-width fields: guarded by `i >= count - k` and then written character by character. */
  predicate IsFixed(d: char) {
    GuardOf(d) == 2 || GuardOf(d) == 3
  }

  function OneChar(d: char, tp: Time): char
    requires IsOneChar(d) && Formattable(tp)
  {
    match d
    case '%' => '%'
    case 'n' => '\n'
    case 't' => '\t'
    case 'w' => DigitChar(tp.wday)
    case 'u' => if tp.wday != 0 then DigitChar(tp.wday) else '7'
  }

  /** The number a numeric directive writes: the year, its century, or its week-based year. */
  function NumberOf(d: char, tp: Time): (n: int)
    requires IsNumeric(d) && Formattable(tp)
    ensures (if n < 0 then -n else n) < NUMBER_LIMIT
  {
    var year := tp.year + 1900;
    match d
    case 'Y' => year
    case 'C' => CDiv(year, 100)
    case 'G' => WbyYears(year, tp.yday, tp.wday)
  }

  /** The full weekday (`%A`) or month (`%B`) name. */
  function NameOf(d: char, tp: Time): string
    requires IsName(d) && Formattable(tp)
  {
    if d == 'A' then WEEKDAY_NAMES[tp.wday] else MONTH_NAMES[tp.mon]
  }

  /** The characters of a fixed-width field, as many as its guard reserves. `alt` says the `0` modifier
      was given. */
  function FixedText(d: char, alt: bool, tp: Time): (t: seq<char>)
    requires IsFixed(d) && Formattable(tp)
    ensures |t| == GuardOf(d)
  {
    var year := tp.year + 1900;
    match d
    case 'y' => TwoDigits(YearOfCentury(year))
    case 'g' => TwoDigits(YearOfCentury(WbyYears(year, tp.yday, tp.wday)))
    case 'b' => MONTH_NAMES[tp.mon][..3]
    case 'h' => MONTH_NAMES[tp.mon][..3]
    case 'm' => TwoDigits(tp.mon + 1)
    case 'U' => WeekDigits(tp.yday - tp.wday + 7)
    case 'W' => WeekDigits(tp.yday - CMod(tp.wday + 6, 7) + 7)
    case 'V' => TwoDigits(WbyWeeks(year, tp.yday, tp.wday))
    case 'j' => ThreeDigits(tp.yday)
    case 'd' => TwoDigits(tp.mday)
    case 'e' => if alt || tp.mday > 9 then TwoDigits(tp.mday) else [' ', DigitChar(tp.mday)]
    case 'a' => WEEKDAY_NAMES[tp.wday][..3]
    case 'H' => TwoDigits(tp.hour)
    case 'I' => TwoDigits(1 + CMod(tp.hour + 11, 12))
    case 'M' => TwoDigits(tp.min)
    case 'S' => TwoDigits(tp.sec)
    case 'p' => [if tp.hour < 12 then 'A' else 'P', 'M']
  }

  /** What a directive other than a composite one appends at output index `i`, or failure: one character
      unguarded, a number or a name when it fits with a NUL, a fixed-width field when its guard passes;
      any other letter fails. */
  function Simple(d: char, alt: bool, tp: Time, i: int, count: int): (r: Outcome)
    requires Formattable(tp)
    ensures r.Written? ==> |r.text| == 1 || i + |r.text| < count
  {
    if IsOneChar(d) then Written([OneChar(d, tp)])
    else if IsNumeric(d) then Number(NumberOf(d, tp), i, count)
    else if IsName(d) then Text(NameOf(d, tp), i, count)
    else if IsFixed(d) then Fixed(GuardOf(d), FixedText(d, alt, tp), i, count)
    else Failed
  }

  /** What a composite directive appends, given what formatting its own format produced: `%c` and `%F`
      fail when that returned 0, the others append what was written (nothing, when it returned 0). */
  function Composed(d: char, inner: Outcome): Outcome {
    match inner
    case Written(t) => if (d == 'c' || d == 'F') && |t| == 0 then Failed else Written(t)
    case Failed => if d == 'c' || d == 'F' then Failed else Written([])
  }

  /** What the directive `d` appends at output index `i`, or failure. A composite directive runs the
      formatter on its own format in the rest of the buffer. */
  function Piece(d: char, alt: bool, tp: Time, i: int, count: int): (r: Outcome)
    requires Formattable(tp)
    ensures r.Written? && 0 <= i < count ==> i + |r.text| <= count
    decreases if IsComposite(d) then 1 else 0, 0
  {
    if !IsComposite(d) then Simple(d, alt, tp, i, count)
    else if i >= count - GuardOf(d) then Failed
    else
      InnerFormatSimple(d);
      Composed(d, Run(InnerFormat(d), 0, [], tp, count - i))
  }

  /** What `librtc_strftime_internal` produces for `format` from position `p` on, when `out` has been
      written so far into a buffer of `count` characters: the text before the NUL it ends with, or failure
      (the C function then returns 0). */
  function Run(format: seq<char>, p: nat, out: seq<char>, tp: Time, count: int): (r: Outcome)
    requires p <= |format| && Formattable(tp)
    ensures r.Written? ==> |out| <= |r.text| < count
    decreases Composites(format), |format| - p + 1
  {
    if |out| >= count then Failed
    else if At(format, p) == '\0' then Written(out)
    else if format[p] != '%' then Run(format, p + 1, out + [format[p]], tp, count)
    else
      var q := DirectiveAt(format, p);
      var d := At(format, q);
      if d == '\0' then Failed
      else
        CompositeAt(format, q);
        match Piece(d, At(format, p + 1) == '0', tp, |out|, count)
        case Written(t) => Run(format, q + 1, out + t, tp, count)
        case Failed => Failed
  }

  /** The directives the formatter knows. */
  predicate IsDirective(d: char) {
    IsComposite(d) || IsOneChar(d) || IsNumeric(d) || IsName(d) || IsFixed(d)
  }

  /** A `%` at the end of the format (after an optional modifier), an unknown directive, and a
      fixed-width field whose guard fails each make the formatter return 0. */
  lemma DirectiveFailures(format: seq<char>, p: nat, out: seq<char>, tp: Time, count: int)
    requires p < |format| && format[p] == '%' && |out| < count && Formattable(tp)
    ensures var d := At(format, DirectiveAt(format, p));
            (d == '\0' || !IsDirective(d) || (GuardOf(d) > 1 && |out| >= count - GuardOf(d)))
            ==> Run(format, p, out, tp, count) == Failed
  {
    var q := DirectiveAt(format, p);
    if q < |format| {
      CompositeAt(format, q);
    }
  }

  /** Text without `%` and NUL is copied as it is, when it fits with its NUL. */
  lemma {:induction false} LiteralsCopied(format: seq<char>, p: nat, out: seq<char>, tp: Time, count: int)
    requires p <= |format| && Formattable(tp)
    requires forall k :: p <= k < |format| ==> format[k] != '%' && format[k] != '\0'
    requires |out| + |format| - p < count
    ensures Run(format, p, out, tp, count) == Written(out + format[p..])
    decreases |format| - p
  {
    if p < |format| {
      LiteralsCopied(format, p + 1, out + [format[p]], tp, count);
      assert out + [format[p]] + format[p + 1..] == out + format[p..];
    }
  }

  /** A directive that appends `t` moves the formatter past it with `t` appended. */
  lemma RunDirective(format: seq<char>, p: nat, out: seq<char>, tp: Time, count: int, t: seq<char>)
    requires p < |format| && format[p] == '%' && |out| < count && Formattable(tp)
    requires Piece(At(format, DirectiveAt(format, p)), At(format, p + 1) == '0', tp, |out|, count) == Written(t)
    ensures DirectiveAt(format, p) < |format|
    ensures Run(format, p, out, tp, count) == Run(format, DirectiveAt(format, p) + 1, out + t, tp, count)
  {
    var q := DirectiveAt(format, p);
    if q < |format| {
      CompositeAt(format, q);
    }
  }

  /** A directive that fails makes the formatter fail. */
  lemma RunDirectiveFails(format: seq<char>, p: nat, out: seq<char>, tp: Time, count: int)
    requires p < |format| && format[p] == '%' && |out| < count && Formattable(tp)
    requires Piece(At(format, DirectiveAt(format, p)), At(format, p + 1) == '0', tp, |out|, count) == Failed
    ensures Run(format, p, out, tp, count) == Failed
  {
    var q := DirectiveAt(format, p);
    if q < |format| {
      CompositeAt(format, q);
    }
  }

  /** Thursday 5 January 2023, midnight: day 4 of the year. */
  const JANUARY_5_2023: Time := Time(0, 0, 0, 5, 0, 123, 4, 4, 0)

  lemma StepLiteral(format: seq<char>, p: nat, out: seq<char>, tp: Time, count: int, next: seq<char>)
    requires p < |format| && Formattable(tp) && |out| < count
    requires format[p] != '%' && format[p] != '\0' && next == out + [format[p]]
    ensures Run(format, p, out, tp, count) == Run(format, p + 1, next, tp, count)
  {
  }

  lemma StepDirective(format: seq<char>, p: nat, out: seq<char>, tp: Time, count: int, t: seq<char>, next: seq<char>)
    requires p + 1 < |format| && Formattable(tp) && |out| < count
    requires format[p] == '%' && format[p + 1] != '\0' && format[p + 1] != 'E' && format[p + 1] != '0'
    requires Piece(format[p + 1], false, tp, |out|, count) == Written(t) && next == out + t
    ensures Run(format, p, out, tp, count) == Run(format, p + 2, next, tp, count)
  {
    CompositeAt(format, p + 1);
  }

  lemma PieceYear(count: int)
    requires 4 < count
    ensures Piece('Y', false, JANUARY_5_2023, 0, count) == Written("2023")
  {
    Year2023Text();
  }

  lemma PieceMonth(count: int)
    requires 8 <= count
    ensures Piece('m', false, JANUARY_5_2023, 5, count) == Written("01")
  {
  }

  lemma PieceDay11()
    ensures Piece('d', false, JANUARY_5_2023, 8, 11) == Written("05")
  {
  }

  lemma PieceDay10()
    ensures Piece('d', false, JANUARY_5_2023, 8, 10) == Failed
  {
  }

  /** `%j` writes the zero-based `tm_yday`: January 5 is `"004"`, where ISO C writes `"005"`. */
  lemma PieceDayOfYearZeroBased()
    ensures Piece('j', false, JANUARY_5_2023, 0, 4) == Written("004")
  {
  }

  /** `"%m/%d/%y"` on 5 January 2023 in a buffer of 7 characters writes `"01/05/"` and then fails at `%y`,
      which needs 2 more characters and its NUL. */
  lemma ShortDateFails()
    ensures Run(D_FORMAT, 0, [], JANUARY_5_2023, 7) == Failed
  {
    var tp := JANUARY_5_2023;
    assert Piece('m', false, tp, 0, 7) == Written("01");
    StepDirective(D_FORMAT, 0, [], tp, 7, "01", "01");
    StepLiteral(D_FORMAT, 2, "01", tp, 7, "01/");
    assert Piece('d', false, tp, 3, 7) == Written("05");
    StepDirective(D_FORMAT, 3, "01/", tp, 7, "05", "01/05");
    StepLiteral(D_FORMAT, 5, "01/05", tp, 7, "01/05/");
    assert Piece('y', false, tp, 6, 7) == Failed;
    RunDirectiveFails(D_FORMAT, 6, "01/05/", tp, 7);
  }

  /** `"%xA"` in a buffer of 7 characters. In the C code the unsigned guard of `%x`, which needs 8, wraps and
      passes; the inner `"%m/%d/%y"` then fails at `%y` (`ShortDateFails`), adds nothing, and formatting goes
      on with `A`, returning 1. With the intended signed guard the whole format fails instead. */
  lemma ShortCompositeFails()
    ensures !UnsignedGuard(0, 7, GuardOf('x'))
    ensures Composed('x', Failed) == Written([]) && Run("%xA", 2, [], JANUARY_5_2023, 7) == Written("A")
    ensures Piece('x', false, JANUARY_5_2023, 0, 7) == Failed
    ensures Run("%xA", 0, [], JANUARY_5_2023, 7) == Failed
  {
    assert Piece('x', false, JANUARY_5_2023, 0, 7) == Failed;
    RunDirectiveFails("%xA", 0, [], JANUARY_5_2023, 7);
    StepLiteral("%xA", 2, [], JANUARY_5_2023, 7, "A");
    StepEnd("%xA", "A", JANUARY_5_2023, 7);
  }

  lemma StepEnd(format: seq<char>, out: seq<char>, tp: Time, count: int)
    requires Formattable(tp) && |out| < count
    ensures Run(format, |format|, out, tp, count) == Written(out)
  {
  }

  lemma IsoDateYear(tp: Time, count: int)
    requires tp == JANUARY_5_2023 && 10 <= count <= 11
    ensures Run(F_FORMAT, 0, [], tp, count) == Run(F_FORMAT, 3, "2023-", tp, count)
  {
    PieceYear(count);
    StepDirective(F_FORMAT, 0, [], tp, count, "2023", "2023");
    StepLiteral(F_FORMAT, 2, "2023", tp, count, "2023-");
  }

  lemma IsoDateMonth(tp: Time, count: int)
    requires tp == JANUARY_5_2023 && 10 <= count <= 11
    ensures Run(F_FORMAT, 3, "2023-", tp, count) == Run(F_FORMAT, 6, "2023-01-", tp, count)
  {
    PieceMonth(count);
    StepDirective(F_FORMAT, 3, "2023-", tp, count, "01", "2023-01");
    StepLiteral(F_FORMAT, 5, "2023-01", tp, count, "2023-01-");
  }

  /** `%F` on 5 January 2023 in a buffer of 11 characters gives the ten characters of the date. */
  lemma IsoDateExample(tp: Time)
    requires tp == JANUARY_5_2023
    ensures Run(F_FORMAT, 0, [], tp, 11) == Written("2023-01-05")
  {
    IsoDateYear(tp, 11);
    IsoDateMonth(tp, 11);
    PieceDay11();
    StepDirective(F_FORMAT, 6, "2023-01-", tp, 11, "05", "2023-01-05");
    StepEnd(F_FORMAT, "2023-01-05", tp, 11);
  }

  /** With one character fewer there is no room for the terminating NUL, and the whole format fails. */
  lemma IsoDateNoRoomForNul(tp: Time)
    requires tp == JANUARY_5_2023
    ensures Run(F_FORMAT, 0, [], tp, 10) == Failed
  {
    IsoDateYear(tp, 10);
    IsoDateMonth(tp, 10);
    PieceDay10();
    CompositeAt(F_FORMAT, 7);
  }

  /** The `switch` of `librtc_strftime_internal` for a directive other than a composite one. */
  method SimpleDirective(str: array<char>, base: nat, count: int, i: int, d: char, alt: bool, tp: Time)
    returns (j: int, ok: bool)
    requires Formattable(tp) && 0 <= i < count && base + count <= str.Length
    modifies str
    ensures ok ==> i < j <= count
    ensures Simple(d, alt, tp, i, count) == if ok then Written(str[base + i..base + j]) else Failed
    ensures UnchangedOutside(str, base + i, base + count)
  {
    if IsOneChar(d) {
      j, ok := PutChar(str, base, count, i, OneChar(d, tp));
    } else if IsNumeric(d) {
      j, ok := PushNumber(str, base, count, i, NumberOf(d, tp));
    } else if IsName(d) {
      j, ok := PushText(str, base, count, i, NameOf(d, tp));
    } else if IsFixed(d) {
      j, ok := PutFixed(str, base, count, i, FixedText(d, alt, tp));
    } else {
      j, ok := i, false;
    }
  }

  /** One directive of `librtc_strftime_internal`. */
  method Directive(str: array<char>, base: nat, count: int, i: int, d: char, alt: bool, tp: Time)
    returns (j: int, ok: bool)
    requires Formattable(tp) && 0 <= i < count && base + count <= str.Length
    modifies str
    ensures ok ==> i <= j <= count
    ensures Piece(d, alt, tp, i, count) == if ok then Written(str[base + i..base + j]) else Failed
    ensures UnchangedOutside(str, base + i, base + count)
    decreases if IsComposite(d) then 1 else 0, 1
  {
    if !IsComposite(d) {
      j, ok := SimpleDirective(str, base, count, i, d, alt, tp);
    } else if i >= count - GuardOf(d) {
      j, ok := i, false;
    } else {
      InnerFormatSimple(d);
      j, ok := CompositeDirective(str, base, count, i, d, InnerFormat(d), tp);
    }
  }

  /** A composite directive: formats `f`, its own format, at `&str[i]` in the remaining `count - i`
      characters; `%c` and `%F` fail when that returns 0. */
  method CompositeDirective(str: array<char>, base: nat, count: int, i: int, d: char, f: string, tp: Time)
    returns (j: int, ok: bool)
    requires Formattable(tp) && 0 <= i < count && base + count <= str.Length && Composites(f) == 0
    modifies str
    ensures ok ==> i <= j <= count
    ensures Composed(d, Run(f, 0, [], tp, count - i)) == if ok then Written(str[base + i..base + j]) else Failed
    ensures UnchangedOutside(str, base + i, base + count)
    decreases 1, 0
  {
    var r := FormatInternal(str, base + i, count - i, f, tp);
    if (d == 'c' || d == 'F') && r == 0 {
      return i, false;
    }
    j, ok := i + r, true;
  }

  /** One turn of the formatting loop at `format[p]`, which is not the end of the format: a literal
      character is copied, a directive is expanded. `t` is what this appends to the `i` characters
      already written, or the step fails. */
  method FormatStep(str: array<char>, base: nat, count: int, format: seq<char>, p: nat, i: int, tp: Time,
                    ghost out: seq<char>)
    returns (j: int, next: nat, ok: bool, ghost t: seq<char>)
    requires Formattable(tp) && 0 <= i == |out| < count && base + count <= str.Length
    requires p < |format| && format[p] != '\0'
    modifies str
    ensures ok ==> i <= j <= count && next <= |format| && str[base + i..base + j] == t
    ensures ok ==> Run(format, p, out, tp, count) == Run(format, next, out + t, tp, count) && p < next
    ensures !ok ==> Run(format, p, out, tp, count) == Failed
    ensures UnchangedOutside(str, base + i, base + count)
    decreases Composites(format), 3
  {
    if format[p] != '%' {
      j, ok := PutChar(str, base, count, i, format[p]);
      t := [format[p]];
      StepLiteral(format, p, out, tp, count, out + t);
      next := p + 1;
    } else {
      j, next, ok, t := DirectiveStep(str, base, count, format, p, i, tp, out);
    }
  }

  /** The turn of the formatting loop at a `%`. */
  method DirectiveStep(str: array<char>, base: nat, count: int, format: seq<char>, p: nat, i: int, tp: Time,
                       ghost out: seq<char>)
    returns (j: int, next: nat, ok: bool, ghost t: seq<char>)
    requires Formattable(tp) && 0 <= i == |out| < count && base + count <= str.Length
    requires p < |format| && format[p] == '%'
    modifies str
    ensures ok ==> i <= j <= count && next <= |format| && str[base + i..base + j] == t
    ensures ok ==> Run(format, p, out, tp, count) == Run(format, next, out + t, tp, count) && p < next
    ensures !ok ==> Run(format, p, out, tp, count) == Failed
    ensures UnchangedOutside(str, base + i, base + count)
    decreases Composites(format), 2
  {
    var alt := At(format, p + 1) == '0';
    var q := DirectiveAt(format, p);
    var d := At(format, q);
    if q < |format| {
      CompositeAt(format, q);
    }
    j, ok := Directive(str, base, count, i, d, alt, tp);
    if !ok {
      RunDirectiveFails(format, p, out, tp, count);
      next, t := p, [];
      return;
    }
    t := str[base + i..base + j];
    RunDirective(format, p, out, tp, count, t);
    next := q + 1;
  }

  /** `librtc_strftime_internal`: formats `format` into the `count` characters of `str` from `base` on.
      It returns the length of the text, which is followed by a NUL, or 0 when something does not fit
      or the format is malformed. */
  method FormatInternal(str: array<char>, base: nat, count: int, format: seq<char>, tp: Time) returns (r: int)
    requires Formattable(tp) && 0 <= count && base + count <= str.Length
    modifies str
    ensures Run(format, 0, [], tp, count).Failed? ==> r == 0
    ensures Run(format, 0, [], tp, count).Written? ==>
              r == |Run(format, 0, [], tp, count).text| && str[base..base + r] == Run(format, 0, [], tp, count).text
              && str[base + r] == '\0'
    ensures UnchangedOutside(str, base, base + count)
    decreases Composites(format), 4
  {
    var i := 0;
    var p := 0;
    ghost var out: seq<char> := [];
    while i < count
      invariant 0 <= i == |out| <= count && p <= |format|
      invariant str[base..base + i] == out
      invariant Run(format, p, out, tp, count) == Run(format, 0, [], tp, count)
      invariant UnchangedOutside(str, base, base + count)
      decreases |format| - p
    {
      if At(format, p) == '\0' {
        str[base + i] := '\0';
        return i;
      }
      var j, next, ok, t := FormatStep(str, base, count, format, p, i, tp, out);
      if !ok {
        return 0;
      }
      assert str[base..base + j] == str[base..base + i] + t;
      out := out + t;
      i := j;
      p := next;
    }
    return 0;
  }

  /** `librtc_strftime`: formats a normalized copy `tm` of `tp` into the `count` characters of `str`;
      `tp` itself is left alone. The result is the length of the text, or 0 when it does not fit. */
  method Strftime(str: array<char>, count: int, format: seq<char>, tp: Time) returns (r: int, ghost tm: Time)
    requires 1 <= count <= str.Length
    modifies str
    ensures Formattable(tm)
    ensures MIN_TS <= ToUnixTime(tp) < LIMIT_TS ==> tm == Civil(ToUnixTime(tp))
    ensures ToUnixTime(tp) >= MAX_TS ==> tm == MAX_TIME
    ensures ToUnixTime(tp) < MIN_TS ==> tm == MIN_TIME
    ensures Run(format, 0, [], tm, count).Failed? ==> r == 0
    ensures Run(format, 0, [], tm, count).Written? ==>
              r == |Run(format, 0, [], tm, count).text| < count && str[..r] == Run(format, 0, [], tm, count).text
              && str[r] == '\0'
    ensures UnchangedOutside(str, 0, count)
  {
    var copy, ok := Normalize(tp);
    tm := copy;
    str[count - 1] := '\0';
    r := FormatInternal(str, 0, count, format, copy);
  }
}
