/** The decimal text the formatter of lib/librtc/librtc.c writes: single digits as `'0' + (char)v`, the
    fixed two- and three-digit fields, and the digits of a `long long` that `strftime_push_number`
    collects in its buffer of 17. */
module Digits {
  import opened CInt

  /** `'0' + (char)v` stored in a `char`: the low eight bits of 48 + v. */
  function DigitChar(v: int): (c: char)
    ensures c as int < 0x100
    ensures 0 <= v <= 9 ==> '0' <= c <= '9' && c as int - '0' as int == v
  {
    ((48 + v) % 0x100) as char
  }

  /** Two decimal digits of `v`, as the C code writes them: `v / 10` and `v % 10`. */
  function TwoDigits(v: int): (s: seq<char>)
    ensures |s| == 2
    ensures 0 <= v <= 99 ==> forall k :: 0 <= k < 2 ==> '0' <= s[k] <= '9'
  {
    [DigitChar(CDiv(v, 10)), DigitChar(CMod(v, 10))]
  }

  /** The decimal digits of a non-negative number, most significant first. */
  function DecimalDigits(m: nat): (s: seq<char>)
    ensures 1 <= |s|
    ensures forall k :: 0 <= k < |s| ==> '0' <= s[k] <= '9'
  {
    if m < 10 then [DigitChar(m)] else DecimalDigits(m / 10) + [DigitChar(m % 10)]
  }

  /** What `strftime_push_number` writes for `n`: a minus sign for a negative number, then the digits of
      its magnitude. */
  function NumberText(n: int): seq<char> {
    (if n < 0 then "-" else "") + DecimalDigits(if n < 0 then -n else n)
  }

  /** The digits of a number below 10^k number at most k. */
  lemma {:induction false} DecimalDigitsLength(m: nat, k: nat)
    requires m < Power10(k)
    ensures |DecimalDigits(m)| <= k || (m == 0 && k == 0)
  {
    if m >= 10 {
      DecimalDigitsLength(m / 10, k - 1);
    }
  }

  function Power10(k: nat): (p: nat)
    ensures p >= 1
  {
    if k == 0 then 1 else 10 * Power10(k - 1)
  }

  /** `yy` and `wyear` of `%y` and `%g`: the C remainder by 100, moved up into 0..99. */
  function YearOfCentury(year: int): (yy: int)
    ensures 0 <= yy <= 99
    ensures (year - yy) % 100 == 0
  {
    var yy := CMod(year, 100);
    if yy < 0 then yy + 100 else yy
  }

  /** `%U` and `%W`: the week number `v / 7` written as `v / 70` and `(v / 7) % 10`. */
  function WeekDigits(v: int): seq<char> {
    [DigitChar(CDiv(v, 70)), DigitChar(CMod(CDiv(v, 7), 10))]
  }

  /** `%j`: three digits of the zero-based day of the year. */
  function ThreeDigits(v: int): seq<char> {
    [DigitChar(CDiv(v, 100)), DigitChar(CMod(CDiv(v, 10), 10)), DigitChar(CMod(v, 10))]
  }

  /** The magnitudes whose digits fit the 17 characters of `strftime_push_number`'s buffer. */
  const NUMBER_LIMIT: nat := 100_000_000_000_000_000

  lemma DigitsFitBuffer(m: nat)
    requires m < NUMBER_LIMIT
    ensures |DecimalDigits(m)| <= 17
  {
    assert Power10(1) == 10;
    assert Power10(2) == 100;
    assert Power10(3) == 1000;
    assert Power10(4) == 10000;
    assert Power10(5) == 100000;
    assert Power10(6) == 1000000;
    assert Power10(7) == 10000000;
    assert Power10(8) == 100000000;
    assert Power10(9) == 1000000000;
    assert Power10(10) == 10000000000;
    assert Power10(11) == 100000000000;
    assert Power10(12) == 1000000000000;
    assert Power10(13) == 10000000000000;
    assert Power10(14) == 100000000000000;
    assert Power10(15) == 1000000000000000;
    assert Power10(16) == 10000000000000000;
    assert Power10(17) == 100000000000000000;
    DecimalDigitsLength(m, 17);
  }

  /** `m` after `k` divisions by 10. */
  function Shift(m: nat, k: nat): nat {
    if k == 0 then m else Shift(m, k - 1) / 10
  }

  lemma {:induction false} ShiftOuter(m: nat, k: nat)
    ensures Shift(m, k + 1) == Shift(m / 10, k)
  {
    if k > 0 {
      ShiftOuter(m, k - 1);
    }
  }

  lemma {:induction false} ShiftZero(k: nat)
    ensures Shift(0, k) == 0
  {
    if k > 0 {
      ShiftZero(k - 1);
    }
  }

  /** Digit `k` from the right of `m` is the last digit of `m` after `k` divisions by 10, and there are
      such digits exactly while that is not 0. */
  lemma {:induction false} DigitsOfShift(m: nat, k: nat)
    ensures k < |DecimalDigits(m)| <==> (k == 0 || Shift(m, k) != 0)
    ensures k < |DecimalDigits(m)| ==> DecimalDigits(m)[|DecimalDigits(m)| - 1 - k] == DigitChar(Shift(m, k) % 10)
  {
    if k > 0 {
      ShiftOuter(m, k - 1);
      if m < 10 {
        ShiftZero(k - 1);
      } else {
        DigitsOfShift(m / 10, k - 1);
      }
    }
  }

  lemma Year2023Text() ensures NumberText(2023) == "2023" {
    assert DecimalDigits(2) == "2";
    assert DecimalDigits(20) == "20";
    assert DecimalDigits(202) == "202";
  }
}
