/** Writing into the caller's buffer, as `strftime_push_text`, `strftime_push_number` and the fixed-width
    cases of `librtc_strftime_internal` do: each write is guarded so that a NUL still fits after it, and
    fails otherwise. `Outcome` says what a write appends, or that it fails. */
module OutBuffer {
  import opened CInt
  import opened Digits

  /** The largest unsigned 32-bit value: `count` is an `unsigned int`. */
  const UINT32_MAX: int := 0xFFFF_FFFF

  datatype Outcome = Written(text: seq<char>) | Failed

  /** A field of fixed width whose guard is `i >= count - k`, evaluated without wrap-around. */
  function Fixed(k: int, text: seq<char>, i: int, count: int): Outcome {
    if i >= count - k then Failed else Written(text)
  }

  /** `strftime_push_number`: fails unless the number and a NUL after it fit. */
  function Number(n: int, i: int, count: int): Outcome {
    if i + |NumberText(n)| >= count then Failed else Written(NumberText(n))
  }

  /** `strftime_push_text`: fails unless the text and a NUL after it fit. */
  function Text(s: seq<char>, i: int, count: int): Outcome {
    if i + |s| >= count then Failed else Written(s)
  }

  // ---------------------------------------------------------------------------------------------------
  // The guard as the C code evaluates it

  /** `i >= count - k` in `unsigned int` arithmetic, for the widths `k` of the directives (at most 21). */
  function UnsignedGuard(i: int, count: int, k: int): (fails: bool)
    requires 0 <= i < count <= UINT32_MAX && 0 <= k <= 21
    ensures k <= count ==> (fails <==> i >= count - k)
    ensures count < k ==> !fails
  {
    i >= (count - k) % (UINT32_MAX + 1)
  }

  /** With a buffer of 2 characters, the guard of `%a` passes at index 0 and the C code writes 3 letters
      into it; `Fixed` fails there instead. */
  lemma ShortBufferGuardPasses()
    ensures !UnsignedGuard(0, 2, 3) && Fixed(3, "Thu", 0, 2) == Failed
  {
  }

  // ---------------------------------------------------------------------------------------------------
  // Writing into the buffer

  /** Only `str[lo..hi]` has changed since the method began. */
  twostate predicate UnchangedOutside(str: array<char>, lo: int, hi: int)
    reads str
  {
    forall k :: 0 <= k < str.Length && !(lo <= k < hi) ==> str[k] == old(str[k])
  }

  /** `strftime_push_text`: copies `text` to index `i` of the buffer of `count` characters at `base`,
      checking before each character that a NUL still fits after it. */
  method PushText(str: array<char>, base: nat, count: int, i: int, text: seq<char>) returns (j: int, ok: bool)
    requires 0 <= i < count && base + count <= str.Length
    modifies str
    ensures ok ==> j == i + |text| < count
    ensures Text(text, i, count) == if ok then Written(str[base + i..base + j]) else Failed
    ensures UnchangedOutside(str, base + i, base + count)
  {
    j := i;
    while j < i + |text|
      invariant i <= j <= i + |text| && j < count
      invariant str[base + i..base + j] == text[..j - i]
      invariant UnchangedOutside(str, base + i, base + count)
    {
      if j >= count - 1 {
        return j, false;
      }
      str[base + j] := text[j - i];
      j := j + 1;
    }
    assert text[..j - i] == text;
    ok := true;
  }

  /** The `do ... while` of `strftime_push_number`: the digits of `m0`, least significant first, in a
      new buffer of 17. */
  method CollectDigits(m0: nat) returns (buff: array<char>, len: int)
    requires |DecimalDigits(m0)| <= 17
    ensures fresh(buff) && buff.Length == 17
    ensures len == |DecimalDigits(m0)| <= 17
    ensures forall k :: 0 <= k < len ==> buff[k] == DecimalDigits(m0)[len - 1 - k]
  {
    buff := new char[17];
    var m := m0;
    buff[0] := DigitChar(m % 10);
    DigitsOfShift(m0, 0);
    len := 1;
    m := m / 10;
    while m != 0
      invariant 1 <= len <= |DecimalDigits(m0)| && m == Shift(m0, len)
      invariant forall k :: 0 <= k < len ==> buff[k] == DecimalDigits(m0)[|DecimalDigits(m0)| - 1 - k]
      decreases m
    {
      DigitsOfShift(m0, len);
      buff[len] := DigitChar(m % 10);
      len := len + 1;
      m := m / 10;
    }
    DigitsOfShift(m0, len);
  }

  /** The `for` loop of `strftime_push_number`: copies `buff[len - 1]`, ..., `buff[0]` to `str[at..]`. */
  method CopyReversed(str: array<char>, at: nat, buff: array<char>, len: nat, ghost digits: seq<char>)
    requires at + len <= str.Length && len <= buff.Length && str != buff && |digits| == len
    requires forall k :: 0 <= k < len ==> buff[k] == digits[len - 1 - k]
    modifies str
    ensures str[at..at + len] == digits
    ensures UnchangedOutside(str, at, at + len)
  {
    var k := len - 1;
    while k >= 0
      invariant -1 <= k <= len - 1
      invariant str[at..at + (len - 1 - k)] == digits[..len - 1 - k]
      invariant UnchangedOutside(str, at, at + len)
    {
      str[at + (len - 1 - k)] := buff[k];
      k := k - 1;
    }
    assert digits[..len] == digits;
  }

  /** The start of `strftime_push_number`: a negative number gets its minus sign, written without a
      check, and is negated. */
  method PushSign(str: array<char>, base: nat, count: int, i: int, n: int) returns (j: int, m: nat)
    requires 0 <= i < count && base + count <= str.Length
    modifies str
    ensures j == i + (if n < 0 then 1 else 0) && m == (if n < 0 then -n else n)
    ensures str[base + i..base + j] == if n < 0 then "-" else ""
    ensures UnchangedOutside(str, base + i, base + count)
  {
    j, m := i, if n < 0 then -n else n;
    if n < 0 {
      str[base + j] := '-';
      j := j + 1;
    }
  }

  /** `strftime_push_number`: the sign, then the digits of the magnitude when they fit with a NUL after
      them. */
  method PushNumber(str: array<char>, base: nat, count: int, i: int, n: int) returns (j: int, ok: bool)
    requires 0 <= i < count && base + count <= str.Length
    requires (if n < 0 then -n else n) < NUMBER_LIMIT
    modifies str
    ensures ok ==> i < j < count
    ensures Number(n, i, count) == if ok then Written(str[base + i..base + j]) else Failed
    ensures UnchangedOutside(str, base + i, base + count)
  {
    var m;
    j, m := PushSign(str, base, count, i, n);
    ghost var sign := str[base + i..base + j];
    DigitsFitBuffer(m);
    var buff, len := CollectDigits(m);
    if j + len >= count {
      return j, false;
    }
    CopyReversed(str, base + j, buff, len, DecimalDigits(m));
    assert str[base + i..base + j + len] == sign + DecimalDigits(m) by {
      assert str[base + i..base + j] == sign;
      assert str[base + i..base + j + len] == str[base + i..base + j] + str[base + j..base + j + len];
    }
    j, ok := j + len, true;
  }

  /** A fixed-width field: fails when `i >= count - |text|`, otherwise writes `text` one character after
      another. */
  method PutFixed(str: array<char>, base: nat, count: int, i: int, text: seq<char>) returns (j: int, ok: bool)
    requires 0 <= i < count && base + count <= str.Length
    modifies str
    ensures ok ==> j == i + |text| < count
    ensures Fixed(|text|, text, i, count) == if ok then Written(str[base + i..base + j]) else Failed
    ensures UnchangedOutside(str, base + i, base + count)
  {
    if i >= count - |text| {
      return i, false;
    }
    j := i;
    while j < i + |text|
      invariant i <= j <= i + |text|
      invariant str[base + i..base + j] == text[..j - i]
      invariant UnchangedOutside(str, base + i, base + count)
    {
      str[base + j] := text[j - i];
      j := j + 1;
    }
    assert text[..j - i] == text;
    ok := true;
  }

  /** One character written without a guard (`%%`, `%n`, `%t`, `%w`, `%u`). */
  method PutChar(str: array<char>, base: nat, count: int, i: int, c: char) returns (j: int, ok: bool)
    requires 0 <= i < count && base + count <= str.Length
    modifies str
    ensures ok && j == i + 1 && str[base + i..base + j] == [c]
    ensures UnchangedOutside(str, base + i, base + count)
  {
    str[base + i] := c;
    j, ok := i + 1, true;
  }
}
