/** The text handling of the symbol-table packer (tools/mapPacker.py): splitting a line of `nm` output
    into whitespace-separated tokens, and reading and writing hexadecimal numbers. */
module MapText {

  datatype Option<T> = None | Some(value: T)

  /** The ASCII characters Python's `str.split()` treats as whitespace. */
  predicate IsSpace(c: char) {
    c == ' ' || 9 <= c as int <= 13 || 28 <= c as int <= 31
  }

  /** A token of `str.split()`: non-empty and free of whitespace. */
  predicate IsWord(w: string) {
    |w| > 0 && forall i :: 0 <= i < |w| ==> !IsSpace(w[i])
  }

  /** The length of the token at the start of `s`. */
  function WordLength(s: string): (n: nat)
    requires |s| > 0 && !IsSpace(s[0])
    ensures 1 <= n <= |s| && IsWord(s[..n]) && (n < |s| ==> IsSpace(s[n]))
  {
    if |s| == 1 || IsSpace(s[1]) then 1
    else
      var n := 1 + WordLength(s[1..]);
      assert s[..n] == [s[0]] + s[1..][..n - 1];
      n
  }

  /** `line.split()`: the maximal runs of non-whitespace characters, in order. */
  function Split(s: string): (ts: seq<string>)
    ensures forall k :: 0 <= k < |ts| ==> IsWord(ts[k])
    decreases |s|
  {
    if |s| == 0 then []
    else if IsSpace(s[0]) then Split(s[1..])
    else
      var n := WordLength(s);
      [s[..n]] + Split(s[n..])
  }

  /** The tokens joined by single spaces, as a line of `nm` output is laid out. */
  function Join(ws: seq<string>): string {
    if |ws| == 0 then ""
    else if |ws| == 1 then ws[0]
    else ws[0] + " " + Join(ws[1..])
  }

  lemma WordLengthOfWord(w: string, t: string)
    requires IsWord(w) && (|t| == 0 || IsSpace(t[0]))
    ensures WordLength(w + t) == |w|
    decreases |w|
  {
    var s := w + t;
    if |w| == 1 {
      assert |s| == 1 || s[1] == t[0];
    } else {
      assert s[1] == w[1] && !IsSpace(s[1]);
      assert s[1..] == w[1..] + t;
      WordLengthOfWord(w[1..], t);
      assert WordLength(s) == 1 + WordLength(s[1..]);
    }
  }

  lemma SplitWord(w: string, t: string)
    requires IsWord(w) && (|t| == 0 || IsSpace(t[0]))
    ensures Split(w + t) == [w] + Split(t)
  {
    WordLengthOfWord(w, t);
    assert (w + t)[..|w|] == w;
    assert (w + t)[|w|..] == t;
  }

  /** Splitting tokens joined by spaces gives the tokens back. */
  lemma {:induction false} SplitJoin(ws: seq<string>)
    requires forall k :: 0 <= k < |ws| ==> IsWord(ws[k])
    ensures Split(Join(ws)) == ws
  {
    if |ws| == 1 {
      SplitWord(ws[0], "");
      assert ws[0] + "" == ws[0];
    } else if |ws| > 1 {
      var rest := " " + Join(ws[1..]);
      assert Join(ws) == ws[0] + rest;
      SplitWord(ws[0], rest);
      assert rest[1..] == Join(ws[1..]);
      SplitJoin(ws[1..]);
      assert [ws[0]] + ws[1..] == ws;
    }
  }

  /** Surplus whitespace between the tokens does not change them. */
  lemma {:induction false} SplitSkipsSpace(s: string, t: string)
    requires forall i :: 0 <= i < |s| ==> IsSpace(s[i])
    ensures Split(s + t) == Split(t)
    decreases |s|
  {
    if |s| > 0 {
      assert (s + t)[1..] == s[1..] + t;
      SplitSkipsSpace(s[1..], t);
    } else {
      assert s + t == t;
    }
  }

  /** Text that `decode('ascii')` accepts. */
  predicate IsAscii(s: string) {
    forall i :: 0 <= i < |s| ==> s[i] as int < 0x80
  }

  /** The tokens of ASCII text are ASCII. */
  lemma {:induction false} SplitAscii(s: string)
    requires IsAscii(s)
    ensures forall k :: 0 <= k < |Split(s)| ==> IsAscii(Split(s)[k])
    decreases |s|
  {
    if |s| > 0 {
      if IsSpace(s[0]) {
        SplitAscii(s[1..]);
      } else {
        var n := WordLength(s);
        SplitAscii(s[n..]);
        assert Split(s) == [s[..n]] + Split(s[n..]);
      }
    }
  }

  // ---------------------------------------------------------------------------------------------------
  // Hexadecimal numbers

  /** The value of a hexadecimal digit of either case, or -1 for any other character. */
  function HexValue(c: char): (v: int)
    ensures -1 <= v < 16
  {
    if '0' <= c <= '9' then c as int - '0' as int
    else if 'a' <= c <= 'f' then c as int - 'a' as int + 10
    else if 'A' <= c <= 'F' then c as int - 'A' as int + 10
    else -1
  }

  predicate IsHexDigits(t: string) {
    forall i :: 0 <= i < |t| ==> HexValue(t[i]) >= 0
  }

  /** The number a string of hexadecimal digits denotes, most significant digit first. */
  function HexNumber(t: string): nat
    requires IsHexDigits(t)
  {
    if |t| == 0 then 0 else 16 * HexNumber(t[..|t| - 1]) + HexValue(t[|t| - 1])
  }

  /** `int(t, 16)` on a token of `nm` output; `None` where Python raises `ValueError`. */
  function ParseHex(t: string): (r: Option<nat>)
    ensures r.Some? <==> |t| > 0 && IsHexDigits(t)
  {
    if |t| > 0 && IsHexDigits(t) then Some(HexNumber(t)) else None
  }

  /** The digit for `v` in `%X` (upper case) or `%x` (lower case). */
  function HexDigit(v: int, upper: bool): (c: char)
    requires 0 <= v < 16
    ensures HexValue(c) == v
  {
    if v < 10 then ('0' as int + v) as char
    else if upper then ('A' as int + v - 10) as char
    else ('a' as int + v - 10) as char
  }

  /** `"%X" % n` or `"%x" % n`: the digits of `n` without leading zeros, "0" for zero. */
  function HexText(n: nat, upper: bool): (t: string)
    ensures |t| > 0 && IsHexDigits(t)
    ensures n > 0 ==> HexValue(t[0]) > 0
  {
    if n < 16 then [HexDigit(n, upper)] else HexText(n / 16, upper) + [HexDigit(n % 16, upper)]
  }

  /** Reading back what `%X` or `%x` wrote gives the number. */
  lemma {:induction false} ParseHexText(n: nat, upper: bool)
    ensures ParseHex(HexText(n, upper)) == Some(n)
    ensures IsHexDigits(HexText(n, upper)) && HexNumber(HexText(n, upper)) == n
  {
    var t := HexText(n, upper);
    if n < 16 {
      assert t[..0] == [];
      assert HexNumber(t) == 16 * HexNumber([]) + HexValue(t[0]);
    } else {
      ParseHexText(n / 16, upper);
      assert t[..|t| - 1] == HexText(n / 16, upper);
      assert HexNumber(t) == 16 * HexNumber(HexText(n / 16, upper)) + n % 16;
    }
  }

  /** Leading zeros, which `nm` prints, do not change the value. */
  lemma {:induction false} LeadingZeros(z: string, t: string)
    requires forall i :: 0 <= i < |z| ==> z[i] == '0'
    requires IsHexDigits(t)
    ensures IsHexDigits(z + t) && HexNumber(z + t) == HexNumber(t)
    decreases |t|
  {
    assert IsHexDigits(z + t) by {
      forall i | 0 <= i < |z + t| ensures HexValue((z + t)[i]) >= 0 {
        if i < |z| { assert (z + t)[i] == z[i]; } else { assert (z + t)[i] == t[i - |z|]; }
      }
    }
    if |t| == 0 {
      assert z + t == z;
      AllZeros(z);
    } else {
      assert (z + t)[..|z + t| - 1] == z + t[..|t| - 1];
      LeadingZeros(z, t[..|t| - 1]);
    }
  }

  lemma {:induction false} AllZeros(z: string)
    requires forall i :: 0 <= i < |z| ==> z[i] == '0'
    ensures IsHexDigits(z) && HexNumber(z) == 0
  {
    if |z| > 0 {
      AllZeros(z[..|z| - 1]);
    }
  }

  /** The address column of `80153210  000000f8 T global_sym`. */
  lemma ParseHexExample()
    ensures ParseHex("000000f8") == Some(248) && ParseHex("0x80") == None && ParseHex("") == None
  {
    LeadingZeros("000000", "f8");
    assert "000000" + "f8" == "000000f8";
    assert HexNumber("f8") == 16 * HexNumber("f") + 8;
    assert "0x80"[1] == 'x' && HexValue('x') == -1;
  }
}
