/** The decoding of the eight bytes the RTC returns to a status read (lib/librtc/librtc.c, in
    `librtc_get_time_raw`): each byte holds two binary-coded decimal digits; the hour byte carries a flag
    in its top bit, the month counts from 1, and the year is split into a year of the century and a
    century. */
module RawRecord {
  import opened CInt
  import opened Calendar

  /** `decode_rtc_byte`: the high nibble (`(x & 0xF0) >> 4`) times ten plus the low nibble (`x & 0x0F`). */
  function DecodeRtcByte(x: byte): (n: byte)
    ensures n <= 165
  {
    (x / 16) * 10 + x % 16
  }

  /** A byte both of whose nibbles are decimal digits. */
  predicate IsBcd(x: byte) {
    x / 16 <= 9 && x % 16 <= 9
  }

  /** The BCD byte of a number of two decimal digits: the tens in the high nibble, the units in the low
      one. */
  function EncodeBcd(n: int): (x: byte)
    requires 0 <= n <= 99
    ensures IsBcd(x)
  {
    (n / 10) * 16 + n % 10
  }

  /** Decoding undoes encoding for every number in [0,99]. */
  lemma DecodeEncodeBcd(n: int)
    requires 0 <= n <= 99
    ensures DecodeRtcByte(EncodeBcd(n)) == n
  {
    var x := EncodeBcd(n);
    assert x / 16 == n / 10 && x % 16 == n % 10;
  }

  /** Encoding undoes decoding for every BCD byte, so decoding is a bijection from the BCD bytes onto
      [0,99]. */
  lemma EncodeDecodeBcd(x: byte)
    requires IsBcd(x)
    ensures DecodeRtcByte(x) <= 99
    ensures EncodeBcd(DecodeRtcByte(x)) == x
  {
    var n := DecodeRtcByte(x);
    assert n / 10 == x / 16 && n % 10 == x % 16;
  }

  /** The raw record of the eight response bytes `data` (seconds, minutes, hour with its flag, day of the
      month, weekday, month, year of the century, century). `yday0` is what the caller's `tm_yday` held:
      the day of the year is only written for a month below 12, but the leap-day increment is applied
      either way. The hour byte is reduced by 0x80 in `int` and converted back to `unsigned char`. A month
      byte that decodes to 0 would read `s_yday_table[-1]`, so it is excluded. */
  function DecodeRawRecord(data: seq<byte>, yday0: int): (tm: Time)
    requires |data| == 8
    requires DecodeRtcByte(data[5]) >= 1
    ensures 0 <= tm.sec <= 165 && 0 <= tm.min <= 165 && 0 <= tm.hour <= 165
    ensures 0 <= tm.mday <= 165 && 0 <= tm.wday <= 165 && 0 <= tm.mon <= 164
    ensures 0 <= tm.year <= 16665
    ensures tm.isdst == -1
    ensures tm.mon < 12 ==> tm.yday == MonthStart(tm.year + 1900, tm.mon) + tm.mday - 1
    ensures tm.mon >= 12 ==> tm.yday == yday0 + (if IsLeapYear(tm.year + 1900) then 1 else 0)
  {
    var mon := DecodeRtcByte(data[5]) - 1;
    var year := 100 * DecodeRtcByte(data[7]) + DecodeRtcByte(data[6]);
    var mday := DecodeRtcByte(data[3]);
    var yday := if mon < 12 then YDAY_TABLE[mon] + mday - 1 else yday0;
    Time(sec := DecodeRtcByte(data[0]),
         min := DecodeRtcByte(data[1]),
         hour := DecodeRtcByte((data[2] as int - 0x80) % 0x100),
         mday := mday,
         mon := mon,
         year := year,
         wday := DecodeRtcByte(data[4]),
         yday := if mon >= 2 && IsLeapYear(1900 + year) then yday + 1 else yday,
         isdst := -1)
  }

  /** The fields an RTC reading can hold: two decimal digits each, a month from 0 to 98 and a year of at
      most four digits. */
  predicate RawEncodable(tm: Time) {
    && 0 <= tm.sec <= 99 && 0 <= tm.min <= 99 && 0 <= tm.hour <= 99 && 0 <= tm.mday <= 99
    && 0 <= tm.wday <= 99 && 0 <= tm.mon <= 98 && 0 <= tm.year <= 9999
  }

  /** The eight bytes an RTC would send for `tm`, with the hour flag bit set. */
  function EncodeRawRecord(tm: Time): (data: seq<byte>)
    requires RawEncodable(tm)
    ensures |data| == 8
  {
    [EncodeBcd(tm.sec), EncodeBcd(tm.min), (EncodeBcd(tm.hour) + 0x80) % 0x100, EncodeBcd(tm.mday),
     EncodeBcd(tm.wday), EncodeBcd(tm.mon + 1), EncodeBcd(tm.year % 100), EncodeBcd(tm.year / 100)]
  }

  /** Setting the flag bit modulo 256 and taking 0x80 off again modulo 256 gives the byte back. */
  lemma HourFlagRoundTrip(h: byte)
    ensures ((h + 0x80) % 0x100 - 0x80) % 0x100 == h
  {
    if h < 0x80 {
      assert (h + 0x80) % 0x100 == h + 0x80;
    } else {
      assert (h + 0x80) % 0x100 == h - 0x80;
      assert (h - 0x100) % 0x100 == h;
    }
  }

  /** The hour byte for `hour`, flag bit included, decodes to `hour`. */
  lemma HourByteDecodes(hour: int)
    requires 0 <= hour <= 99
    ensures DecodeRtcByte((((EncodeBcd(hour) + 0x80) % 0x100) as int - 0x80) % 0x100) == hour
  {
    DecodeEncodeBcd(hour);
    HourFlagRoundTrip(EncodeBcd(hour));
  }

  /** Decoding the bytes for `tm` gives back every field the RTC stores; the day of the year is the one its
      month and day imply, and `isdst` is -1. */
  lemma DecodeEncodeRawRecord(tm: Time, yday0: int)
    requires RawEncodable(tm) && tm.mon < 12
    ensures DecodeRtcByte(EncodeRawRecord(tm)[5]) >= 1
    ensures var r := DecodeRawRecord(EncodeRawRecord(tm), yday0);
            && r.sec == tm.sec && r.min == tm.min && r.hour == tm.hour && r.mday == tm.mday
            && r.wday == tm.wday && r.mon == tm.mon && r.year == tm.year
            && r.yday == MonthStart(tm.year + 1900, tm.mon) + tm.mday - 1 && r.isdst == -1
  {
    EncodedBytes(tm);
    DecodeOfDigits(EncodeRawRecord(tm), yday0, tm);
  }

  /** Each byte for `tm` decodes to the field it encodes. */
  lemma EncodedBytes(tm: Time)
    requires RawEncodable(tm)
    ensures var data := EncodeRawRecord(tm);
            && DecodeRtcByte(data[0]) == tm.sec && DecodeRtcByte(data[1]) == tm.min
            && DecodeRtcByte((data[2] as int - 0x80) % 0x100) == tm.hour
            && DecodeRtcByte(data[3]) == tm.mday && DecodeRtcByte(data[4]) == tm.wday
            && DecodeRtcByte(data[5]) == tm.mon + 1
            && 100 * DecodeRtcByte(data[7]) + DecodeRtcByte(data[6]) == tm.year
  {
    var data := EncodeRawRecord(tm);
    assert data[0] == EncodeBcd(tm.sec) && data[1] == EncodeBcd(tm.min) && data[3] == EncodeBcd(tm.mday);
    assert data[2] == (EncodeBcd(tm.hour) + 0x80) % 0x100;
    assert data[4] == EncodeBcd(tm.wday) && data[5] == EncodeBcd(tm.mon + 1);
    assert data[6] == EncodeBcd(tm.year % 100) && data[7] == EncodeBcd(tm.year / 100);
    DecodeEncodeBcd(tm.sec);
    DecodeEncodeBcd(tm.min);
    HourByteDecodes(tm.hour);
    DecodeEncodeBcd(tm.mday);
    DecodeEncodeBcd(tm.wday);
    DecodeEncodeBcd(tm.mon + 1);
    YearBytesDecode(tm.year);
  }

  /** The year of the century and the century of `year` decode back to `year`. */
  lemma YearBytesDecode(year: int)
    requires 0 <= year <= 9999
    ensures 100 * DecodeRtcByte(EncodeBcd(year / 100)) + DecodeRtcByte(EncodeBcd(year % 100)) == year
  {
    DecodeEncodeBcd(year % 100);
    DecodeEncodeBcd(year / 100);
  }

  /** Bytes whose digits are the fields of `tm` decode to those fields. */
  lemma DecodeOfDigits(data: seq<byte>, yday0: int, tm: Time)
    requires |data| == 8 && 0 <= tm.mon < 12
    requires DecodeRtcByte(data[0]) == tm.sec && DecodeRtcByte(data[1]) == tm.min
    requires DecodeRtcByte((data[2] as int - 0x80) % 0x100) == tm.hour
    requires DecodeRtcByte(data[3]) == tm.mday && DecodeRtcByte(data[4]) == tm.wday
    requires DecodeRtcByte(data[5]) == tm.mon + 1
    requires 100 * DecodeRtcByte(data[7]) + DecodeRtcByte(data[6]) == tm.year
    ensures var r := DecodeRawRecord(data, yday0);
            && r.sec == tm.sec && r.min == tm.min && r.hour == tm.hour && r.mday == tm.mday
            && r.wday == tm.wday && r.mon == tm.mon && r.year == tm.year
            && r.yday == MonthStart(tm.year + 1900, tm.mon) + tm.mday - 1 && r.isdst == -1
  {
  }
}
