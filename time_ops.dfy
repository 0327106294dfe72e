/** The inline helpers of lib/librtc/librtc.h that combine the two conversions: the difference of two
    calendar times, adding seconds to a calendar time, and normalizing a calendar time. `librtc_add_time`
    and `librtc_normalize` overwrite the caller's record; here they return the new record. */
module TimeOps {
  import opened CInt
  import opened Calendar

  /** Every field that `librtc_to_unix_time` reads holds a C `int`. */
  predicate FieldsAreInt(tm: Time) {
    && IsInt32(tm.sec) && IsInt32(tm.min) && IsInt32(tm.hour) && IsInt32(tm.mday) && IsInt32(tm.mon)
    && IsInt32(tm.year)
  }

  /** `librtc_time_diff`: the seconds from `a` to `b`, negative when `a` is the later one. */
  function TimeDiff(a: Time, b: Time): (d: int)
    ensures FieldsAreInt(a) && FieldsAreInt(b) ==> IsInt64(d)
  {
    TimeDiffFitsInt64(a, b);
    ToUnixTime(b) - ToUnixTime(a)
  }

  /** The difference of two records with `int` fields cannot overflow `long long`. */
  lemma TimeDiffFitsInt64(a: Time, b: Time)
    ensures FieldsAreInt(a) && FieldsAreInt(b) ==> IsInt64(ToUnixTime(b) - ToUnixTime(a))
  {
    if FieldsAreInt(a) && FieldsAreInt(b) {
      ToUnixTimeFitsInt64(a);
      ToUnixTimeFitsInt64(b);
    }
  }

  /** Swapping the arguments negates the difference; a record is zero seconds from itself. */
  lemma TimeDiffAntisymmetric(a: Time, b: Time)
    ensures TimeDiff(a, b) == -TimeDiff(b, a)
    ensures TimeDiff(a, a) == 0
  {
  }

  /** Differences add up along a chain of records. */
  lemma TimeDiffChain(a: Time, b: Time, c: Time)
    ensures TimeDiff(a, b) + TimeDiff(b, c) == TimeDiff(a, c)
  {
  }

  /** `tm` is what `librtc_from_unix_time` writes for Unix time `t`: clamped outside the range, and the
      calendar record of `t` for every year up to 0x7FFFFFFF. */
  ghost predicate ConvertedFrom(t: int, tm: Time) {
    && (t >= MAX_TS ==> tm == MAX_TIME)
    && (t < MIN_TS ==> tm == MIN_TIME)
    && (MIN_TS <= t < LIMIT_TS ==> tm == Civil(t))
  }

  /** `tm` is what applying the offset `o` to the raw reading `raw` gives: `raw` untouched for a zero
      offset, otherwise the conversion of the shifted Unix time. */
  ghost predicate OffsetApplied(raw: Time, o: int, tm: Time) {
    && (o == 0 ==> tm == raw)
    && (o != 0 ==> ConvertedFrom(ToUnixTime(raw) + o, tm))
  }

  /** `librtc_add_time`: the record of the Unix time `seconds` after `tm`, clamped. The sum is computed in
      `long long`, whose overflow the C code does not guard against. */
  method AddTime(tm: Time, seconds: int) returns (r: Time)
    requires IsInt64(seconds) && IsInt64(ToUnixTime(tm) + seconds)
    ensures ConvertedFrom(ToUnixTime(tm) + seconds, r)
  {
    var ok;
    r, ok := FromUnixTime(ToUnixTime(tm) + seconds);
  }

  /** When the sum is not clamped, the added record lies exactly `s` seconds after `tm`. */
  lemma TimeDiffOfAdd(tm: Time, s: int)
    requires MIN_TS <= ToUnixTime(tm) + s < LIMIT_TS
    ensures TimeDiff(tm, Civil(ToUnixTime(tm) + s)) == s
  {
  }

  /** Adding `a` and then `b` seconds is adding `a + b` seconds, whenever the first sum is not clamped
      (the second may be). */
  lemma AddTimeTwice(tm: Time, a: int, b: int)
    requires MIN_TS <= ToUnixTime(tm) + a < LIMIT_TS
    ensures FromUnix(ToUnixTime(FromUnix(ToUnixTime(tm) + a).0) + b) == FromUnix(ToUnixTime(tm) + (a + b))
  {
    var t := ToUnixTime(tm) + a;
    assert FromUnix(t).0 == Civil(t);
    assert ToUnixTime(Civil(t)) + b == ToUnixTime(tm) + (a + b);
  }

  /** `librtc_normalize`: the record of the Unix time that `tm` stands for, and whether it was not clamped. */
  method Normalize(tm: Time) returns (r: Time, ok: bool)
    ensures ok <==> MIN_TS <= ToUnixTime(tm) < MAX_TS
    ensures ToUnixTime(tm) >= MAX_TS ==> r == MAX_TIME
    ensures ToUnixTime(tm) < MIN_TS ==> r == MIN_TIME
    ensures MIN_TS <= ToUnixTime(tm) < LIMIT_TS ==> r == Civil(ToUnixTime(tm))
    ensures MIN_TS <= ToUnixTime(tm) < LIMIT_TS ==> IsNormalized(r) && ToUnixTime(r) == ToUnixTime(tm)
    ensures 0 <= r.mon <= 11 && 0 <= r.wday <= 6 && IsInt32(r.year)
  {
    var seconds := ToUnixTime(tm);
    r, ok := FromUnixTime(seconds);
  }

  /** Normalization reads only the year, month, day of the month, hour, minute and second: records that
      differ only in `wday`, `yday` and `isdst` normalize alike. */
  lemma NormalizeIgnoresDerivedFields(a: Time, b: Time)
    requires a.year == b.year && a.mon == b.mon && a.mday == b.mday
    requires a.hour == b.hour && a.min == b.min && a.sec == b.sec
    ensures FromUnix(ToUnixTime(a)) == FromUnix(ToUnixTime(b))
  {
    ToUnixTimeIgnoresDerivedFields(a, b);
  }

  /** A normalized record within the range is left as it is and reported as not clamped; in particular a
      successful normalization is idempotent. */
  lemma NormalizeFixesNormalized(tm: Time)
    requires IsNormalized(tm) && MIN_TS <= ToUnixTime(tm) < LIMIT_TS
    ensures FromUnix(ToUnixTime(tm)) == (tm, true)
  {
    NormalizedIsCivil(tm);
  }

  /** Normalizing the result of a successful normalization gives it back unchanged. */
  lemma NormalizeIdempotent(tm: Time)
    requires MIN_TS <= ToUnixTime(tm) < LIMIT_TS
    ensures FromUnix(ToUnixTime(FromUnix(ToUnixTime(tm)).0)) == FromUnix(ToUnixTime(tm))
  {
  }
}
