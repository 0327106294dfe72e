/** The state librtc keeps between calls (lib/librtc/librtc.c): the initialization flags, the window of
    CPU cycle counts during which a console must still wait before the first read, and the offset added
    to the RTC's time. The hardware transactions are not modelled; what they return is passed in as a
    `Hardware` value: the probe status word, whether an emulator is running, the cycle counts read by
    `librtc_clock`, and the bytes of the RTC's reply. */
module Session {
  import opened CInt
  import opened Calendar
  import opened TimeOps
  import opened RawRecord

  /** The flags of `librtc_state_t`. */
  const INIT_CALLED: bv8 := 1
  const NOT_WAITING: bv8 := 2
  const GOOD: bv8 := 4
  const READY: bv8 := 3

  /** `LIBRTC_CLOCKS_PER_SEC / 50`: 20 milliseconds of the CPU cycle counter. */
  const WAIT_CYCLES: int := 937500

  /** What the hardware answers during one call: `status` is the third word of the probe reply,
      `initClock` the cycle count read when initialization finishes, `waitClocks` the cycle counts read by
      the busy-wait that follows an implicit initialization, and `data` the eight bytes of the RTC's reply
      to a time read. */
  datatype Hardware = Hardware(status: bv32, isEmulator: bool, initClock: int, waitClocks: seq<int>,
                               data: seq<byte>)

  /** The probe found an RTC: the reply's status word, shifted right by 8, is 0x001000. */
  predicate ProbeFindsRtc(status: bv32) {
    status >> 8 == 0x001000
  }

  /** At cycle count `now` the wait that started at `start` is over. When the end wrapped around below the
      start, the wait is over only between the two; otherwise it is over before the start or from the end
      on. */
  predicate WaitOver(start: int, end: int, now: int) {
    if end < start then end <= now < start else now < start || now >= end
  }

  /** The reply of the RTC can be decoded: eight bytes, and a month byte that does not decode to 0 (which
      would read before the start of `s_yday_table`). */
  predicate ReplyWellFormed(data: seq<byte>) {
    |data| == 8 && DecodeRtcByte(data[5]) >= 1
  }

  /** The second of the day that `librtc_get_time_of_day` returns for the sum `s` of the RTC's time of day
      and the time-of-day offset: the C remainder, and for a negative one 86400 MINUS it. */
  function TimeOfDayAsWritten(s: int): (r: int)
    ensures s >= 0 ==> r == s % SECONDS_IN_DAY && 0 <= r < SECONDS_IN_DAY
    ensures s < 0 && s % SECONDS_IN_DAY == 0 ==> r == 0
    ensures s < 0 && s % SECONDS_IN_DAY != 0 ==> r == 2 * SECONDS_IN_DAY - s % SECONDS_IN_DAY
  {
    var seconds := CMod(s, SECONDS_IN_DAY);
    CModNegative(s);
    if seconds < 0 then SECONDS_IN_DAY - seconds else seconds
  }

  /** The C remainder of a negative number by the number of seconds in a day, in terms of the Euclidean
      one. */
  lemma CModNegative(s: int)
    ensures s >= 0 ==> CMod(s, SECONDS_IN_DAY) == s % SECONDS_IN_DAY
    ensures s < 0 && s % SECONDS_IN_DAY == 0 ==> CMod(s, SECONDS_IN_DAY) == 0
    ensures s < 0 && s % SECONDS_IN_DAY != 0 ==> CMod(s, SECONDS_IN_DAY) == s % SECONDS_IN_DAY - SECONDS_IN_DAY
  {
    var q := CDiv(s, SECONDS_IN_DAY);
    var r := CMod(s, SECONDS_IN_DAY);
    if s >= 0 {
      DaySplitUnique(s, q, r);
    } else if r == 0 {
      DaySplitUnique(s, q, 0);
    } else {
      DaySplitUnique(s, q - 1, r + SECONDS_IN_DAY);
    }
  }

  /** For a negative sum that is not a whole number of days, the result lies outside [0,86399], in
      (86400,172800): it is 86400 more than the true second of the day, reflected. */
  lemma TimeOfDayLeavesRange(s: int)
    requires s < 0 && s % SECONDS_IN_DAY != 0
    ensures SECONDS_IN_DAY < TimeOfDayAsWritten(s) < 2 * SECONDS_IN_DAY
    ensures TimeOfDayAsWritten(s) != s % SECONDS_IN_DAY
  {
  }

  /** One second before midnight, as a sum of -1, is reported as second 86401. */
  lemma TimeOfDayMinusOne()
    ensures TimeOfDayAsWritten(-1) == 86401
  {
  }

  /** The RTC session: `s_rtc_state`, `s_wait_start`, `s_wait_end`, `s_offset` and `s_tod_offset`. */
  class RtcSession {
    var state: bv8
    var waitStart: int
    var waitEnd: int
    var offset: int
    var todOffset: int

    /** Only the three flags occur, the other two only once initialization was called, the offset fits in
        a `long long`, and the time-of-day offset is its C remainder by a day. */
    predicate Valid()
      reads this
    {
      && state & 0xF8 == 0
      && (state & (NOT_WAITING | GOOD) != 0 ==> state & INIT_CALLED != 0)
      && IsInt64(offset)
      && todOffset == CMod(offset, SECONDS_IN_DAY)
    }

    /** The static storage before any call: everything zero. */
    constructor ()
      ensures Valid()
      ensures state == 0 && waitStart == 0 && waitEnd == 0 && offset == 0 && todOffset == 0
    {
      state := 0;
      waitStart := 0;
      waitEnd := 0;
      offset := 0;
      todOffset := 0;
    }

    /** `librtc_init`. A repeated call returns whether the state differs from `LIBRTC_READY` and changes
        nothing. A first call marks initialization as called; if the probe finds no RTC it returns false;
        otherwise it marks the RTC as good, opens the 20 ms wait window at the current cycle count (closed
        at once on an emulator) and returns true. */
    method Init(hw: Hardware) returns (r: bool)
      requires Valid()
      modifies this
      ensures Valid()
      ensures old(state) & INIT_CALLED != 0 ==>
                r == (old(state) != READY) && state == old(state)
                && waitStart == old(waitStart) && waitEnd == old(waitEnd)
      ensures old(state) & INIT_CALLED == 0 && !ProbeFindsRtc(hw.status) ==>
                !r && state == old(state) | INIT_CALLED
                && waitStart == old(waitStart) && waitEnd == old(waitEnd)
      ensures old(state) & INIT_CALLED == 0 && ProbeFindsRtc(hw.status) ==>
                r && state == old(state) | INIT_CALLED | GOOD | (if hw.isEmulator then NOT_WAITING else 0)
                && waitStart == hw.initClock && waitEnd == hw.initClock + WAIT_CYCLES
      ensures offset == old(offset) && todOffset == old(todOffset)
    {
      if state & INIT_CALLED != 0 {
        return state != READY;
      }
      state := state | INIT_CALLED;
      if !ProbeFindsRtc(hw.status) {
        return false;
      }
      state := state | GOOD;
      waitStart := hw.initClock;
      waitEnd := waitStart + WAIT_CYCLES;
      if hw.isEmulator {
        state := state | NOT_WAITING;
      }
      return true;
    }

    /** `librtc_ready` at cycle count `now`: false before initialization; true once the wait is over, which
        it then records for good; otherwise whether the wait window has been left. */
    method Ready(now: int) returns (r: bool)
      requires Valid()
      modifies this
      ensures Valid()
      ensures r <==> old(state) & INIT_CALLED != 0
                     && (old(state) & NOT_WAITING != 0 || WaitOver(waitStart, waitEnd, now))
      ensures state == if r then old(state) | NOT_WAITING else old(state)
      ensures waitStart == old(waitStart) && waitEnd == old(waitEnd)
      ensures offset == old(offset) && todOffset == old(todOffset)
    {
      if state & INIT_CALLED == 0 {
        return false;
      }
      if state & NOT_WAITING == 0 {
        if waitEnd < waitStart {
          if now >= waitEnd && now < waitStart {
            state := state | NOT_WAITING;
            return true;
          } else {
            return false;
          }
        } else {
          if now < waitStart || now >= waitEnd {
            state := state | NOT_WAITING;
            return true;
          } else {
            return false;
          }
        }
      }
      return true;
    }

    /** The cycle counts `clocks` eventually end the wait: it is already over, or one of them lies outside
        the window. */
    predicate WaitEnds(clocks: seq<int>)
      reads this
    {
      |clocks| > 0
      && (state & NOT_WAITING != 0 || exists j :: 0 <= j < |clocks| && WaitOver(waitStart, waitEnd, clocks[j]))
    }

    /** `while( !librtc_ready() );` after initialization, with the cycle counts read on each turn. */
    method WaitUntilReady(clocks: seq<int>)
      requires Valid() && state & INIT_CALLED != 0 && WaitEnds(clocks)
      modifies this
      ensures Valid()
      ensures state == old(state) | NOT_WAITING
      ensures waitStart == old(waitStart) && waitEnd == old(waitEnd)
      ensures offset == old(offset) && todOffset == old(todOffset)
    {
      var ready := false;
      var i := 0;
      while !ready
        invariant Valid() && 0 <= i <= |clocks|
        invariant waitStart == old(waitStart) && waitEnd == old(waitEnd)
        invariant offset == old(offset) && todOffset == old(todOffset)
        invariant ready ==> state == old(state) | NOT_WAITING
        invariant !ready ==> state == old(state) && i < |clocks|
        invariant !ready ==> state & NOT_WAITING != 0
                             || exists j :: i <= j < |clocks| && WaitOver(waitStart, waitEnd, clocks[j])
        decreases |clocks| - i
      {
        ready := Ready(clocks[i]);
        i := i + 1;
      }
    }

    /** The state after the initialization that `librtc_get_time_raw` performs when neither
        `LIBRTC_INIT_CALLED` nor `LIBRTC_NOT_WAITING` is set. */
    function StateAfterInit(hw: Hardware): bv8
      reads this
    {
      if state & READY != 0 then state
      else if ProbeFindsRtc(hw.status) then state | INIT_CALLED | GOOD | NOT_WAITING
      else state | INIT_CALLED | NOT_WAITING
    }

    /** The RTC will be read: it was found by an earlier initialization, or will be by this one. */
    predicate WillRead(hw: Hardware)
      reads this
    {
      StateAfterInit(hw) & GOOD != 0
    }

    /** What `librtc_get_time_raw` needs of the hardware: after an implicit initialization the clock leaves
        the wait window, and a reply that is read can be decoded. */
    predicate RawReadable(hw: Hardware)
      reads this
    {
      && (state & READY == 0 ==>
            |hw.waitClocks| > 0
            && (if ProbeFindsRtc(hw.status)
                then hw.isEmulator
                     || exists j :: 0 <= j < |hw.waitClocks|
                                    && WaitOver(hw.initClock, hw.initClock + WAIT_CYCLES, hw.waitClocks[j])
                else exists j :: 0 <= j < |hw.waitClocks| && WaitOver(waitStart, waitEnd, hw.waitClocks[j])))
      && (WillRead(hw) ==> ReplyWellFormed(hw.data))
    }

    /** `librtc_get_time_raw`. Only when NEITHER `LIBRTC_INIT_CALLED` nor `LIBRTC_NOT_WAITING` is set (the
        test is `!(s_rtc_state & LIBRTC_READY)`) does it initialize and wait; a session initialized less
        than 20 ms ago is read at once. Without an RTC it writes `LIBRTC_UNIX_EPOCH` and returns false;
        otherwise it returns the decoded reply. `yday0` is the caller's `tm_yday`. */
    method GetTimeRaw(hw: Hardware, yday0: int) returns (tm: Time, ok: bool)
      requires Valid() && RawReadable(hw)
      modifies this
      ensures Valid()
      ensures state == old(StateAfterInit(hw))
      ensures old(state) & READY != 0 || !ProbeFindsRtc(hw.status) ==>
                waitStart == old(waitStart) && waitEnd == old(waitEnd)
      ensures old(state) & READY == 0 && ProbeFindsRtc(hw.status) ==>
                waitStart == hw.initClock && waitEnd == hw.initClock + WAIT_CYCLES
      ensures offset == old(offset) && todOffset == old(todOffset)
      ensures ok <==> state & GOOD != 0
      ensures !ok ==> tm == UNIX_EPOCH
      ensures ok ==> tm == DecodeRawRecord(hw.data, yday0)
    {
      if state & READY == 0 {
        var initOk := Init(hw);
        WaitUntilReady(hw.waitClocks);
      }
      if state & GOOD == 0 {
        return UNIX_EPOCH, false;
      }
      tm := DecodeRawRecord(hw.data, yday0);
      ok := true;
    }

    /** `librtc_ready` and `librtc_get_time_raw` at the same cycle count `now`, inside the 20 ms window of
        an initialization that found an RTC. The header promises that the wait is enforced before the time
        is first fetched, yet `LIBRTC_INIT_CALLED` alone makes `get_time_raw` skip it: the RTC's reply is
        decoded and returned while `librtc_ready` reports that the wait is not over. */
    method ReadDuringWait(now: int, hw: Hardware, yday0: int) returns (ready: bool, tm: Time, ok: bool)
      requires Valid() && state & INIT_CALLED != 0 && state & GOOD != 0 && state & NOT_WAITING == 0
      requires !WaitOver(waitStart, waitEnd, now) && ReplyWellFormed(hw.data)
      modifies this
      ensures !ready && ok && tm == DecodeRawRecord(hw.data, yday0)
      ensures state == old(state) && state & NOT_WAITING == 0
      ensures waitStart == old(waitStart) && waitEnd == old(waitEnd)
    {
      ready := Ready(now);
      tm, ok := GetTimeRaw(hw, yday0);
    }

    /** `librtc_set_offset`: stores the offset and its C remainder by a day. */
    method SetOffset(o: int)
      requires Valid() && IsInt64(o)
      modifies this
      ensures Valid()
      ensures offset == o && todOffset == CMod(o, SECONDS_IN_DAY)
      ensures -SECONDS_IN_DAY < todOffset < SECONDS_IN_DAY
      ensures o >= 0 ==> todOffset >= 0
      ensures o <= 0 ==> todOffset <= 0
      ensures state == old(state) && waitStart == old(waitStart) && waitEnd == old(waitEnd)
    {
      offset := o;
      todOffset := ToInt32(CMod(o, SECONDS_IN_DAY));
    }

    /** `librtc_set_time`: if the RTC can be read, the offset becomes the difference from the raw time to
        `now`; a failed read leaves it as it was. Returns the offset. */
    method SetTime(now: Time, hw: Hardware, yday0: int) returns (r: int)
      requires Valid() && RawReadable(hw) && FieldsAreInt(now)
      modifies this
      ensures Valid()
      ensures state == old(StateAfterInit(hw))
      ensures old(state) & READY != 0 || !ProbeFindsRtc(hw.status) ==>
                waitStart == old(waitStart) && waitEnd == old(waitEnd)
      ensures old(state) & READY == 0 && ProbeFindsRtc(hw.status) ==>
                waitStart == hw.initClock && waitEnd == hw.initClock + WAIT_CYCLES
      ensures state & GOOD != 0 ==> offset == TimeDiff(DecodeRawRecord(hw.data, yday0), now)
      ensures state & GOOD == 0 ==> offset == old(offset)
      ensures r == offset && todOffset == CMod(offset, SECONDS_IN_DAY)
    {
      var epoch, ok := GetTimeRaw(hw, yday0);
      if ok {
        RawRecordFieldsAreInt(hw.data, yday0);
        offset := TimeDiff(epoch, now);
        todOffset := ToInt32(CMod(offset, SECONDS_IN_DAY));
      }
      return offset;
    }

    /** `librtc_get_time`: the raw time, moved by the offset and normalized when the offset is not 0.
        Without an RTC it writes the Unix epoch and returns false. `raw` is the record read from the RTC.
        The sum of the offset and the raw time is
        a `long long` whose overflow the C code does not guard against. */
    method GetTime(hw: Hardware, yday0: int) returns (tm: Time, ok: bool, ghost raw: Time)
      requires Valid() && RawReadable(hw)
      requires WillRead(hw) ==> IsInt64(offset + ToUnixTime(DecodeRawRecord(hw.data, yday0)))
      modifies this
      ensures Valid()
      ensures state == old(StateAfterInit(hw))
      ensures old(state) & READY != 0 || !ProbeFindsRtc(hw.status) ==>
                waitStart == old(waitStart) && waitEnd == old(waitEnd)
      ensures old(state) & READY == 0 && ProbeFindsRtc(hw.status) ==>
                waitStart == hw.initClock && waitEnd == hw.initClock + WAIT_CYCLES
      ensures offset == old(offset) && todOffset == old(todOffset)
      ensures ok <==> state & GOOD != 0
      ensures !ok ==> tm == UNIX_EPOCH
      ensures ok ==> raw == DecodeRawRecord(hw.data, yday0)
      ensures ok ==> OffsetApplied(raw, offset, tm)
    {
      tm, ok := GetTimeRaw(hw, yday0);
      raw := tm;
      if !ok {
        return;
      }
      var o := offset;
      tm := ApplyOffset(tm, o);
      assert offset == o;
    }

    /** `librtc_set_time(now)` followed by `librtc_get_time` against the same RTC reading: the time read
        back is `now` again, as a Unix time (and, when the offset is not zero, normalized). */
    method SetTimeThenGetTime(now: Time, hw: Hardware, yday0: int) returns (tm: Time, ok: bool)
      requires Valid() && RawReadable(hw) && FieldsAreInt(now)
      requires MIN_TS <= ToUnixTime(now) < LIMIT_TS
      modifies this
      ensures Valid()
      ensures ok <==> state & GOOD != 0
      ensures ok ==> ToUnixTime(tm) == ToUnixTime(now)
      ensures !ok ==> tm == UNIX_EPOCH
    {
      var o := SetTime(now, hw, yday0);
      ghost var raw;
      tm, ok, raw := GetTime(hw, yday0);
      if ok {
        OffsetRestoresTime(raw, now, tm);
      }
    }

    /** Once `librtc_ready` has returned true, it returns true at any later cycle count. */
    method ReadyStaysReady(now: int, later: int) returns (first: bool, second: bool)
      requires Valid()
      modifies this
      ensures Valid()
      ensures first ==> second
      ensures second <==> state & NOT_WAITING != 0
    {
      first := Ready(now);
      second := Ready(later);
    }

    /** `librtc_get_time_of_day`: -1 without an RTC; otherwise the raw time of day plus the time-of-day
        offset, reduced as `TimeOfDayAsWritten` says. */
    method GetTimeOfDay(hw: Hardware, yday0: int) returns (r: int)
      requires Valid() && RawReadable(hw)
      modifies this
      ensures Valid()
      ensures state == old(StateAfterInit(hw))
      ensures old(state) & READY != 0 || !ProbeFindsRtc(hw.status) ==>
                waitStart == old(waitStart) && waitEnd == old(waitEnd)
      ensures old(state) & READY == 0 && ProbeFindsRtc(hw.status) ==>
                waitStart == hw.initClock && waitEnd == hw.initClock + WAIT_CYCLES
      ensures offset == old(offset) && todOffset == old(todOffset)
      ensures state & GOOD == 0 ==> r == -1
      ensures state & GOOD != 0 ==>
                var raw := DecodeRawRecord(hw.data, yday0);
                r == TimeOfDayAsWritten(raw.sec + raw.min * 60 + raw.hour * 3600 + todOffset)
    {
      var tm, ok := GetTimeRaw(hw, yday0);
      if !ok {
        return -1;
      }
      var seconds := tm.sec;
      seconds := seconds + tm.min * SECONDS_IN_MINUTE;
      seconds := seconds + tm.hour * SECONDS_IN_HOUR;
      seconds := seconds + todOffset;
      seconds := CMod(seconds, SECONDS_IN_DAY);
      if seconds < 0 {
        seconds := SECONDS_IN_DAY - seconds;
      }
      return seconds;
    }
  }

  /** The last step of `librtc_get_time`: a non-zero offset is added to the raw reading with
      `librtc_add_time`; a zero offset leaves the reading as it is, unnormalized. */
  method ApplyOffset(raw: Time, o: int) returns (tm: Time)
    requires IsInt64(o) && IsInt64(o + ToUnixTime(raw))
    ensures OffsetApplied(raw, o, tm)
  {
    tm := raw;
    if o != 0 {
      tm := AddTime(tm, o);
    }
  }

  /** The offset that `librtc_set_time(now)` stores for a raw reading `raw`, applied back to that reading
      by `librtc_get_time`, gives a record of the Unix time of `now`. */
  lemma OffsetRestoresTime(raw: Time, now: Time, tm: Time)
    requires MIN_TS <= ToUnixTime(now) < LIMIT_TS
    requires OffsetApplied(raw, TimeDiff(raw, now), tm)
    ensures ToUnixTime(tm) == ToUnixTime(now)
    ensures TimeDiff(raw, now) != 0 ==> IsNormalized(tm)
  {
    var t := ToUnixTime(raw) + TimeDiff(raw, now);
    assert t == ToUnixTime(now);
  }

  /** Every field of a decoded reply is a small `int`. */
  lemma RawRecordFieldsAreInt(data: seq<byte>, yday0: int)
    requires ReplyWellFormed(data)
    ensures FieldsAreInt(DecodeRawRecord(data, yday0))
  {
  }
}
