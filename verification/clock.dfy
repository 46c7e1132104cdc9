/** Clock ids and clock-tagged microsecond timestamps (src/clock.rs). */
module Clocks {
  import opened Prelude
  import opened CTypes
  import opened Time
  import Ffi

  datatype Clock = Realtime | Monotonic | BoottimeAlarm | Unknown(raw: i32)
  {
    /** `Clock::from_raw`: the named clock for a named id, `Unknown(r)` for any other id. */
    static function FromRaw(r: i32): (c: Clock)
      ensures r == Ffi.CLOCK_REALTIME <==> c == Realtime
      ensures r == Ffi.CLOCK_MONOTONIC <==> c == Monotonic
      ensures r == Ffi.CLOCK_BOOTTIME_ALARM <==> c == BoottimeAlarm
      ensures c.Unknown? <==> !Ffi.IsNamedClockId(r)
      ensures c.IntoRaw() == r
    {
      if r == Ffi.CLOCK_REALTIME then Realtime
      else if r == Ffi.CLOCK_MONOTONIC then Monotonic
      else if r == Ffi.CLOCK_BOOTTIME_ALARM then BoottimeAlarm
      else Unknown(r)
    }

    /** `Clock::into_raw`: the id of a named clock, the carried id of `Unknown`. */
    function IntoRaw(): (r: i32)
      ensures Realtime? ==> r == 0
      ensures Monotonic? ==> r == 1
      ensures BoottimeAlarm? ==> r == 9
      ensures Unknown? ==> r == raw
    {
      match this
      case Realtime => Ffi.CLOCK_REALTIME
      case Monotonic => Ffi.CLOCK_MONOTONIC
      case BoottimeAlarm => Ffi.CLOCK_BOOTTIME_ALARM
      case Unknown(r) => r
    }

    /** A clock value `from_raw` can produce: `Unknown` never carries a named id. */
    predicate Canonical() {
      Unknown? ==> !Ffi.IsNamedClockId(raw)
    }
  }

  /** Decoding an encoded clock gives it back exactly when `Unknown` does not carry a named id. */
  lemma FromRawIntoRaw(c: Clock)
    ensures Clock.FromRaw(c.IntoRaw()) == c <==> c.Canonical()
  {
  }

  /** A `struct timespec`: whole seconds and nanoseconds, both C longs. */
  datatype Timespec = Timespec(tvSec: i64, tvNsec: i64)

  /**
   * The arithmetic of `ClockTimestamp::now`: `tv_sec * 1000000 + tv_nsec / 1000`
   * in i64, then `as u64`. For a well-formed timespec whose microsecond count
   * fits in an i64, the result splits back into the seconds and the whole
   * microseconds of the nanosecond part.
   */
  function TimespecUsec(tp: Timespec): (usec: u64)
    ensures 0 <= tp.tvSec && 0 <= tp.tvNsec < 1_000_000_000 && tp.tvSec * 1_000_000 + 999_999 <= I64_MAX ==>
              && usec == tp.tvSec * 1_000_000 + tp.tvNsec / 1000
              && usec / 1_000_000 == tp.tvSec
              && usec % 1_000_000 == tp.tvNsec / 1000
  {
    WrapU64(WrapI64(WrapI64(tp.tvSec * 1_000_000) + TruncDiv(tp.tvNsec, 1000)))
  }

  /** The derived `Ord` of a one-field timestamp: compare the microsecond counts. */
  function CompareUsec(a: u64, b: u64): (o: Ordering)
    ensures o == Less <==> a < b
    ensures o == Equal <==> a == b
    ensures o == Greater <==> a > b
  {
    if a < b then Less else if a == b then Equal else Greater
  }

  /** A reading of CLOCK_REALTIME, in microseconds. */
  datatype RealtimeClockTimestamp = RealtimeClockTimestamp(usec: u64)
  {
    static function ClockOf(): (c: Clock)
      ensures c.IntoRaw() == Ffi.CLOCK_REALTIME && c.Canonical()
    {
      Realtime
    }

    static function FromUsec(usec: u64): (t: RealtimeClockTimestamp)
      ensures t.AsUsec() == usec
    {
      RealtimeClockTimestamp(usec)
    }

    function AsUsec(): u64 {
      usec
    }

    /**
     * `self + rhs`. A duration without a microsecond count panics, hence the
     * precondition; the sum is taken modulo 2^64, so it is the exact sum
     * whenever that fits in a u64.
     */
    function Add(rhs: Duration): (t: RealtimeClockTimestamp)
      requires rhs.numMicroseconds.Some?
      ensures t.AsUsec() == (AsUsec() + rhs.numMicroseconds.value) % TWO_64
      ensures 0 <= AsUsec() + rhs.numMicroseconds.value < TWO_64 ==>
                t.AsUsec() == AsUsec() + rhs.numMicroseconds.value
    {
      RealtimeClockTimestamp(CastAddI64(usec, rhs.numMicroseconds.value))
    }

    /** The derived `Ord::cmp`. */
    function Cmp(other: RealtimeClockTimestamp): (o: Ordering)
      ensures o == Equal <==> this == other
      ensures o == CompareUsec(AsUsec(), other.AsUsec())
    {
      CompareUsec(usec, other.usec)
    }
  }

  /** A reading of CLOCK_MONOTONIC, in microseconds. */
  datatype MonotonicClockTimestamp = MonotonicClockTimestamp(usec: u64)
  {
    static function ClockOf(): (c: Clock)
      ensures c.IntoRaw() == Ffi.CLOCK_MONOTONIC && c.Canonical()
    {
      Monotonic
    }

    static function FromUsec(usec: u64): (t: MonotonicClockTimestamp)
      ensures t.AsUsec() == usec
    {
      MonotonicClockTimestamp(usec)
    }

    function AsUsec(): u64 {
      usec
    }

    /** `self + rhs`, as for the realtime timestamp. */
    function Add(rhs: Duration): (t: MonotonicClockTimestamp)
      requires rhs.numMicroseconds.Some?
      ensures t.AsUsec() == (AsUsec() + rhs.numMicroseconds.value) % TWO_64
      ensures 0 <= AsUsec() + rhs.numMicroseconds.value < TWO_64 ==>
                t.AsUsec() == AsUsec() + rhs.numMicroseconds.value
    {
      MonotonicClockTimestamp(CastAddI64(usec, rhs.numMicroseconds.value))
    }

    /** The derived `Ord::cmp`. */
    function Cmp(other: MonotonicClockTimestamp): (o: Ordering)
      ensures o == Equal <==> this == other
      ensures o == CompareUsec(AsUsec(), other.AsUsec())
    {
      CompareUsec(usec, other.usec)
    }

    /** The `Debug` rendering's split into whole seconds and the microseconds left over. */
    function DebugSplit(): (split: (u64, u64))
      ensures split.0 * 1_000_000 + split.1 == AsUsec()
      ensures split.1 < 1_000_000
    {
      (usec / 1_000_000, usec % 1_000_000)
    }
  }

  /** Adding a non-negative duration that does not overflow never moves a timestamp back. */
  lemma AddNonNegativeIsMonotone(t: MonotonicClockTimestamp, d: Duration)
    requires d.numMicroseconds.Some? && d.numMicroseconds.value >= 0
    requires t.AsUsec() + d.numMicroseconds.value < TWO_64
    ensures t.Add(d).Cmp(t) != Less
    ensures t.Add(d).AsUsec() - t.AsUsec() == d.numMicroseconds.value
  {
  }

  /** Adding zero microseconds is the identity on both timestamp kinds. */
  lemma AddZeroIsIdentity(r: RealtimeClockTimestamp, m: MonotonicClockTimestamp)
    ensures r.Add(Microseconds(0)) == r
    ensures m.Add(Microseconds(0)) == m
  {
  }

  /**
   * Adding two durations one after the other is adding their sum, on both
   * timestamp kinds, whenever that sum has an i64 microsecond count: the
   * wrap-around of each step cancels out.
   */
  lemma {:induction false} AddTwiceIsAddSum(r: RealtimeClockTimestamp, m: MonotonicClockTimestamp, d1: i64, d2: i64)
    requires I64_MIN <= d1 + d2 <= I64_MAX
    ensures r.Add(Microseconds(d1)).Add(Microseconds(d2)) == r.Add(Microseconds(d1 + d2))
    ensures m.Add(Microseconds(d1)).Add(Microseconds(d2)) == m.Add(Microseconds(d1 + d2))
  {
    CastAddTwice(r.AsUsec(), d1, d2);
    CastAddTwice(m.AsUsec(), d1, d2);
  }

  lemma {:induction false} CastAddTwice(a: u64, d1: i64, d2: i64)
    requires I64_MIN <= d1 + d2 <= I64_MAX
    ensures CastAddI64(CastAddI64(a, d1), d2) == CastAddI64(a, d1 + d2)
  {
    AddModulo(a, d1, d2);
  }

  /** Adding a duration and then its negation gives the timestamp back, even across the wrap-around. */
  lemma {:induction false} AddThenSubtract(r: RealtimeClockTimestamp, m: MonotonicClockTimestamp, d: i64)
    requires d != I64_MIN
    ensures r.Add(Microseconds(d)).Add(Microseconds(-d)) == r
    ensures m.Add(Microseconds(d)).Add(Microseconds(-d)) == m
  {
    AddTwiceIsAddSum(r, m, d, -d);
  }

  lemma {:induction false} AddModulo(a: int, d1: int, d2: int)
    ensures ((a + d1) % TWO_64 + d2) % TWO_64 == (a + d1 + d2) % TWO_64
  {
    var q := (a + d1) / TWO_64;
    assert (a + d1) % TWO_64 + d2 == (a + d1 + d2) - q * TWO_64;
    WrapU64Congruent((a + d1) % TWO_64 + d2, a + d1 + d2);
  }

  /** `now()` followed by the `Debug` split recovers the timespec's seconds and microseconds. */
  lemma NowThenDebugSplit(tp: Timespec)
    requires 0 <= tp.tvSec && 0 <= tp.tvNsec < 1_000_000_000
    requires tp.tvSec * 1_000_000 + 999_999 <= I64_MAX
    ensures MonotonicClockTimestamp.FromUsec(TimespecUsec(tp)).DebugSplit() == (tp.tvSec, tp.tvNsec / 1000)
  {
  }
}
