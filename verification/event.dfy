/**
 * What src/event.rs itself decides: the codecs between C codes and the
 * crate's enums, the clock-tagged timestamps of the event loop, the
 * validation of durations before a foreign call, and the mapping of each
 * foreign status (and out-parameter) to a `Result`. The foreign calls are
 * not modelled; their return value and out-parameter are inputs.
 */
module Events {
  import opened Prelude
  import opened CTypes
  import opened Time
  import opened Errors
  import Ffi

  // ---------------------------------------------------------------- EventState

  datatype EventState = Initial | Armed | Pending | Running | Exiting | Finished | Unknown(raw: i32)
  {
    /**
     * `EventState::from_raw`, the decoding behind `Event::state`: the first
     * code (in declaration order) equal to `r` names the state, any other
     * value is kept as `Unknown(r)`. Encoding the result gives `r` back.
     */
    static function FromRaw(codes: Ffi.StateCodes, r: i32): (s: EventState)
      ensures s.Unknown? <==> !codes.Contains(r)
      ensures s.IntoRaw(codes) == r
    {
      if r == codes.initial then Initial
      else if r == codes.armed then Armed
      else if r == codes.pending then Pending
      else if r == codes.running then Running
      else if r == codes.exiting then Exiting
      else if r == codes.finished then Finished
      else EventState.Unknown(r)
    }

    /** `EventState::into_raw`: the code of a named state, the carried value of `Unknown`. */
    function IntoRaw(codes: Ffi.StateCodes): (r: i32)
      ensures !Unknown? ==> codes.Contains(r)
      ensures Initial? ==> r == codes.initial
      ensures Armed? ==> r == codes.armed
      ensures Pending? ==> r == codes.pending
      ensures Running? ==> r == codes.running
      ensures Exiting? ==> r == codes.exiting
      ensures Finished? ==> r == codes.finished
      ensures Unknown? ==> r == raw
    {
      match this
      case Initial => codes.initial
      case Armed => codes.armed
      case Pending => codes.pending
      case Running => codes.running
      case Exiting => codes.exiting
      case Finished => codes.finished
      case Unknown(r) => r
    }
  }

  /**
   * With six distinct codes, decoding an encoded state gives it back exactly
   * when it is not an `Unknown` carrying one of the codes.
   */
  lemma StateFromRawIntoRaw(codes: Ffi.StateCodes, s: EventState)
    requires codes.Distinct()
    ensures EventState.FromRaw(codes, s.IntoRaw(codes)) == s <==> !(s.Unknown? && codes.Contains(s.raw))
  {
  }

  /**
   * Without distinct codes the named states do not survive a round trip: if
   * the armed code equals the initial one, `Armed` decodes back as `Initial`.
   */
  lemma StateRoundTripNeedsDistinctCodes(codes: Ffi.StateCodes)
    requires codes.initial == codes.armed
    ensures EventState.FromRaw(codes, Armed.IntoRaw(codes)) == Initial
  {
  }

  // ---------------------------------------------------------------- EventClock

  datatype EventClock = Realtime | Monotonic | BoottimeAlarm | Unknown(raw: i32)
  {
    /** `EventClock::from_raw`: 0, 1 and 9 name a clock, any other id is `Unknown(r)`. */
    static function FromRaw(r: i32): (c: EventClock)
      ensures r == Ffi.CLOCK_REALTIME <==> c == Realtime
      ensures r == Ffi.CLOCK_MONOTONIC <==> c == Monotonic
      ensures r == Ffi.CLOCK_BOOTTIME_ALARM <==> c == BoottimeAlarm
      ensures c.Unknown? <==> !Ffi.IsNamedClockId(r)
      ensures c.IntoRaw() == r
    {
      if r == Ffi.CLOCK_REALTIME then Realtime
      else if r == Ffi.CLOCK_MONOTONIC then Monotonic
      else if r == Ffi.CLOCK_BOOTTIME_ALARM then BoottimeAlarm
      else EventClock.Unknown(r)
    }

    /** `EventClock::into_raw`. */
    function IntoRaw(): (r: i32)
      ensures Realtime? ==> r == 0
      ensures Monotonic? ==> r == 1
      ensures BoottimeAlarm? ==> r == 9
      ensures Unknown? ==> r == raw
    {
      match this
      case Realtime => Ffi.CLOCK_REALTIME
      case Monotonic => Ffi.CLOCK_MONOTONIC
      case BoottimeAlarm => Ffi.CLOCK_BOOTTIME_ALARM
      case Unknown(r) => r
    }

    /** A clock value `from_raw` can produce: `Unknown` never carries 0, 1 or 9. */
    predicate Canonical() {
      Unknown? ==> !Ffi.IsNamedClockId(raw)
    }
  }

  /** Decoding an encoded event clock gives it back exactly when it is canonical. */
  lemma EventClockFromRawIntoRaw(c: EventClock)
    ensures EventClock.FromRaw(c.IntoRaw()) == c <==> c.Canonical()
  {
  }

  // ------------------------------------------------------- EventSourceEnabled

  datatype EventSourceEnabled = Off | On | OneShot | Unknown(raw: i32)
  {
    /** `EventSourceEnabled::from_raw`: 0 is Off, 1 is On, -1 is OneShot, anything else `Unknown(r)`. */
    static function FromRaw(r: i32): (e: EventSourceEnabled)
      ensures r == 0 <==> e == Off
      ensures r == 1 <==> e == On
      ensures r == -1 <==> e == OneShot
      ensures e.Unknown? <==> !Ffi.IsEnabledCode(r)
      ensures e.IntoRaw() == r
    {
      if r == Ffi.SD_EVENT_OFF then Off
      else if r == Ffi.SD_EVENT_ON then On
      else if r == Ffi.SD_EVENT_ONESHOT then OneShot
      else EventSourceEnabled.Unknown(r)
    }

    /** `EventSourceEnabled::into_raw`. */
    function IntoRaw(): (r: i32)
      ensures Off? ==> r == 0
      ensures On? ==> r == 1
      ensures OneShot? ==> r == -1
      ensures Unknown? ==> r == raw
    {
      match this
      case Off => Ffi.SD_EVENT_OFF
      case On => Ffi.SD_EVENT_ON
      case OneShot => Ffi.SD_EVENT_ONESHOT
      case Unknown(r) => r
    }

    /** A value `from_raw` can produce: `Unknown` never carries 0, 1 or -1. */
    predicate Canonical() {
      Unknown? ==> !Ffi.IsEnabledCode(raw)
    }
  }

  /** Decoding an encoded enabled state gives it back exactly when it is canonical. */
  lemma EnabledFromRawIntoRaw(e: EventSourceEnabled)
    ensures EventSourceEnabled.FromRaw(e.IntoRaw()) == e <==> e.Canonical()
  {
  }

  /** The codes the crate's own smoke test pins down. */
  lemma EnabledSmoke()
    ensures EventSourceEnabled.FromRaw(0) == Off && EventSourceEnabled.FromRaw(1) == On
    ensures EventSourceEnabled.FromRaw(-1) == OneShot
    ensures EventSourceEnabled.FromRaw(2) == EventSourceEnabled.Unknown(2)
    ensures Off.IntoRaw() == 0 && On.IntoRaw() == 1 && OneShot.IntoRaw() == -1
    ensures EventSourceEnabled.Unknown(2).IntoRaw() == 2
  {
  }

  // ------------------------------------------------------ loop timestamps

  /** A realtime instant as the event loop reports it, in microseconds. */
  datatype RealtimeEventClockTimestamp = RealtimeEventClockTimestamp(raw: u64)
  {
    static function ClockOf(): (c: EventClock)
      ensures c.IntoRaw() == Ffi.CLOCK_REALTIME && c.Canonical()
    {
      Realtime
    }

    static function FromUsec(usec: u64): (t: RealtimeEventClockTimestamp)
      ensures t.Usec() == usec
    {
      RealtimeEventClockTimestamp(usec)
    }

    function Usec(): u64 {
      raw
    }

    /** `self + rhs`: a duration without a microsecond count panics; the sum is taken modulo 2^64. */
    function Add(rhs: Duration): (t: RealtimeEventClockTimestamp)
      requires rhs.numMicroseconds.Some?
      ensures t.Usec() == (Usec() + rhs.numMicroseconds.value) % TWO_64
      ensures 0 <= Usec() + rhs.numMicroseconds.value < TWO_64 ==>
                t.Usec() == Usec() + rhs.numMicroseconds.value
    {
      RealtimeEventClockTimestamp(CastAddI64(raw, rhs.numMicroseconds.value))
    }
  }

  /** A monotonic instant as the event loop reports it, in microseconds. */
  datatype MonotonicEventClockTimestamp = MonotonicEventClockTimestamp(raw: u64)
  {
    static function ClockOf(): (c: EventClock)
      ensures c.IntoRaw() == Ffi.CLOCK_MONOTONIC && c.Canonical()
    {
      Monotonic
    }

    static function FromUsec(usec: u64): (t: MonotonicEventClockTimestamp)
      ensures t.Usec() == usec
    {
      MonotonicEventClockTimestamp(usec)
    }

    function Usec(): u64 {
      raw
    }

    /** `self + rhs`, as for the realtime timestamp. */
    function Add(rhs: Duration): (t: MonotonicEventClockTimestamp)
      requires rhs.numMicroseconds.Some?
      ensures t.Usec() == (Usec() + rhs.numMicroseconds.value) % TWO_64
      ensures 0 <= Usec() + rhs.numMicroseconds.value < TWO_64 ==>
                t.Usec() == Usec() + rhs.numMicroseconds.value
    {
      MonotonicEventClockTimestamp(CastAddI64(raw, rhs.numMicroseconds.value))
    }
  }

  // ------------------------------------------------ the type parameter EC

  /**
   * The two implementations of `EventClockTimestamp`: a choice of the type
   * parameter `EC` of `now`, `add_time` and `TimeEventSource`.
   */
  datatype TimestampType = RealtimeType | MonotonicType
  {
    /** `EC::clock()`. */
    function ClockOf(): (c: EventClock)
      ensures RealtimeType? <==> c == Realtime
      ensures MonotonicType? <==> c == Monotonic
    {
      match this
      case RealtimeType => RealtimeEventClockTimestamp.ClockOf()
      case MonotonicType => MonotonicEventClockTimestamp.ClockOf()
    }

    /** `EC::clock().into_raw()`: the clock id `now` and `add_time` hand to C. */
    function ClockId(): (id: i32)
      ensures RealtimeType? <==> id == Ffi.CLOCK_REALTIME
      ensures MonotonicType? <==> id == Ffi.CLOCK_MONOTONIC
      ensures EventClock.FromRaw(id) == ClockOf()
    {
      ClockOf().IntoRaw()
    }

    /** `EC::from_usec`. */
    function FromUsec(usec: u64): (t: EventTimestamp)
      ensures t.Type() == this
      ensures t.Usec() == usec
    {
      match this
      case RealtimeType => RealtimeStamp(RealtimeEventClockTimestamp.FromUsec(usec))
      case MonotonicType => MonotonicStamp(MonotonicEventClockTimestamp.FromUsec(usec))
    }
  }

  /** A value of type `EC`: a timestamp of one of the two types. */
  datatype EventTimestamp =
    | RealtimeStamp(rt: RealtimeEventClockTimestamp)
    | MonotonicStamp(mt: MonotonicEventClockTimestamp)
  {
    function Type(): TimestampType {
      if RealtimeStamp? then RealtimeType else MonotonicType
    }

    /** `EC::usec`. */
    function Usec(): u64 {
      if RealtimeStamp? then rt.Usec() else mt.Usec()
    }
  }

  // ------------------------------------------------- argument validation

  /** A duration the loop accepts: it has a microsecond count and that count is not negative. */
  predicate ValidDuration(d: Duration) {
    d.numMicroseconds.Some? && d.numMicroseconds.value >= 0
  }

  /**
   * The check `run`, `add_time` and `set_accuracy` make before calling into
   * C: the u64 handed to the foreign call, or EINVAL.
   */
  function ValidateDuration(d: Duration): (r: Result<u64, Error>)
    ensures r.Ok? <==> ValidDuration(d)
    ensures r.Ok? ==> r.value == d.numMicroseconds.value
    ensures r.Err? ==> r.error == Io(Ffi.EINVAL)
  {
    match d.numMicroseconds
    case None => Err(FromNegativeErrno(-Ffi.EINVAL))
    case Some(usec) =>
      if usec < 0 then Err(FromNegativeErrno(-Ffi.EINVAL))
      else Ok(WrapU64(usec))
  }

  // ------------------------------------------------------------ Event

  /**
   * `Event::run`, given the status `rv` that `sd_event_run` would return.
   * An invalid timeout is refused with EINVAL whatever `rv` is, so no
   * foreign call matters; otherwise a negative status is an OS error and a
   * positive one means another pass may do work.
   */
  function Run(timeout: Duration, rv: i32): (r: Result<bool, Error>)
    ensures !ValidDuration(timeout) ==> r == Err(Io(Ffi.EINVAL))
    ensures ValidDuration(timeout) ==>
              && (r.Err? <==> rv < 0)
              && (r.Err? ==> r.error == FromNegativeErrno(rv))
              && (r.Ok? ==> r.value == (rv > 0))
  {
    match ValidateDuration(timeout)
    case Err(e) => Err(e)
    case Ok(_) =>
      if rv < 0 then Err(FromNegativeErrno(rv))
      else if rv > 0 then Ok(true)
      else Ok(false)
  }

  /**
   * `Event::state`, given the return value of `sd_event_get_state`. The
   * value is decoded as it is, without a status check: a negative errno
   * that is none of the state codes comes back as `Unknown(rv)`, not as an
   * error.
   */
  function State(codes: Ffi.StateCodes, rv: i32): (s: EventState)
    ensures s.Unknown? <==> !codes.Contains(rv)
    ensures !codes.Contains(rv) ==> s == EventState.Unknown(rv)
    ensures s.IntoRaw(codes) == rv
  {
    EventState.FromRaw(codes, rv)
  }

  /** `Event::run_loop`, given the status of `sd_event_loop`. */
  function RunLoop(rv: i32): (r: Result<(), Error>)
    ensures r.Ok? <==> rv >= 0
    ensures r.Err? ==> r.error == FromNegativeErrno(rv)
  {
    FromStatus(rv, ())
  }

  /** `Event::exit`, given the status of `sd_event_exit`. */
  function Exit(rv: i32): (r: Result<(), Error>)
    ensures r.Ok? <==> rv >= 0
    ensures r.Err? ==> r.error == FromNegativeErrno(rv)
  {
    FromStatus(rv, ())
  }

  /** `Event::exit_code`, given the status of `sd_event_get_exit_code` and the code it wrote. */
  function ExitCode(rv: i32, code: i32): (r: Result<i32, Error>)
    ensures r.Ok? <==> rv >= 0
    ensures r.Ok? ==> r.value == code
    ensures r.Err? ==> r.error == FromNegativeErrno(rv)
  {
    FromStatus(rv, code)
  }

  /**
   * `Event::now::<EC>`, given the status of `sd_event_now` and the
   * microseconds it wrote. The call is made with `ec.ClockId()`, and a
   * success is an `EC` carrying the written count.
   */
  function Now(ec: TimestampType, rv: i32, usec: u64): (r: Result<EventTimestamp, Error>)
    ensures r.Ok? <==> rv >= 0
    ensures r.Ok? ==> r.value.Type() == ec && r.value.Usec() == usec
    ensures r.Err? ==> r.error == FromNegativeErrno(rv)
  {
    FromStatus(rv, ec.FromUsec(usec))
  }

  /**
   * A time source as `add_time` registers it: the timestamp type `EC` it
   * reports in, and the clock id, deadline and accuracy handed to
   * `sd_event_add_time`.
   */
  datatype TimeRegistration = TimeRegistration(ec: TimestampType, clockId: i32, usec: u64, accuracy: u64)

  /**
   * `Event::add_time::<EC>`, given the status of `sd_event_add_time`; the
   * clock and the deadline both come from the requested instant `at`. An
   * invalid accuracy is refused with EINVAL whatever `rv` is; a successful
   * registration is made with the id of `at`'s clock, `at`'s count and the
   * accuracy's microsecond count.
   */
  function AddTime(at: EventTimestamp, accuracy: Duration, rv: i32): (r: Result<TimeRegistration, Error>)
    ensures !ValidDuration(accuracy) ==> r == Err(Io(Ffi.EINVAL))
    ensures ValidDuration(accuracy) ==> (r.Ok? <==> rv >= 0)
    ensures ValidDuration(accuracy) && rv < 0 ==> r == Err(FromNegativeErrno(rv))
    ensures r.Ok? ==> && r.value.ec == at.Type()
                      && r.value.clockId == at.Type().ClockId()
                      && at.Type().FromUsec(r.value.usec) == at
                      && r.value.accuracy == accuracy.numMicroseconds.value
  {
    match ValidateDuration(accuracy)
    case Err(e) => Err(e)
    case Ok(acc) => FromStatus(rv, TimeRegistration(at.Type(), at.Type().ClockId(), at.Usec(), acc))
  }

  /** The zero-argument source kinds. */
  datatype SourceKind = Defer | Post | ExitSource

  /** A registered source: its kind and the foreign handle `sd_event_add_*` wrote. */
  datatype EventSource = EventSource(kind: SourceKind, handle: nat)

  /** `Event::add_defer`, `add_post` and `add_exit`, given the status and the handle written. */
  function AddSource(kind: SourceKind, rv: i32, handle: nat): (r: Result<EventSource, Error>)
    ensures r.Ok? <==> rv >= 0
    ensures r.Ok? ==> r.value.kind == kind && r.value.handle == handle
    ensures r.Err? ==> r.error == FromNegativeErrno(rv)
  {
    FromStatus(rv, EventSource(kind, handle))
  }

  // ------------------------------------------------------------ sources

  /** `EventSource::enabled`, given the status of `sd_event_source_get_enabled` and the code it wrote. */
  function Enabled(rv: i32, code: i32): (r: Result<EventSourceEnabled, Error>)
    ensures r.Ok? <==> rv >= 0
    ensures r.Ok? ==> r.value.IntoRaw() == code && r.value.Canonical()
    ensures r.Err? ==> r.error == FromNegativeErrno(rv)
  {
    FromStatus(rv, EventSourceEnabled.FromRaw(code))
  }

  /**
   * The code `EventSource::set_enabled` hands to `sd_event_source_set_enabled`:
   * it decodes back to the requested state exactly when that state is
   * canonical, and an `Unknown` is forwarded verbatim.
   */
  function SetEnabledArg(enabled: EventSourceEnabled): (code: i32)
    ensures EventSourceEnabled.FromRaw(code) == enabled <==> enabled.Canonical()
    ensures enabled.Unknown? ==> code == enabled.raw
  {
    enabled.IntoRaw()
  }

  /** `EventSource::set_enabled`, given the status of `sd_event_source_set_enabled`. */
  function SetEnabled(rv: i32): (r: Result<(), Error>)
    ensures r.Ok? <==> rv >= 0
    ensures r.Err? ==> r.error == FromNegativeErrno(rv)
  {
    FromStatus(rv, ())
  }

  /** A source whose stored state echoes what `set_enabled` wrote reports it back, if canonical. */
  lemma EnabledEchoesSetEnabled(enabled: EventSourceEnabled, rv: i32)
    requires rv >= 0
    ensures Enabled(rv, SetEnabledArg(enabled)) == Ok(enabled) <==> enabled.Canonical()
  {
  }

  /**
   * `TimeEventSource<EC>::time` on the source `source`, given the status of
   * `sd_event_source_get_time` and the microseconds it wrote: the instant
   * is of the type the source was registered with.
   */
  function TimeOf(source: TimeRegistration, rv: i32, usec: u64): (r: Result<EventTimestamp, Error>)
    ensures r.Ok? <==> rv >= 0
    ensures r.Ok? ==> r.value.Type() == source.ec && r.value.Usec() == usec
    ensures r.Err? ==> r.error == FromNegativeErrno(rv)
  {
    FromStatus(rv, source.ec.FromUsec(usec))
  }

  /**
   * The deadline `TimeEventSource::set_time` hands to
   * `sd_event_source_set_time`: `ts.usec()`, from which `from_usec` of the
   * same type rebuilds `ts`.
   */
  function SetTimeArg(ts: EventTimestamp): (usec: u64)
    ensures ts.Type().FromUsec(usec) == ts
  {
    ts.Usec()
  }

  /** `TimeEventSource::set_time`, given the status of `sd_event_source_set_time`. */
  function SetTime(rv: i32): (r: Result<(), Error>)
    ensures r.Ok? <==> rv >= 0
    ensures r.Err? ==> r.error == FromNegativeErrno(rv)
  {
    FromStatus(rv, ())
  }

  /**
   * A source of type `EC` whose stored deadline echoes what `set_time`
   * handed on reports the same instant back.
   */
  lemma TimeEchoesSetTime(source: TimeRegistration, ts: EventTimestamp, rv: i32)
    requires source.ec == ts.Type() && rv >= 0
    ensures TimeOf(source, rv, SetTimeArg(ts)) == Ok(ts)
  {
  }

  /**
   * `TimeEventSource::accuracy`, given the status of
   * `sd_event_source_get_time_accuracy` and the microseconds it wrote, which
   * are converted back with `usec as i64`.
   */
  function Accuracy(rv: i32, usec: u64): (r: Result<Duration, Error>)
    ensures r.Ok? <==> rv >= 0
    ensures r.Ok? ==> r.value.numMicroseconds.Some?
    ensures r.Ok? && usec <= I64_MAX ==> r.value.numMicroseconds.value == usec
    ensures r.Ok? && usec > I64_MAX ==> r.value.numMicroseconds.value == usec - TWO_64
    ensures r.Err? ==> r.error == FromNegativeErrno(rv)
  {
    FromStatus(rv, Microseconds(WrapI64(usec)))
  }

  /**
   * `TimeEventSource::set_accuracy`, given the status of
   * `sd_event_source_set_time_accuracy`: an invalid accuracy is refused with
   * EINVAL whatever `rv` is.
   */
  function SetAccuracy(accuracy: Duration, rv: i32): (r: Result<(), Error>)
    ensures !ValidDuration(accuracy) ==> r == Err(Io(Ffi.EINVAL))
    ensures ValidDuration(accuracy) ==> (r.Ok? <==> rv >= 0)
    ensures ValidDuration(accuracy) && rv < 0 ==> r == Err(FromNegativeErrno(rv))
  {
    match ValidateDuration(accuracy)
    case Err(e) => Err(e)
    case Ok(_) => FromStatus(rv, ())
  }

  /**
   * A source whose stored accuracy echoes what `set_accuracy` handed on
   * reports the same duration back: the u64 and i64 casts cancel for a
   * valid duration.
   */
  lemma AccuracyEchoesSetAccuracy(accuracy: Duration, rv: i32)
    requires ValidDuration(accuracy) && rv >= 0
    ensures SetAccuracy(accuracy, rv) == Ok(())
    ensures Accuracy(rv, ValidateDuration(accuracy).value) == Ok(accuracy)
  {
  }

  /** `TimeEventSource::clock`, given the status of `sd_event_source_get_time_clock` and the id it wrote. */
  function SourceClock(rv: i32, clockId: i32): (r: Result<EventClock, Error>)
    ensures r.Ok? <==> rv >= 0
    ensures r.Ok? ==> r.value.IntoRaw() == clockId && r.value.Canonical()
    ensures r.Err? ==> r.error == FromNegativeErrno(rv)
  {
    FromStatus(rv, EventClock.FromRaw(clockId))
  }

  /**
   * A time source registered for an instant of type `EC` reports `EC`'s
   * clock back when C echoes the registered id.
   */
  lemma SourceClockOfRegistration(at: EventTimestamp, accuracy: Duration, rvAdd: i32, rvClock: i32)
    requires rvClock >= 0
    requires AddTime(at, accuracy, rvAdd).Ok?
    ensures SourceClock(rvClock, AddTime(at, accuracy, rvAdd).value.clockId) == Ok(at.Type().ClockOf())
  {
  }
}
