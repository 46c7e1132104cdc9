# libsystemd-rs: the binding's translation layer, in Dafny

libsystemd-rs wraps libsystemd's `sd-event` loop and its `sd-daemon` helpers
for Rust. The loop itself runs in C. This model covers the decisions the Rust
code makes on its own side of that boundary:

- **Code ↔ enum conversions.** `EventState`, `EventClock`/`Clock` and
  `EventSourceEnabled` convert between C integers and enums, and unrecognised
  codes are kept as `Unknown(raw)`.
- **Clock-tagged timestamps.** The realtime and monotonic microsecond
  timestamps are separate types, so two clocks cannot be mixed. They support
  `from_usec`, reading the count back, and adding a duration with the
  binding's `as i64` / `as u64` casts. The module also models the arithmetic
  of `now()` and the seconds/remainder split of `Debug`.
- **Argument checks.** A duration with no microsecond count, or a negative
  one, is refused with EINVAL before any call into C.
- **Status mapping.** The status `rv` of a C call is turned into a
  `Result`, together with any out-parameter the call writes. The one
  exception is `Event::state`, which decodes the return value of
  `sd_event_get_state` without a status check, so a negative errno comes
  back as `EventState::Unknown(rv)`.
- **Daemon results.** `listen_fds`, `watchdog_enabled` and `notify` turn the
  daemon calls' results into Rust values. `notify` first checks the state
  string for an interior NUL byte.
- **The error type.**
- **`ordinal_suffix`** from the repeating-timer example.

Every foreign call is represented only by its return value (and the value it
writes through its out-parameter). These are ordinary inputs of the model's
functions. A result that does not depend on such an input shows that the
call does not matter on that path. This is how the model says "refused
before any foreign call".

Modules follow the source files:

- `Errors` (src/error.rs)
- `Clocks` (src/clock.rs)
- `Events` (src/event.rs)
- `Daemon` (src/daemon.rs)
- `RepeatingTimer` (examples/repeating_timer.rs)

They rest on four small support modules:

- `Prelude`: Rust's `Option`, `Result` and `Ordering`.
- `CTypes`: fixed-width integers and Rust's wrapping `as` conversions.
- `Time`: `time::Duration`, seen only through `num_microseconds()`.
- `Ffi`: the C constants. Clock ids are 0, 1 and 9. The enabled states are
  0, 1 and -1, as the crate's test pins them. EINVAL is 22. The six loop-state
  codes are symbolic, because the crate declares them as C statics and never
  gives their values.

Integer overflow follows a release build. `as` keeps the low bits. An i64
or i32 operation that overflows wraps instead of panicking. A panic the
source always raises becomes a precondition: adding a duration whose
`num_microseconds()` is `None` panics.

## Model

| member | source | states |
|---|---|---|
| Errors.FromNegativeErrno | src/error.rs:12-14 | always the `Io` variant; the carried code is `-errno`, so it is positive for every negative errno except i32::MIN, where the i32 negation wraps |
| Errors.FromNulError | src/error.rs:36-40 | always the `Nul` variant, carrying the given `NulError` |
| Errors.FromStatus | src/event.rs:258-262 | the status check after a foreign call: `Ok(value)` exactly when `rv >= 0`; otherwise `Err(from_negative_errno(rv))`, whose code is positive unless `rv` is i32::MIN |
| Errors.InvalidArgumentIsEinval | src/event.rs:241 | `from_negative_errno(-EINVAL)` carries EINVAL |
| CTypes.CastAddI64 | src/clock.rs:74 | `((usec as i64) + delta) as u64` is addition modulo 2^64 for every operand, so it is exact whenever the sum fits in a u64 |
| Time.Microseconds | src/event.rs:471 | `Duration::microseconds(n)` has microsecond count exactly `n` |
| Clocks.Clock.FromRaw | src/clock.rs:16-23 | id 0 gives Realtime, 1 gives Monotonic, 9 gives BoottimeAlarm (each as an if-and-only-if); every other id gives `Unknown(id)`; re-encoding gives the id back |
| Clocks.Clock.IntoRaw | src/clock.rs:25-32 | Realtime, Monotonic and BoottimeAlarm encode to 0, 1 and 9; `Unknown(r)` encodes to `r` |
| Clocks.FromRawIntoRaw | src/clock.rs:16-32 | decoding an encoded clock gives it back if and only if it is not an `Unknown` carrying 0, 1 or 9 |
| Clocks.TimespecUsec | src/clock.rs:45-46 | for 0 <= tv_nsec < 10^9, tv_sec >= 0 and no i64 overflow, the result is tv_sec·10^6 + tv_nsec/1000; dividing it by 10^6 gives tv_sec, and the remainder is tv_nsec/1000 |
| Clocks.RealtimeClockTimestamp.ClockOf | src/clock.rs:57 | the realtime timestamp's clock is the canonical clock encoding to CLOCK_REALTIME, that is `Realtime` |
| Clocks.RealtimeClockTimestamp.FromUsec | src/clock.rs:59-63 | `from_usec(x).as_usec() == x` |
| Clocks.RealtimeClockTimestamp.Add | src/clock.rs:66-76 | the sum's count is `(t + d) mod 2^64`, which is exactly `t + d` when that fits; requires a microsecond count, since its absence panics |
| Clocks.RealtimeClockTimestamp.Cmp | src/clock.rs:54 | the derived order is the order of the microsecond counts; `Equal` holds exactly for equal timestamps |
| Clocks.MonotonicClockTimestamp.ClockOf | src/clock.rs:81 | the monotonic timestamp's clock is the canonical clock encoding to CLOCK_MONOTONIC, that is `Monotonic` |
| Clocks.MonotonicClockTimestamp.FromUsec | src/clock.rs:83-87 | `from_usec(x).as_usec() == x` |
| Clocks.MonotonicClockTimestamp.Add | src/clock.rs:90-100 | the same as the realtime timestamp's Add |
| Clocks.MonotonicClockTimestamp.Cmp | src/clock.rs:78 | the derived order is the order of the microsecond counts; `Equal` holds exactly for equal timestamps |
| Clocks.MonotonicClockTimestamp.DebugSplit | src/clock.rs:102-108 | `sec·10^6 + remainder == usec`, with `remainder < 10^6` |
| Clocks.AddNonNegativeIsMonotone | src/clock.rs:93-99 | adding d >= 0 without overflow raises the count by exactly d, so the result is never `Less` than the start |
| Clocks.AddZeroIsIdentity | src/clock.rs:69-75 | adding zero microseconds is the identity on both timestamp types |
| Clocks.AddTwiceIsAddSum | src/clock.rs:69-99 | `(t + d1) + d2 == t + (d1 + d2)` on both types whenever `d1 + d2` fits in i64, wrap-around included |
| Clocks.AddThenSubtract | src/clock.rs:69-99 | `(t + d) + (-d) == t` on both types for every d except i64::MIN |
| Clocks.NowThenDebugSplit | src/clock.rs:45-106 | `Debug` of a timestamp built by `now()` shows the timespec's seconds and whole microseconds |
| Events.State | src/event.rs:212-215 | the return value of `sd_event_get_state` is decoded unchecked: the result is `Unknown` if and only if the value is none of the state codes (a negative errno included, which gives `Unknown(rv)`); the state always re-encodes to `rv`, so with distinct codes each code gives its named state |
| Events.EventState.FromRaw | src/event.rs:22-38 | the result is `Unknown` if and only if the code is none of the six state codes; re-encoding gives the code back, for any six codes |
| Events.EventState.IntoRaw | src/event.rs:40-50 | each named state encodes to its own code (Initial to the initial code, … Finished to the finished code); `Unknown(r)` encodes to `r` |
| Events.StateFromRawIntoRaw | src/event.rs:22-50 | with six distinct codes, decoding an encoded state gives it back if and only if it is not an `Unknown` carrying a state code |
| Events.StateRoundTripNeedsDistinctCodes | src/event.rs:22-50 | for any codes where the armed code equals the initial one, `Armed` decodes back as `Initial` |
| Events.EventClock.FromRaw | src/event.rs:61-68 | id 0 gives Realtime, 1 gives Monotonic, 9 gives BoottimeAlarm (each as an if-and-only-if); every other id gives `Unknown(id)`; re-encoding gives the id back |
| Events.EventClock.IntoRaw | src/event.rs:69-76 | Realtime, Monotonic and BoottimeAlarm encode to 0, 1 and 9; `Unknown(r)` encodes to `r` |
| Events.EventClockFromRawIntoRaw | src/event.rs:61-76 | decoding an encoded clock gives it back if and only if it is canonical (not an `Unknown` carrying 0, 1 or 9) |
| Events.EventSourceEnabled.FromRaw | src/event.rs:136-146 | 0 gives Off, 1 gives On, -1 gives OneShot (each as an if-and-only-if); anything else gives `Unknown(r)`; re-encoding gives `r` back |
| Events.EventSourceEnabled.IntoRaw | src/event.rs:147-154 | Off, On and OneShot encode to 0, 1 and -1; `Unknown(r)` encodes to `r` |
| Events.EnabledFromRawIntoRaw | src/event.rs:136-154 | decoding an encoded enabled state gives it back if and only if it is not an `Unknown` carrying 0, 1 or -1 |
| Events.EnabledSmoke | src/event.rs:161-172 | the eight equations of the crate's smoke test |
| Events.RealtimeEventClockTimestamp.ClockOf | src/event.rs:88 | the realtime loop timestamp's clock is the canonical clock encoding to CLOCK_REALTIME, that is `Realtime` |
| Events.RealtimeEventClockTimestamp.FromUsec | src/event.rs:89-92 | `from_usec(x).usec() == x` |
| Events.RealtimeEventClockTimestamp.Add | src/event.rs:95-104 | the sum's count is `(t + d) mod 2^64`, which is exactly `t + d` when that fits; requires a microsecond count |
| Events.MonotonicEventClockTimestamp.ClockOf | src/event.rs:109 | the monotonic loop timestamp's clock is the canonical clock encoding to CLOCK_MONOTONIC, that is `Monotonic` |
| Events.MonotonicEventClockTimestamp.FromUsec | src/event.rs:110-113 | `from_usec(x).usec() == x` |
| Events.MonotonicEventClockTimestamp.Add | src/event.rs:116-125 | the same as the realtime loop timestamp's Add |
| Events.TimestampType.ClockOf | src/event.rs:79-113 | `EC::clock()` is `Realtime` exactly for the realtime type and `Monotonic` exactly for the monotonic type |
| Events.TimestampType.ClockId | src/event.rs:375-379 | the id `now` and `add_time` hand to C is CLOCK_REALTIME exactly for the realtime type and CLOCK_MONOTONIC exactly for the monotonic type, and it decodes to `EC::clock()` |
| Events.TimestampType.FromUsec | src/event.rs:79-113 | `EC::from_usec(x)` is a timestamp of type `EC` whose `usec()` is `x` |
| Events.ValidateDuration | src/event.rs:240-244 | succeeds if and only if the duration has a non-negative microsecond count, and then hands that count on; otherwise the error is `Io(EINVAL)` |
| Events.Run | src/event.rs:351-366 | an invalid timeout gives `Io(EINVAL)`, whatever the loop would return; otherwise `rv < 0` gives `Err(from_negative_errno(rv))`, `rv > 0` gives `Ok(true)` and `rv == 0` gives `Ok(false)` |
| Events.RunLoop | src/event.rs:367-373 | succeeds if and only if `rv >= 0`; a failure is `from_negative_errno(rv)` |
| Events.Exit | src/event.rs:217-223 | succeeds if and only if `rv >= 0`; a failure is `from_negative_errno(rv)` |
| Events.ExitCode | src/event.rs:225-232 | `Ok(code)` with the code the loop wrote if and only if `rv >= 0`; otherwise `from_negative_errno(rv)` |
| Events.Now | src/event.rs:375-385 | on `rv >= 0`, a timestamp of the requested type `EC` carrying the count C wrote; otherwise `from_negative_errno(rv)` |
| Events.AddTime | src/event.rs:234-269 | an invalid accuracy gives `Io(EINVAL)`, whatever the call would return; otherwise the call succeeds if and only if `rv >= 0`; a success registers the instant's own type and clock id, a deadline from which that type's `from_usec` rebuilds the instant, and the accuracy's count |
| Events.AddSource | src/event.rs:271-347 | `add_defer`, `add_post` and `add_exit` succeed if and only if `rv >= 0`, with a source of the requested kind on the handle C wrote |
| Events.Enabled | src/event.rs:391-400 | on `rv >= 0`, a value that encodes back to the code C wrote and is canonical; otherwise `from_negative_errno(rv)` |
| Events.SetEnabledArg | src/event.rs:402-405 | the code handed to C decodes back to the requested state if and only if that state is canonical; an `Unknown(r)` is handed on as `r` |
| Events.SetEnabled | src/event.rs:402-410 | succeeds if and only if `rv >= 0`; a failure is `from_negative_errno(rv)` |
| Events.EnabledEchoesSetEnabled | src/event.rs:391-410 | if the source stores what `set_enabled` wrote, `enabled()` returns the requested state if and only if it is canonical |
| Events.TimeOf | src/event.rs:442-451 | on `rv >= 0`, a timestamp of the source's type `EC` carrying the count C wrote; otherwise `from_negative_errno(rv)` |
| Events.SetTimeArg | src/event.rs:452-455 | the deadline handed to C is one from which `from_usec` of the same type rebuilds the requested instant |
| Events.SetTime | src/event.rs:456-461 | succeeds if and only if `rv >= 0`; a failure is `from_negative_errno(rv)` |
| Events.TimeEchoesSetTime | src/event.rs:442-461 | if the source stores the deadline `set_time` handed on, `time()` returns the same instant, for either timestamp type |
| Events.Accuracy | src/event.rs:463-472 | on `rv >= 0`, a duration whose count is the stored microseconds when they fit in i64, and those microseconds minus 2^64 (a negative count) when they do not; otherwise `from_negative_errno(rv)` |
| Events.SetAccuracy | src/event.rs:473-487 | an invalid accuracy gives `Io(EINVAL)`, whatever the call would return; otherwise succeeds if and only if `rv >= 0` |
| Events.AccuracyEchoesSetAccuracy | src/event.rs:463-487 | if the source stores what `set_accuracy` wrote, `accuracy()` returns a duration with the same microsecond count: the u64 and i64 casts cancel |
| Events.SourceClock | src/event.rs:489-498 | on `rv >= 0`, the canonical clock whose encoding is the id C wrote (so 0, 1 and 9 give Realtime, Monotonic and BoottimeAlarm); otherwise `from_negative_errno(rv)` |
| Events.SourceClockOfRegistration | src/event.rs:234-259 | a time source registered for an instant of either type reports that type's clock when C echoes the registered id |
| Daemon.ListenFds | src/daemon.rs:12-26 | `rv < 0` gives `Err(from_negative_errno(rv))` and `rv == 0` gives `None`; a positive `rv` gives a range starting at 3 that holds exactly the descriptors 3, …, 3+rv-1 when 3+rv fits in i32, and is empty when it wraps |
| Daemon.ListenFdsZeroIsNone | src/daemon.rs:38-42 | a count of zero yields `Ok(None)` |
| Daemon.WatchdogEnabled | src/daemon.rs:70-82 | `rv < 0` gives an error, `rv == 0` and only it gives `None`, and `rv > 0` gives the written interval unchanged |
| Daemon.FindNul | src/daemon.rs:58 | `None` if and only if there is no NUL at or after `from`; otherwise the position of the first one |
| Daemon.CStringNew | src/daemon.rs:58 | the bytes unchanged if and only if none is NUL; otherwise a `NulError` carrying the bytes and the position of their first NUL |
| Daemon.Notify | src/daemon.rs:57-67 | a state with an interior NUL gives `Error::Nul` at the first NUL; otherwise it succeeds if and only if `rv >= 0`, and a failure is `from_negative_errno(rv)` |
| Daemon.NotifyRefusesNulBeforeCall | src/daemon.rs:57-61 | for a state with a NUL, the result does not depend on what `sd_notify` would return |
| RepeatingTimer.OrdinalSuffix | examples/repeating_timer.rs:11-25 | always one of "st", "nd", "rd" or "th"; 10 to 19 give "th"; otherwise a last digit of 1, 2 or 3 gives "st", "nd" or "rd"; every other number gives "th" |
| RepeatingTimer.OrdinalSuffixDependsOnLastDigit | examples/repeating_timer.rs:11-25 | the suffix depends only on `n % 10` and on whether 10 <= n < 20 |
| RepeatingTimer.OrdinalSuffixExamples | examples/repeating_timer.rs:13-24 | 11, 12 and 13 give "th", while 111, 112 and 113 give "st", "nd" and "rd" |

## Left out

- The event loop itself is not modelled. Dispatch order, defer/post/exit
  firing, one-shot auto-disable, timer expiry and state transitions all
  happen inside libsystemd. This includes the true/false sequence asserted
  by `test_event_add_defer`. Foreign results are free inputs instead.
- Callback boxing and the `extern fn` trampolines are not modelled. They are
  pointer casts across the C boundary. The trampoline's rebuilding of the
  timestamp is `from_usec`, which is modelled.
- Reference counting of the loop and of its sources (`Clone`/`Drop` through
  `sd_event_ref`, `sd_event_unref` and `sd_event_source_unref`) is left out.
  Both the count and the release live in C.
- `Event::default` is not modelled. It panics when `sd_event_default` fails.
  Otherwise it only stores the handle C wrote.
- `clock_gettime` and the uninitialised `timespec` in `ClockTimestamp::now`
  are an OS call. Only the arithmetic on the returned timespec is modelled
  (`Clocks.TimespecUsec`). The panic on a failing `clock_gettime` is not.
- The arguments passed unchanged to C are not modelled: `unset_environment`,
  the exit code given to `exit`, and the handles. A forwarded value is
  modelled where the model can state something about it: the clock id of
  `now` and `add_time` (`Events.TimestampType.ClockId`), the `add_time`
  registration, the code `set_enabled` hands on (`Events.SetEnabledArg`), the
  deadline `set_time` hands on (`Events.SetTimeArg`) and the count
  `set_accuracy` hands on (`Events.ValidateDuration`).
- The type parameter `EC` is modelled as a value (`Events.TimestampType`),
  and a value of type `EC` as `Events.EventTimestamp`. A time source
  remembers its `EC` in `Events.TimeRegistration`. `Events.SetTimeArg`
  accepts an instant of either type; the model does not force it to match
  the source's `EC`, as the Rust type checker does.
- The `Display` and `description` text, the derived `Debug` text and the
  crate's own `Debug` impls are left out: the latter write fixed names for
  the event sources (including `"DeferEventSource"` for `PostEventSource`)
  and `MonotonicClockTimestamp(sec,remainder)` for the monotonic clock
  timestamp. Only the numeric split in that last one is modelled.
- `std::io::Error` is reduced to its raw OS code, and `NulError` to its
  position and bytes.
- The state string of `notify` is modelled as its UTF-8 bytes. Encoding
  `&str` to UTF-8 is not modelled.
- Io and Signal sources, the event-mask builder and the EPOLL bits are not
  modelled. src/lib.rs re-exports them, but src/event.rs does not define
  them.
- The build script and environment-variable handling are left out. This
  includes the environment set by the daemon tests.
- The `main` functions of the examples are left out.
- src/daemon.rs is modelled although src/lib.rs has `mod daemon`
  commented out.
- `time::Duration` is modelled only through `num_microseconds()`. Any
  fraction of a microsecond is dropped by `run`, `add_time` and
  `set_accuracy` before the count reaches C, and the model does not
  represent it.
  `Time.Microseconds` relies on the time crate's promise that
  `Duration::microseconds(n).num_microseconds() == Some(n)`. The time crate
  is not part of this model.
- Clocks.RealtimeClockTimestamp.Add: does not model the debug-build panic
  on i64 overflow. The model follows a release build, where the addition
  wraps. The same holds for `Clocks.MonotonicClockTimestamp.Add`, the two
  `Events` timestamp `Add`s, `Errors.FromNegativeErrno` (i32 negation) and
  `Daemon.ListenFds` (the i32 range end).
- The event-clock timestamps (`Events.RealtimeEventClockTimestamp` and
  `Events.MonotonicEventClockTimestamp`) carry no comparison function. Their
  derived `Ord` is the same as the clock timestamps' `Cmp`.
