/** Constants of the C interface (libsystemd and libc) that the binding depends on. */
module Ffi {
  import opened CTypes

  /** Clock ids of `clockid_t`. */
  const CLOCK_REALTIME: i32 := 0
  const CLOCK_MONOTONIC: i32 := 1
  const CLOCK_BOOTTIME_ALARM: i32 := 9

  /** Whether `r` is one of the three clock ids the binding names. */
  predicate IsNamedClockId(r: i32) {
    r == CLOCK_REALTIME || r == CLOCK_MONOTONIC || r == CLOCK_BOOTTIME_ALARM
  }

  /** The enabled states of an event source, as the binding's own test pins them. */
  const SD_EVENT_OFF: i32 := 0
  const SD_EVENT_ON: i32 := 1
  const SD_EVENT_ONESHOT: i32 := -1

  /** Whether `r` is one of the three enabled-state codes. */
  predicate IsEnabledCode(r: i32) {
    r == SD_EVENT_OFF || r == SD_EVENT_ON || r == SD_EVENT_ONESHOT
  }

  /** libc's EINVAL on Linux. */
  const EINVAL: i32 := 22

  /**
   * The six loop-state codes. They are exported by the C side as statics
   * whose values the binding never states, so they are kept symbolic: every
   * property below holds for any six codes (or for any six distinct ones).
   */
  datatype StateCodes = StateCodes(initial: i32, armed: i32, pending: i32,
                                   running: i32, exiting: i32, finished: i32)
  {
    predicate Distinct() {
      && initial != armed && initial != pending && initial != running
      && initial != exiting && initial != finished
      && armed != pending && armed != running && armed != exiting && armed != finished
      && pending != running && pending != exiting && pending != finished
      && running != exiting && running != finished
      && exiting != finished
    }

    /** Whether `r` is one of the six codes. */
    predicate Contains(r: i32) {
      r == initial || r == armed || r == pending || r == running || r == exiting || r == finished
    }
  }
}
