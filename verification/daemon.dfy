/**
 * Interpretation of the sd-daemon results (src/daemon.rs): socket
 * activation, the watchdog query and `sd_notify`. The foreign calls and the
 * environment they read are not modelled; their status and out-parameter
 * are inputs.
 */
module Daemon {
  import opened Prelude
  import opened CTypes
  import opened Errors

  /** The first descriptor passed by socket activation. */
  const SD_LISTEN_FDS_START: i32 := 3

  /** `std::ops::Range<RawFd>`: the descriptors `start`, `start + 1`, …, `end - 1`. */
  datatype FdRange = FdRange(start: i32, end: i32)
  {
    /** The descriptors the range yields, in order; none when `end <= start`. */
    function Fds(): (fds: seq<int>)
      ensures |fds| == if end <= start then 0 else end - start
      ensures forall i :: 0 <= i < |fds| ==> fds[i] == start + i
    {
      if end <= start then [] else seq(end - start, i => start + i)
    }
  }

  /**
   * `listen_fds`, given the count `sd_listen_fds` returns. A negative count
   * is an OS error, zero means no descriptors were passed, and a positive
   * count `n` gives the range starting at 3 that holds exactly `n`
   * descriptors. The end `3 + n` is an i32 addition: for the three largest
   * counts it wraps and the range comes out empty.
   */
  function ListenFds(rv: i32): (r: Result<Option<FdRange>, Error>)
    ensures r.Err? <==> rv < 0
    ensures r.Err? ==> r.error == FromNegativeErrno(rv)
    ensures rv == 0 ==> r == Ok(None)
    ensures rv > 0 ==> r.Ok? && r.value.Some? && r.value.value.start == SD_LISTEN_FDS_START
    ensures 0 < rv <= I32_MAX - SD_LISTEN_FDS_START ==>
              && |r.value.value.Fds()| == rv
              && forall i :: 0 <= i < rv ==> r.value.value.Fds()[i] == SD_LISTEN_FDS_START + i
    ensures rv > I32_MAX - SD_LISTEN_FDS_START ==> r.value.value.Fds() == []
  {
    if rv < 0 then Err(FromNegativeErrno(rv))
    else if rv > 0 then Ok(Some(FdRange(SD_LISTEN_FDS_START, WrapI32(SD_LISTEN_FDS_START + rv))))
    else Ok(None)
  }

  /** The crate's test: with `LISTEN_FDS=0` the library reports no descriptors, and so does `listen_fds`. */
  lemma ListenFdsZeroIsNone()
    ensures ListenFds(0) == Ok(None)
  {
  }

  /**
   * `watchdog_enabled`, given the status of `sd_watchdog_enabled` and the
   * interval it wrote: a positive status hands the interval through
   * unchanged, zero means the watchdog is off.
   */
  function WatchdogEnabled(rv: i32, usec: u64): (r: Result<Option<u64>, Error>)
    ensures r.Err? <==> rv < 0
    ensures r.Err? ==> r.error == FromNegativeErrno(rv)
    ensures r == Ok(None) <==> rv == 0
    ensures r.Ok? && r.value.Some? ==> rv > 0 && r.value.value == usec
  {
    if rv < 0 then Err(FromNegativeErrno(rv))
    else if rv > 0 then Ok(Some(usec))
    else Ok(None)
  }

  /** The position of the first NUL byte in `bytes[from..]`, if there is one. */
  function FindNul(bytes: seq<u8>, from: nat): (r: Option<nat>)
    requires from <= |bytes|
    ensures r.None? <==> forall i :: from <= i < |bytes| ==> bytes[i] != 0
    ensures r.Some? ==> && from <= r.value < |bytes|
                        && bytes[r.value] == 0
                        && forall i :: from <= i < r.value ==> bytes[i] != 0
    decreases |bytes| - from
  {
    if from == |bytes| then None
    else if bytes[from] == 0 then Some(from)
    else FindNul(bytes, from + 1)
  }

  /**
   * `CString::new`: the bytes unchanged when none is NUL, otherwise a
   * `NulError` at the first NUL.
   */
  function CStringNew(bytes: seq<u8>): (r: Result<seq<u8>, NulError>)
    ensures r.Ok? <==> forall i :: 0 <= i < |bytes| ==> bytes[i] != 0
    ensures r.Ok? ==> r.value == bytes
    ensures r.Err? ==> && r.error.bytes == bytes
                       && r.error.position < |bytes|
                       && bytes[r.error.position] == 0
                       && forall i :: 0 <= i < r.error.position ==> bytes[i] != 0
  {
    match FindNul(bytes, 0)
    case None => Ok(bytes)
    case Some(position) => Err(NulError(position, bytes))
  }

  /**
   * `notify`, given the UTF-8 bytes of the state string and the status
   * `sd_notify` returns. A state with an interior NUL is refused with
   * `Error::Nul` at its first NUL whatever the status would have been;
   * otherwise a negative status is an OS error and any other is success.
   */
  function Notify(state: seq<u8>, rv: i32): (r: Result<(), Error>)
    ensures (exists i :: 0 <= i < |state| && state[i] == 0) ==>
              && r.Err? && r.error.Nul?
              && r.error.nul.bytes == state
              && r.error.nul.position < |state|
              && state[r.error.nul.position] == 0
              && forall i :: 0 <= i < r.error.nul.position ==> state[i] != 0
    ensures (forall i :: 0 <= i < |state| ==> state[i] != 0) ==>
              && (r.Ok? <==> rv >= 0)
              && (r.Err? ==> r.error == FromNegativeErrno(rv))
  {
    match CStringNew(state)
    case Err(e) => Err(FromNulError(e))
    case Ok(_) => FromStatus(rv, ())
  }

  /** Whether `notify` reaches the foreign call does not depend on the call's status: a NUL is refused first. */
  lemma NotifyRefusesNulBeforeCall(state: seq<u8>, rv1: i32, rv2: i32)
    requires exists i :: 0 <= i < |state| && state[i] == 0
    ensures Notify(state, rv1) == Notify(state, rv2)
  {
  }
}
