/** The crate's error type (src/error.rs). */
module Errors {
  import opened Prelude
  import opened CTypes
  import Ffi

  /** `std::ffi::NulError`: the position of the first NUL byte and the bytes that held it. */
  datatype NulError = NulError(position: nat, bytes: seq<u8>)

  /**
   * `Error`: either an OS error, identified by its raw errno value (the
   * payload of `std::io::Error::from_raw_os_error`), or a string argument
   * that held an interior NUL byte.
   */
  datatype Error = Io(osCode: i32) | Nul(nul: NulError)

  /**
   * `Error::from_negative_errno`: the OS error `-errno`. The negation is an
   * i32 negation, which wraps only for i32::MIN; for every other negative
   * status the carried code is the positive errno.
   */
  function FromNegativeErrno(errno: i32): (e: Error)
    ensures e.Io?
    ensures errno != I32_MIN ==> e.osCode == -errno
    ensures errno == I32_MIN ==> e.osCode == I32_MIN
    ensures I32_MIN < errno < 0 ==> e.osCode > 0
  {
    Io(WrapI32(-(errno as int)))
  }

  /** `From<NulError> for Error`. */
  function FromNulError(error: NulError): (e: Error)
    ensures e.Nul? && e.nul == error
  {
    Nul(error)
  }

  /**
   * The status check every foreign call in the crate is followed by: a
   * negative status becomes `Err(Error::from_negative_errno(rv))`, any other
   * status lets the call's value through.
   */
  function FromStatus<T>(rv: i32, value: T): (r: Result<T, Error>)
    ensures r.Ok? <==> rv >= 0
    ensures r.Ok? ==> r.value == value
    ensures r.Err? ==> r.error == FromNegativeErrno(rv)
    ensures r.Err? && rv != I32_MIN ==> r.error.osCode > 0
  {
    if rv < 0 then Err(FromNegativeErrno(rv)) else Ok(value)
  }

  /** The error the crate's argument checks produce, `from_negative_errno(-EINVAL)`, carries EINVAL. */
  lemma InvalidArgumentIsEinval()
    ensures FromNegativeErrno(-Ffi.EINVAL) == Io(Ffi.EINVAL)
  {
  }
}
