/**
 * The one view of `time::Duration` the binding relies on: its length in
 * whole microseconds, `num_microseconds()`, which is `None` when that count
 * does not fit in an i64.
 */
module Time {
  import opened Prelude
  import opened CTypes

  datatype Duration = Duration(numMicroseconds: Option<i64>)

  /** `Duration::microseconds(n)`: a duration whose microsecond count is exactly `n`. */
  function Microseconds(n: i64): (d: Duration)
    ensures d.numMicroseconds == Some(n)
  {
    Duration(Some(n))
  }
}
