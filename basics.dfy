/** Small value types shared by the whole model: Go's nil-able pointer, Go's
    uint64, and the time.Duration constants the service uses (a Duration is a
    count of nanoseconds; clock readings are nanosecond instants). */
module Basics {

  /** A Go pointer or interface value that may be nil. */
  datatype Option<T> = None | Some(value: T)

  /** Go's uint64. */
  newtype uint64 = x: int | 0 <= x < 0x1_0000_0000_0000_0000

  const Nanosecond: int := 1
  const Second: int := 1_000_000_000 * Nanosecond
  const Minute: int := 60 * Second
}
