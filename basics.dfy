/** Values shared by every part of the IR model: optional values, the panics
    the Go code raises, and Go's fixed-width integer ranges. */
module Basics {

  /** A Go pointer that may be nil, or a Go `(value, ok)` pair. */
  datatype Option<+T> = None | Some(value: T)

  /** The reasons for which the IR code panics. */
  datatype Reason =
    | InvalidRegisterKind(kind: bv64)     // mkreg with a kind above the generic range
    | InvalidArchRegister(index: nat)     // Reg.String on an arch register outside the table
    | InvalidReceiver                     // IrCall.String whose receiver disagrees with the call type
    | IndexOutOfRange(at: int)            // a slice indexed outside its bounds

  /** The outcome of a Go function that either returns or panics. */
  datatype Result<+T> = Ok(value: T) | Panic(reason: Reason)

  const INT64_MIN: int := -0x8000_0000_0000_0000
  const INT64_MAX: int := 0x7fff_ffff_ffff_ffff

  /** Go's `int64` (and `int`, which is 64 bits wide on the targets of this compiler). */
  type Int64 = x: int | INT64_MIN <= x <= INT64_MAX
}
