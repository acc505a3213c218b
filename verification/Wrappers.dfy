/** The two result shapes the modelled programs share: CobaltC's `Option`, and the outcome of a
    computation that may end in one of the language's checked faults. */
module Wrappers {

  datatype Option<+T> = None | Some(value: T)

  /** A checked failure: the program stops with this diagnostic. */
  datatype Fault = ArithOverflow | IndexOutOfBounds | DivByZero | ValueError

  datatype Result<+T> = Ok(value: T) | Err(fault: Fault)

  const I64_MAX: int := 0x7FFF_FFFF_FFFF_FFFF
  const I64_MIN: int := -0x8000_0000_0000_0000

  type i64 = x: int | I64_MIN <= x <= I64_MAX

  /** What a 64-bit sum or product gives: itself, if it fits. */
  function Checked(n: int): (r: Result<i64>)
    ensures r.Ok? <==> -9223372036854775808 <= n < 9223372036854775808
  {
    if I64_MIN <= n <= I64_MAX then Ok(n) else Err(ArithOverflow)
  }

  function CheckedAdd(a: i64, b: i64): Result<i64> {
    Checked(a + b)
  }
}
