/** Result and outcome types used in place of the C++ exceptions, and the
    fixed-width unsigned integers the source computes with. */
module Wrappers {

  /** The exceptions the modelled code throws. */
  datatype Error =
    | LogicError          // std::logic_error
    | OutOfRange          // std::out_of_range, thrown by vector::at
    | RuntimeError        // std::runtime_error
    | IdbError(code: nat) // IDBExcept carrying an engine error code

  /** A computation that returns a value or throws. */
  datatype Result<+T> = Ok(value: T) | Err(error: Error)

  /** A computation that returns nothing or throws. */
  datatype Outcome = Pass | Fail(error: Error)

  /** A configuration value that may be absent. */
  datatype Option<+T> = None | Some(value: T)

  const TWO_TO_16: int := 0x1_0000
  const TWO_TO_31: int := 0x8000_0000
  const TWO_TO_32: int := 0x1_0000_0000

  type Uint16 = x: int | 0 <= x < TWO_TO_16
  type Uint32 = x: int | 0 <= x < TWO_TO_32

  /** The value an unsigned 32-bit variable holds after being assigned `x`:
      the unique value below 2^32 congruent to `x`. */
  function U32(x: int): (r: Uint32)
    ensures 0 <= x < TWO_TO_32 ==> r == x
    ensures (x - r) % TWO_TO_32 == 0
  {
    x % TWO_TO_32
  }

  /** The `int` a `uint32_t` value converts to (two's complement). */
  function ToInt32(x: Uint32): (r: int)
    ensures -TWO_TO_31 <= r < TWO_TO_31
    ensures U32(r) == x
  {
    if x < TWO_TO_31 then x else x - TWO_TO_32
  }

  /** 2 to the power n, the factor a left shift by n multiplies by. */
  function Pow2(n: nat): (r: nat)
    ensures r >= 1
  {
    if n == 0 then 1 else 2 * Pow2(n - 1)
  }
}
