/** Option and Result, used for the null pointers and the thrown errors of the scene code. */
module Wrappers {

  /** A value or its absence; stands for a `shared_ptr` that may be null. */
  datatype Option<+T> = None | Some(value: T)

  /** The outcome of an operation that may abort with a `std::runtime_error` message. */
  datatype Result<+R, +E> = Success(value: R) | Failure(error: E)
}

/** The fixed-width unsigned integer types of the C++ code. */
module Native {

  type uint8 = x: int | 0 <= x < 0x100

  type uint32 = x: int | 0 <= x < 0x1_0000_0000

  const UINT32_LIMIT: int := 0x1_0000_0000

  type int32 = x: int | -0x8000_0000 <= x < 0x8000_0000

  const INT32_LIMIT: int := 0x8000_0000

  /** The implicit conversion of an unsigned count to GLsizei, a 32-bit signed
      int: the low 32 bits, read in two's complement. */
  function ToGLsizei(n: nat): (r: int32)
    ensures n < INT32_LIMIT ==> r == n
    ensures r >= 0 <==> n % UINT32_LIMIT < INT32_LIMIT
    ensures r % UINT32_LIMIT == n % UINT32_LIMIT
  {
    var low := n % UINT32_LIMIT;
    if low < INT32_LIMIT then low else low - UINT32_LIMIT
  }
}
