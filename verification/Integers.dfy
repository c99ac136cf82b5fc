/** The limits of `int`, and the smaller and the larger of two numbers. */
module Integers {

  const INT_MAX := 0x7FFF_FFFF
  const INT_MIN := -0x8000_0000

  function Min(a: int, b: int): int {
    if a < b then a else b
  }

  function Max(a: int, b: int): int {
    if a < b then b else a
  }
}
