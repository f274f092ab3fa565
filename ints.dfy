/** The C++ integer types the two headers use. */
module Ints {

  /** `std::size_t` arithmetic is modulo this value (64-bit targets). */
  const SIZE_LIMIT: nat := 0x1_0000_0000_0000_0000

  const INT32_MIN: int := -0x8000_0000
  const INT32_MAX: int := 0x7fff_ffff

  /** `std::size_t`: unsigned, 64 bits. */
  newtype usize = x: int | 0 <= x < 0x1_0000_0000_0000_0000

  /** `int`: signed, 32 bits. Overflow is undefined behaviour, so callers must avoid it. */
  newtype int32 = x: int | -0x8000_0000 <= x < 0x8000_0000

  /** Unsigned addition: the sum modulo `SIZE_LIMIT`. */
  function WrapAdd(a: usize, b: usize): (r: usize)
    ensures a as int + b as int < SIZE_LIMIT ==> r as int == a as int + b as int
    ensures SIZE_LIMIT <= a as int + b as int ==> r as int == a as int + b as int - SIZE_LIMIT
  {
    ((a as int + b as int) % SIZE_LIMIT) as usize
  }
}
