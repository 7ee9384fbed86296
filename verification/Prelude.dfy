/** Definitions shared by every component of the model. */
module Prelude {
  datatype Option<+T> = None | Some(value: T)

  /** A uint8_t as a number; bitmaps use bv8 instead. */
  type Byte = x: int | 0 <= x < 256

  /** The number of values of a 64-bit size_t, uint64_t or uintptr_t. */
  const U64: nat := 0x1_0000_0000_0000_0000

  const PAGE_SIZE: nat := 4096

  /** Pages for a request: the rounding addition is a size_t addition and wraps. */
  function PageCount(size: nat): nat {
    (size + PAGE_SIZE - 1) % U64 / PAGE_SIZE
  }

  /** A size_t result that was in range to begin with is not changed by the wrap. */
  lemma NoWrap(x: int, c: nat)
    requires x == c < U64
    ensures x % U64 == c
  {
  }
}
