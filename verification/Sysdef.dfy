/** The rounding macros, with their 64-bit wrap-around. */
module Sysdef {
  import opened Bits

  const PAGESZ: int := 4096

  function RoundUp(a: u64, to: u64): u64
    requires to > 0
  {
    Wrap(Wrap(Wrap(a - 1) / to + 1) * to)
  }

  function RoundDown(a: u64, to: u64): u64
    requires to > 0
  {
    Wrap(a / to * to)
  }

  /** Up to the last page boundary, rounding up gives the least multiple not below the argument
      (0 included, through two wraps); above it, it wraps to 0. */
  lemma RoundUpMeaning(a: u64)
    ensures RoundUp(a, PAGESZ) % PAGESZ == 0
    ensures a <= RoundUp(a, PAGESZ) < a + PAGESZ <==> a <= TWO64 - PAGESZ
    ensures a > TWO64 - PAGESZ ==> RoundUp(a, PAGESZ) == 0
  {
  }

  lemma RoundDownMeaning(a: u64)
    ensures RoundDown(a, PAGESZ) % PAGESZ == 0
    ensures RoundDown(a, PAGESZ) <= a < RoundDown(a, PAGESZ) + PAGESZ
  {
  }
}
