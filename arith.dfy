/** The unsigned 32-bit arithmetic the loader does on addresses and sizes:
    wrapping addition and subtraction, rounding up to a page, and clearing
    the two low bits of a stack pointer. */
module Arith {
  import opened Base

  /** `a + b` on `uint`: wraps modulo 2^32. */
  function Add32(a: u32, b: u32): u32
  {
    (a + b) % U32
  }

  /** `a - b` on `uint`: wraps modulo 2^32. */
  function Sub32(a: u32, b: u32): u32
  {
    (a - b) % U32
  }

  /** `x & ~3`: the largest multiple of 4 that is not above `x`. */
  function AlignDown4(x: u32): (r: u32)
    ensures r % 4 == 0
    ensures r <= x < r + 4
  {
    x - x % 4
  }

  /** PGROUNDUP on `uint`: `(x + PGSIZE - 1) & ~(PGSIZE - 1)`. The addition
      wraps, so the last page's worth of addresses rounds to 0. */
  function PgRoundUp(x: u32): (r: u32)
    ensures r % PGSIZE == 0
    ensures x <= U32 - PGSIZE ==> x <= r < x + PGSIZE
    ensures x > U32 - PGSIZE ==> r == 0
  {
    var y := Add32(x, PGSIZE - 1);
    y - y % PGSIZE
  }

  /** The source's overflow test `a + b < a` fires exactly when the true
      sum does not fit in 32 bits. */
  lemma AddOverflowTest(a: u32, b: u32)
    ensures Add32(a, b) < a <==> a + b >= U32
  {
  }

  /** Below the wrap point, subtraction is the ordinary one. */
  lemma SubNoWrap(a: u32, b: u32)
    requires b <= a
    ensures Sub32(a, b) == a - b
  {
  }

  /** Pushing `n` bytes below `sp` and aligning down either lands at least
      `n` bytes below `sp`, or (when `n > sp`) wraps into the top of the
      address space, no lower than `U32 + sp - n - 3`. */
  lemma PushBelow(sp: u32, n: u32)
    ensures n <= sp ==> AlignDown4(Sub32(sp, n)) + n <= sp
    ensures n <= sp ==> sp < AlignDown4(Sub32(sp, n)) + n + 4
    ensures n > sp ==> AlignDown4(Sub32(sp, n)) + n + 3 >= U32 + sp
  {
  }
}
