/** Shared vocabulary: return codes, options, u32 arithmetic as the C code
    performs it, and bit tests on flag words. */
module Common {

  /** The kernel return codes the handlers produce. `Ok` is 0; the others are
      the negated errno values. An external collaborator's failure is reported
      with whatever code it chose, so it is carried as `Fail`. */
  datatype Rc = Ok | EInval | ENoMem | Fail(code: int) {
    predicate IsOk() { this == Ok }
  }

  datatype Option<+T> = None | Some(value: T)

  const U32_LIMIT: nat := 0x1_0000_0000
  const U64_LIMIT: nat := 0x1_0000_0000_0000_0000

  type u32 = x: nat | x < U32_LIMIT
  type u64 = x: nat | x < U64_LIMIT

  /** Unsigned 32-bit wrap-around, the result of every u32 `+`, `-`, `*` in C. */
  function Wrap32(x: int): (r: u32)
    ensures 0 <= x < U32_LIMIT ==> r == x
    ensures (r - x) % U32_LIMIT == 0
  {
    x % U32_LIMIT
  }

  /** `ALIGN(x, SZ_4K)` on a u32: `(x + 4095) & ~4095`, the addition wrapping. */
  function Align4K(x: u32): (r: u32)
    ensures r % 4096 == 0
    ensures x + 4095 < U32_LIMIT ==> x <= r < x + 4096
    ensures x % 4096 == 0 ==> r == x
  {
    var s := Wrap32(x + 4095);
    s / 4096 * 4096
  }

  /** `min_t` / `max_t`. */
  function Min(a: int, b: int): int { if a <= b then a else b }
  function Max(a: int, b: int): int { if a >= b then a else b }

  /** 2 to the power `n`; `x >> n` on a u32 is `x / Pow2(n)` for `n < 32`. */
  function Pow2(n: nat): (r: nat)
    ensures r >= 1
  {
    if n == 0 then 1 else 2 * Pow2(n - 1)
  }

  lemma {:induction false} Pow2Add(a: nat, b: nat)
    ensures Pow2(a + b) == Pow2(a) * Pow2(b)
  {
    if a > 0 {
      Pow2Add(a - 1, b);
    }
  }

  /** The powers of two the driver's arithmetic uses. */
  lemma Pow2Values()
    ensures Pow2(4) == 16 && Pow2(5) == 32 && Pow2(8) == 256 && Pow2(16) == 0x1_0000
    ensures Pow2(30) == 0x4000_0000 && Pow2(31) == 0x8000_0000 && Pow2(32) == U32_LIMIT
  {
    assert Pow2(4) == 16;
    Pow2Add(4, 1);
    Pow2Add(4, 4);
    Pow2Add(8, 8);
    Pow2Add(16, 8);
    Pow2Add(24, 4);
    Pow2Add(28, 2);
    Pow2Add(30, 1);
    Pow2Add(31, 1);
  }

  /** A flag word as the firmware and the driver store it. */
  type Flags = bv32

  /** `x & m` is non-zero. */
  predicate HasFlag(x: Flags, m: Flags)
  {
    x & m != 0
  }

  /** `x & ~m`. */
  function ClearFlag(x: Flags, m: Flags): (r: Flags)
    ensures r & m == 0
    ensures r & !m == x & !m
  {
    x & !m
  }
}
