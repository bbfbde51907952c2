/** Shared value types: optional values, as returned by the compiler's
    lookups and partial relations, Rust's unsigned integer types, and
    powers of two. */
module Wrappers {

  datatype Option<+T> = None | Some(value: T)

  /** A Rust `u8`. */
  type u8 = x: int | 0 <= x < 0x100
  /** A Rust `u32`. */
  type u32 = x: int | 0 <= x < 0x1_0000_0000
  /** A Rust `u64`. */
  type u64 = x: int | 0 <= x < 0x1_0000_0000_0000_0000

  const U32_MAX: u32 := 0xFFFF_FFFF

  function MaxNat(a: int, b: int): (r: int)
    ensures r >= a && r >= b && (r == a || r == b)
  {
    if a >= b then a else b
  }

  function Pow2(n: nat): (r: nat)
    ensures r >= 1
  {
    if n == 0 then 1 else 2 * Pow2(n - 1)
  }

  lemma Pow2Small()
    ensures Pow2(5) == 32 && Pow2(7) == 0x80 && Pow2(8) == 0x100 && Pow2(9) == 0x200
  {
  }

  lemma Pow2Of16()
    ensures Pow2(15) == 0x8000 && Pow2(16) == 0x1_0000
  {
    Pow2Small();
    Pow2Add(8, 7);
    Pow2Add(8, 8);
  }

  lemma Pow2Of26()
    ensures Pow2(26) == 0x400_0000
  {
    Pow2Of16();
    Pow2Add(16, 10);
  }

  lemma Pow2Of32()
    ensures Pow2(31) == 0x8000_0000 && Pow2(32) == 0x1_0000_0000
  {
    Pow2Of16();
    Pow2Add(16, 15);
    Pow2Add(16, 16);
  }

  lemma Pow2Of64()
    ensures Pow2(63) == 0x8000_0000_0000_0000 && Pow2(64) == 0x1_0000_0000_0000_0000
  {
    Pow2Of32();
    Pow2Add(32, 31);
    Pow2Add(32, 32);
  }

  lemma {:induction false} Pow2Add(a: nat, b: nat)
    ensures Pow2(a + b) == Pow2(a) * Pow2(b)
  {
    if a > 0 {
      Pow2Add(a - 1, b);
    }
  }
}
