/** Shared vocabulary: optional values, bytes, 256-bit words and powers of two. */
module Prelude {

  datatype Option<+T> = None | Some(value: T)

  newtype byte = x: int | 0 <= x < 256

  /** 2^n. */
  function Pow2(n: nat): (r: nat)
    ensures r >= 1
    decreases n
  {
    if n == 0 then 1 else 2 * Pow2(n - 1)
  }

  lemma {:induction false} Pow2Add(a: nat, b: nat)
    ensures Pow2(a + b) == Pow2(a) * Pow2(b)
    decreases a
  {
    if a > 0 {
      Pow2Add(a - 1, b);
      assert Pow2(a + b) == 2 * Pow2(a - 1 + b);
    }
  }

  lemma {:induction false} Pow2Monotone(a: nat, b: nat)
    requires a <= b
    ensures Pow2(a) <= Pow2(b)
    decreases b
  {
    if a < b {
      Pow2Monotone(a, b - 1);
    }
  }

  /** 2^256 and 2^255, written out so that the verifier never unrolls Pow2 on them. */
  const WordModulus: nat := 0x1_0000_0000_0000_0000_0000_0000_0000_0000_0000_0000_0000_0000_0000_0000_0000_0000
  const HalfWordModulus: nat := 0x8000_0000_0000_0000_0000_0000_0000_0000_0000_0000_0000_0000_0000_0000_0000_0000

  /** An unsigned 256-bit EVM word. */
  type Word = w: nat | w < WordModulus witness 0

  lemma WordModulusIsPow2()
    ensures Pow2(256) == WordModulus && Pow2(255) == HalfWordModulus
    ensures WordModulus == 2 * HalfWordModulus
  {
    assert Pow2(5) == 32;
    Pow2Add(5, 5); Pow2Add(10, 5); Pow2Add(15, 5);
    assert Pow2(20) == 0x10_0000;
    Pow2Add(20, 20); Pow2Add(40, 20); Pow2Add(60, 4);
    assert Pow2(64) == 0x1_0000_0000_0000_0000;
    assert Pow2(63) == 0x8000_0000_0000_0000 by { Pow2Add(60, 3); }
    Pow2Add(64, 64); Pow2Add(128, 127); Pow2Add(64, 63); Pow2Add(128, 128);
  }

  lemma MulNonNegative(a: int, b: int)
    requires a >= 0 && b >= 0
    ensures a * b >= 0
  {
  }

  lemma MulLeft(a: int, b: int, c: int)
    requires a <= b && c >= 0
    ensures a * c <= b * c
  {
    MulNonNegative(b - a, c);
    assert (b - a) * c == b * c - a * c;
  }

  /** x == q*m + r with 0 <= r < m pins down both the quotient and the remainder. */
  lemma DivModUnique(x: int, m: int, q: int, r: int)
    requires m > 0 && 0 <= r < m && x == q * m + r
    ensures x / m == q && x % m == r
  {
    var q', r' := x / m, x % m;
    if q' > q {
      MulNonNegative(q' - q - 1, m);
    } else if q' < q {
      MulNonNegative(q - q' - 1, m);
    }
  }

  /** An account address (its 20-byte value). */
  type Address = nat

  /** A storage slot: the owning account and the 256-bit index. */
  datatype StorageCell = StorageCell(address: Address, index: Word)

  /** ⌈n / 32⌉, the number of 32-byte words covering n bytes. */
  function Div32Ceiling(n: nat): (r: nat)
    ensures n <= 32 * r < n + 32
  {
    (n + 31) / 32
  }
}
