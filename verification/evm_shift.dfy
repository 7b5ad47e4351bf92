/** The EIP-145 shift instructions SHL, SHR and SAR on 256-bit words. The shift amount is
    the first operand popped (`a`), the value the second (`b`). */
module EvmShift {

  import opened Prelude

  /** The two's-complement reading of a word. */
  function ToSigned(w: Word): (x: int)
    ensures -(HalfWordModulus as int) <= x < HalfWordModulus
    ensures (x >= 0) == (w < HalfWordModulus)
  {
    WordModulusIsPow2();
    if w < HalfWordModulus then w else w - WordModulus
  }

  /** The word whose two's-complement reading is `x`. */
  function FromSigned(x: int): (w: Word)
    requires -(HalfWordModulus as int) <= x < HalfWordModulus
    ensures ToSigned(w) == x
  {
    WordModulusIsPow2();
    if x >= 0 then x else x + WordModulus
  }

  lemma SignedRoundTrip(w: Word)
    ensures FromSigned(ToSigned(w)) == w
  {
    WordModulusIsPow2();
  }

  /** SHL: zero for shifts of 256 or more, otherwise b·2^a with the bits beyond 256 dropped:
      the low 256-a bits of b moved up by a places, with the low a bits of the result clear. */
  function Shl(a: Word, b: Word): (r: Word)
    ensures a >= 256 ==> r == 0
    ensures a < 256 && b * Pow2(a) < WordModulus ==> r == b * Pow2(a)
    ensures a < 256 ==> r == (b % Pow2(256 - a)) * Pow2(a)
    ensures a < 256 ==> r % Pow2(a) == 0
  {
    if a >= 256 then 0
    else
      var p := b * Pow2(a);
      MulNonNegative(b, Pow2(a));
      Pow2Add(256 - a, a);
      WordModulusIsPow2();
      MulModMultiple(b, Pow2(256 - a), Pow2(a));
      DivModUnique((b % Pow2(256 - a)) * Pow2(a), Pow2(a), b % Pow2(256 - a), 0);
      if p < WordModulus then
        DivModUnique(p, WordModulus, 0, p);
        p % WordModulus
      else
        p % WordModulus
  }

  /** SHR: zero for shifts of 256 or more, otherwise b divided by 2^a, rounded down. */
  function Shr(a: Word, b: Word): (r: Word)
    ensures r <= b
    ensures a >= 256 ==> r == 0
    ensures a < 256 ==> r * Pow2(a) <= b < (r + 1) * Pow2(a)
  {
    if a >= 256 then 0
    else
      FloorDiv(b, Pow2(a));
      b / Pow2(a)
  }

  /** Division by a positive divisor rounds towards -infinity and stays between 0 and the
      dividend. */
  lemma FloorDiv(x: int, d: int)
    requires d >= 1
    ensures x / d * d <= x < (x / d + 1) * d
    ensures x >= 0 ==> 0 <= x / d <= x
    ensures x < 0 ==> x <= x / d < 0
  {
    var q := x / d;
    assert x == q * d + x % d;
    assert (q + 1) * d == q * d + d;
    if x >= 0 {
      if q < 0 {
        MulLeft(q, -1, d);
      } else {
        MulLeft(1, d, q);
      }
    } else {
      if q >= 0 {
        MulNonNegative(q, d);
      } else if q < x {
        MulLeft(1, d, -(q + 1));
      }
    }
  }

  /** SAR: arithmetic shift; for shifts of 256 or more a non-negative value becomes 0 and a
      negative one -1, otherwise the signed value divided by 2^a, rounded towards -infinity. */
  function Sar(a: Word, b: Word): (r: Word)
    ensures a >= 256 && ToSigned(b) >= 0 ==> r == 0
    ensures a >= 256 && ToSigned(b) < 0 ==> ToSigned(r) == -1
    ensures a < 256 ==> ToSigned(r) * Pow2(a) <= ToSigned(b) < (ToSigned(r) + 1) * Pow2(a)
  {
    var x := ToSigned(b);
    if a >= 256 then
      (if x >= 0 then 0 else FromSigned(-1))
    else
      FloorDiv(x, Pow2(a));
      FromSigned(x / Pow2(a))
  }

  /** SAR agrees with SHR on values whose sign bit is clear. */
  lemma SarOfNonNegativeIsShr(a: Word, b: Word)
    requires b < HalfWordModulus
    ensures Sar(a, b) == Shr(a, b)
  {
  }

  /** SAR keeps the sign of its operand. */
  lemma SarPreservesSign(a: Word, b: Word)
    ensures (ToSigned(Sar(a, b)) < 0) == (ToSigned(b) < 0)
  {
    if a < 256 {
      FloorDiv(ToSigned(b), Pow2(a));
    }
  }

  /** Dividing by d1 and then by d2 is dividing by d1*d2. */
  lemma DivDiv(b: int, d1: int, d2: int)
    requires b >= 0 && d1 >= 1 && d2 >= 1
    ensures b / d1 / d2 == b / (d1 * d2)
  {
    var q1, r1 := b / d1, b % d1;
    var q2, r2 := q1 / d2, q1 % d2;
    assert b == q1 * d1 + r1;
    assert q1 == q2 * d2 + r2;
    assert b == q2 * (d1 * d2) + (r2 * d1 + r1) by {
      assert (q2 * d2 + r2) * d1 == q2 * d2 * d1 + r2 * d1;
      assert q2 * d2 * d1 == q2 * (d1 * d2);
    }
    MulLeft(r2, d2 - 1, d1);
    assert (d2 - 1) * d1 == d1 * d2 - d1;
    MulNonNegative(r2, d1);
    DivModUnique(b, d1 * d2, q2, r2 * d1 + r1);
  }

  /** Scaling by sh and reducing modulo lo*sh is reducing modulo lo and scaling by sh. */
  lemma MulModMultiple(b: int, lo: int, sh: int)
    requires b >= 0 && lo >= 1 && sh >= 1
    ensures (b * sh) % (lo * sh) == (b % lo) * sh
  {
    var m := lo * sh;
    var q, rr := b / lo, b % lo;
    assert b == q * lo + rr;
    assert b * sh == q * m + rr * sh by {
      assert (q * lo + rr) * sh == q * lo * sh + rr * sh;
      assert q * lo * sh == q * (lo * sh);
    }
    MulLeft(rr, lo - 1, sh);
    assert (lo - 1) * sh == m - sh;
    MulNonNegative(rr, sh);
    DivModUnique(b * sh, m, q, rr * sh);
  }

  /** Scaling by sh, reducing modulo lo*sh and dividing by sh again leaves b modulo lo. */
  lemma MulModDiv(b: int, lo: int, sh: int)
    requires b >= 0 && lo >= 1 && sh >= 1
    ensures (b * sh) % (lo * sh) / sh == b % lo
  {
    MulModMultiple(b, lo, sh);
    MulNonNegative(b % lo, sh);
    DivModUnique((b % lo) * sh, sh, b % lo, 0);
  }

  /** Shifting left and back right keeps the low 256-a bits: only the bits pushed past the
      top of the word are lost. */
  lemma ShrUndoesShl(a: Word, b: Word)
    requires a < 256
    ensures Shr(a, Shl(a, b)) == b % Pow2(256 - a)
  {
    Pow2Add(256 - a, a);
    WordModulusIsPow2();
    MulModDiv(b, Pow2(256 - a), Pow2(a));
  }

  /** Two right shifts compose into one by the sum of the amounts. */
  lemma ShrCompose(a1: Word, a2: Word, b: Word)
    requires a1 + a2 < 256
    ensures Shr(a2, Shr(a1, b)) == Shr(a1 + a2, b)
  {
    Pow2Add(a1, a2);
    DivDiv(b, Pow2(a1), Pow2(a2));
  }
}
