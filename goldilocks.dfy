/** Machine-integer widths and modular arithmetic modulo the Goldilocks prime
    p = 2^64 - 2^32 + 1, on which the field element model rests. */
module Goldilocks {

  /** The base field's prime, 2^64 - 2^32 + 1. */
  const P: int := 0xffff_ffff_0000_0001

  /** The Montgomery radix 2^64 (also the modulus of u64 wrap-around). */
  const R: int := 0x1_0000_0000_0000_0000

  /** 2^128 mod p, used to move integers into Montgomery form. Since
      R^3 == 1 (mod p), it is also the inverse of R modulo p. */
  const R2: int := 0xffff_fffe_0000_0001

  type u8 = x: int | 0 <= x < 0x100
  type u16 = x: int | 0 <= x < 0x1_0000
  type u64 = x: int | 0 <= x < 0x1_0000_0000_0000_0000
  type u128 = x: int | 0 <= x < 0x1_0000_0000_0000_0000_0000_0000_0000_0000

  /** What Rust's `overflowing_add` / `overflowing_sub` return: the wrapped
      result and whether the operation wrapped around. */
  datatype Overflowing = Overflowing(value: u64, wrapped: bool)

  /** Rust's `u64::overflowing_add`: the wrapped sum and whether it carried. */
  function OverflowingAdd(a: u64, b: u64): Overflowing
  {
    Overflowing((a + b) % 0x1_0000_0000_0000_0000, a + b >= R)
  }

  /** Rust's `u64::overflowing_sub`: the wrapped difference and whether it borrowed. */
  function OverflowingSub(a: u64, b: u64): Overflowing
  {
    Overflowing((a - b) % 0x1_0000_0000_0000_0000, a < b)
  }

  /** The carry of an addition of two words is the only wrap-around. */
  lemma OverflowingAddValue(a: u64, b: u64)
    ensures OverflowingAdd(a, b).wrapped <==> a + b >= R
    ensures OverflowingAdd(a, b).value == if a + b >= R then a + b - R else a + b
  {
    if a + b >= R {
      DivMod64(a + b, 1, a + b - R);
    } else {
      DivMod64(a + b, 0, a + b);
    }
  }

  function WrappingAdd(a: u64, b: u64): u64
  {
    (a + b) % 0x1_0000_0000_0000_0000
  }

  function WrappingSub(a: u64, b: u64): u64
  {
    (a - b) % 0x1_0000_0000_0000_0000
  }

  lemma WrappingSubNoBorrow(a: u64, b: u64)
    requires b <= a
    ensures WrappingSub(a, b) == a - b
  {
  }

  /** `b as u64` for a Rust `bool`. */
  function BoolToU64(b: bool): u64
  {
    if b then 1 else 0
  }

  /** Division with remainder is unique (for the two word widths used here). */
  lemma DivMod64(n: int, q: int, r: int)
    requires 0 <= r < 0x1_0000_0000_0000_0000 && n == q * 0x1_0000_0000_0000_0000 + r
    ensures n / 0x1_0000_0000_0000_0000 == q && n % 0x1_0000_0000_0000_0000 == r
  {
  }

  lemma DivMod32(n: int, q: int, r: int)
    requires 0 <= r < 0x1_0000_0000 && n == q * 0x1_0000_0000 + r
    ensures n / 0x1_0000_0000 == q && n % 0x1_0000_0000 == r
  {
  }

  /** The residue of x modulo p, in [0, p). The divisor is written as a
      literal rather than as P: the solver handles division by a literal
      far more cheaply than by a named constant, and so throughout. */
  function ModP(x: int): int
  {
    x % 0xffff_ffff_0000_0001
  }

  lemma ModSmall(x: int)
    requires 0 <= x < P
    ensures ModP(x) == x
  {
  }

  lemma ModTwice(x: int)
    ensures ModP(ModP(x)) == ModP(x)
  {
  }

  /** Adding a non-multiple of p changes the residue. */
  lemma ModShiftNonzero(x: int, d: int)
    requires 0 < d < P
    ensures ModP(x + d) != ModP(x)
  {
  }

  /** a and b are congruent modulo p. */
  ghost predicate Cong(a: int, b: int)
  {
    ModP(a) == ModP(b)
  }

  lemma ModAddMultiple(a: int, k: int)
    ensures ModP(a + k * P) == ModP(a)
  {
    var q := a / 0xffff_ffff_0000_0001;
    assert a == q * P + ModP(a);
    assert a + k * P == (q + k) * P + ModP(a);
  }

  /** Two integers with the same residue differ by a multiple of p. */
  lemma CongDiff(a: int, b: int)
    requires Cong(a, b)
    ensures a == b + (a / 0xffff_ffff_0000_0001 - b / 0xffff_ffff_0000_0001) * P
  {
  }

  lemma CongAdd(a: int, b: int, c: int, d: int)
    requires Cong(a, b) && Cong(c, d)
    ensures Cong(a + c, b + d)
  {
    CongDiff(a, b);
    CongDiff(c, d);
    var k1, k2 := a / 0xffff_ffff_0000_0001 - b / 0xffff_ffff_0000_0001, c / 0xffff_ffff_0000_0001 - d / 0xffff_ffff_0000_0001;
    assert a + c == b + d + (k1 + k2) * P;
    ModAddMultiple(b + d, k1 + k2);
  }

  lemma CongSub(a: int, b: int, c: int, d: int)
    requires Cong(a, b) && Cong(c, d)
    ensures Cong(a - c, b - d)
  {
    CongDiff(a, b);
    CongDiff(c, d);
    var k1, k2 := a / 0xffff_ffff_0000_0001 - b / 0xffff_ffff_0000_0001, c / 0xffff_ffff_0000_0001 - d / 0xffff_ffff_0000_0001;
    assert a - c == b - d + (k1 - k2) * P;
    ModAddMultiple(b - d, k1 - k2);
  }

  /** Reducing a factor first does not change a product's residue. */
  lemma ModMulLeft(x: int, y: int)
    ensures ModP(ModP(x) * y) == ModP(x * y)
  {
    CongMul(ModP(x), x, y, y);
  }

  lemma CongMul(a: int, b: int, c: int, d: int)
    requires Cong(a, b) && Cong(c, d)
    ensures Cong(a * c, b * d)
  {
    CongDiff(a, b);
    CongDiff(c, d);
    var k1, k2 := a / 0xffff_ffff_0000_0001 - b / 0xffff_ffff_0000_0001, c / 0xffff_ffff_0000_0001 - d / 0xffff_ffff_0000_0001;
    calc {
      a * c;
      (b + k1 * P) * (d + k2 * P);
      b * d + (b * k2 + k1 * d + k1 * k2 * P) * P;
    }
    ModAddMultiple(b * d, b * k2 + k1 * d + k1 * k2 * P);
  }

  /** R2 is the inverse of R, and R2 * R2 == R, modulo p. */
  lemma RadixFacts()
    ensures ModP(R * R2) == 1
    ensures ModP(R2 * R2) == ModP(R)
    ensures ModP(R) == 0xffff_ffff
  {
  }

  /** Multiplying a congruence by R can be undone. */
  lemma CancelR(x: int, y: int)
    requires Cong(x * R, y * R)
    ensures Cong(x, y)
  {
    RadixFacts();
    CongMul(x * R, y * R, R2, R2);
    assert x * R * R2 == x * (R * R2);
    assert y * R * R2 == y * (R * R2);
    CongMul(x, x, R * R2, 1);
    CongMul(y, y, R * R2, 1);
  }

  /** Natural-number exponentiation. */
  ghost function Pow(b: int, e: nat): int
    decreases e
  {
    if e == 0 then 1 else b * Pow(b, e - 1)
  }

  function Pow2(n: nat): (r: nat)
    ensures r >= 1
  {
    if n == 0 then 1 else 2 * Pow2(n - 1)
  }

  lemma {:induction false} Pow2Add(a: nat, b: nat)
    ensures Pow2(a + b) == Pow2(a) * Pow2(b)
    decreases a
  {
    if a > 0 {
      Pow2Add(a - 1, b);
    }
  }

  lemma Pow2Plus8(n: nat)
    ensures Pow2(n + 8) == 256 * Pow2(n)
  {
    assert Pow2(8) == 256;
    Pow2Add(8, n);
  }

  lemma Pow2Of32()
    ensures Pow2(32) == 0x1_0000_0000
  {
    Pow2Plus8(0);
    Pow2Plus8(8);
    Pow2Plus8(16);
    Pow2Plus8(24);
  }

  lemma {:induction false} PowAdd(b: int, e1: nat, e2: nat)
    ensures Pow(b, e1 + e2) == Pow(b, e1) * Pow(b, e2)
    decreases e1
  {
    if e1 > 0 {
      PowAdd(b, e1 - 1, e2);
      calc {
        Pow(b, e1 + e2);
        b * Pow(b, e1 - 1 + e2);
        b * (Pow(b, e1 - 1) * Pow(b, e2));
        (b * Pow(b, e1 - 1)) * Pow(b, e2);
      }
    }
  }

  lemma {:induction false} PowMul(b: int, e1: nat, e2: nat)
    ensures Pow(Pow(b, e1), e2) == Pow(b, e1 * e2)
    decreases e2
  {
    if e2 > 0 {
      PowMul(b, e1, e2 - 1);
      assert e1 * e2 == e1 + e1 * (e2 - 1);
      PowAdd(b, e1, e1 * (e2 - 1));
    }
  }

  lemma {:induction false} PowCong(a: int, b: int, e: nat)
    requires Cong(a, b)
    ensures Cong(Pow(a, e), Pow(b, e))
    decreases e
  {
    if e > 0 {
      PowCong(a, b, e - 1);
      CongMul(a, b, Pow(a, e - 1), Pow(b, e - 1));
    }
  }
}
