/** Base field element of Z_p, p = 2^64 - 2^32 + 1, in Montgomery form: the raw
    64-bit word w stands for w * 2^-64 mod p. Any u64 is a valid raw word,
    including words >= p (the S-box builds such words byte by byte), so every
    arithmetic law below is a congruence modulo p, with a bound < p stated
    only where it holds. */
module BField {
  import opened Goldilocks

  /** Structural equality is equality of raw words, as Rust's derived PartialEq. */
  datatype BFieldElement = BFieldElement(raw: u64)

  datatype Option<T> = None | Some(value: T)

  const BYTES: nat := 8
  const MAX: int := P - 1

  /** The integer a raw Montgomery word stands for: w * R^-1 mod p. */
  ghost function FromMontgomery(w: int): int
  {
    ModP(w * R2)
  }

  // ---------------------------------------------------------------------------
  // Montgomery reduction

  /** `xl.overflowing_add(xl << 32)`: xl * p^-1 mod 2^64 and the carry. */
  function MontyM(xl: u64): Overflowing
  {
    OverflowingAdd(xl, (xl * 0x1_0000_0000) % 0x1_0000_0000_0000_0000)
  }

  /** `a.wrapping_sub(a >> 32).wrapping_sub(e as u64)`. */
  function MontyB(xl: u64): u64
  {
    var Overflowing(a, e) := MontyM(xl);
    WrappingSub(WrappingSub(a, a / 0x1_0000_0000), BoolToU64(e))
  }

  /** `xh.overflowing_sub(b)` followed by the borrow correction by 2^32 - 1. */
  function MontyHigh(xh: u64, b: u64): u64
  {
    var Overflowing(r, c) := OverflowingSub(xh, b);
    WrappingSub(r, 0xffff_ffff * BoolToU64(c))
  }

  /** `montyred`: Montgomery reduction of a 128-bit integer. */
  function Montyred(x: u128): u64
  {
    var xl := x % 0x1_0000_0000_0000_0000;
    var xh := x / 0x1_0000_0000_0000_0000;
    MontyHigh(xh, MontyB(xl))
  }

  /** xl + (xl << 32) keeps the low 32 bits of xl, and its carry is e. */
  lemma MontyMFacts(xl: u64)
    ensures var Overflowing(a, e) := MontyM(xl);
            && a + (if e then R else 0) == xl + (xl % 0x1_0000_0000) * 0x1_0000_0000
            && a == (a / 0x1_0000_0000) * 0x1_0000_0000 + xl % 0x1_0000_0000
  {
    var lo := xl % 0x1_0000_0000;
    var hi := xl / 0x1_0000_0000;
    DivMod64(xl * 0x1_0000_0000, hi, lo * 0x1_0000_0000);
    var Overflowing(a, e) := MontyM(xl);
    var et := if e then 1 else 0;
    assert a + et * R == xl + lo * 0x1_0000_0000;
    DivMod32(a, hi + lo - et * 0x1_0000_0000, lo);
  }

  lemma MontyLowArith(xl: int, lo: int, hi: int, a: int, ah: int, et: int)
    requires xl == hi * 0x1_0000_0000 + lo && 0 <= lo < 0x1_0000_0000 && 0 <= xl < R
    requires a + et * R == xl + lo * 0x1_0000_0000 && 0 <= a < R && 0 <= et <= 1
    requires a == ah * 0x1_0000_0000 + lo
    ensures (a - ah - et) * R == a * P - xl
    ensures 0 <= a - ah && 0 <= a - ah - et < P
  {
  }

  /** With m = xl * p^-1 mod 2^64, b is exactly (m * p - xl) / 2^64, and b < p. */
  lemma MontyLow(xl: u64)
    ensures MontyB(xl) * R == MontyM(xl).value * P - xl
    ensures MontyB(xl) < P
  {
    MontyMFacts(xl);
    var Overflowing(a, e) := MontyM(xl);
    var et := if e then 1 else 0;
    var ah := a / 0x1_0000_0000;
    MontyLowArith(xl, xl % 0x1_0000_0000, xl / 0x1_0000_0000, a, ah, et);
    WrappingSubNoBorrow(a, ah);
    WrappingSubNoBorrow(a - ah, et);
  }

  lemma MontyHighIs(xh: u64, b: u64)
    requires b < P
    ensures MontyHigh(xh, b) == if xh < b then xh - b + P else xh - b
  {
  }

  lemma MontyHighArith(x: int, xh: int, xl: int, b: int, m: int)
    requires x == xh * R + xl && 0 <= xl < R && 0 <= xh < R
    requires b * R == m * P - xl && 0 <= b < P
    ensures var res := if xh < b then xh - b + P else xh - b;
            Cong(res * R, x) && (xh < P ==> res < P)
  {
    var c := xh < b;
    var res := if c then xh - b + P else xh - b;
    assert res * R == x + (if c then R - m else -m) * P;
    ModAddMultiple(x, if c then R - m else -m);
  }

  /** `montyred(x)` times 2^64 is congruent to x for every 128-bit x, and the
      result is canonical (< p) when x < p * 2^64. */
  lemma MontyredCorrect(x: u128)
    ensures Cong(Montyred(x) * R, x)
    ensures x < P * R ==> Montyred(x) < P
  {
    var xl := x % 0x1_0000_0000_0000_0000;
    var xh := x / 0x1_0000_0000_0000_0000;
    MontyLow(xl);
    var b := MontyB(xl);
    MontyHighIs(xh, b);
    MontyHighArith(x, xh, xl, b, MontyM(xl).value);
  }

  // ---------------------------------------------------------------------------
  // Conversions

  lemma MontgomeryIn(v: u64)
    ensures Montyred(v * 0xffff_fffe_0000_0001) < P
    ensures Cong(Montyred(v * 0xffff_fffe_0000_0001), v * R)
  {
    var m := Montyred(v * 0xffff_fffe_0000_0001);
    MontyredCorrect(v * 0xffff_fffe_0000_0001);
    assert Cong(R2, R * R);
    CongMul(v, v, R2, R * R);
    assert v * (R * R) == (v * R) * R;
    CancelR(m, v * R);
  }

  /** `new`: the Montgomery form of v, always a canonical word. */
  function New(v: u64): (e: BFieldElement)
    ensures e.raw < P
  {
    MontgomeryIn(v);
    BFieldElement(Montyred(v * 0xffff_fffe_0000_0001))
  }

  /** The raw word of `new(v)` is v * 2^64 modulo p. */
  lemma NewCong(v: u64)
    ensures Cong(New(v).raw, v * R)
  {
    MontgomeryIn(v);
  }

  lemma MontgomeryOut(w: u64)
    ensures Montyred(w) < P
    ensures Montyred(w) == FromMontgomery(w)
  {
    var v := Montyred(w);
    MontyredCorrect(w);
    RadixFacts();
    CongMul(v * R, w, R2, R2);
    assert v * R * R2 == v * (R * R2);
    CongMul(v, v, R * R2, 1);
  }

  /** `value` / `canonical_representation`: the raw word reduced out of
      Montgomery form, an integer in [0, p). */
  function Value(e: BFieldElement): (v: nat)
    ensures v < P
  {
    MontgomeryOut(e.raw);
    Montyred(e.raw)
  }

  /** The canonical value is the integer the raw word stands for, w * 2^-64 mod p. */
  lemma ValueSpec(e: BFieldElement)
    ensures Value(e) == FromMontgomery(e.raw)
  {
    MontgomeryOut(e.raw);
  }

  /** ZERO and ONE are `new(0)` and `new(1)`, written out as their raw
      words (see ZeroIsNew and OneIsNew). */
  const ZERO: BFieldElement := BFieldElement(0)
  const ONE: BFieldElement := BFieldElement(0xffff_ffff)

  /** `is_zero` / `is_one` compare raw words with those of ZERO and ONE. */
  function IsZero(e: BFieldElement): bool
  {
    e == ZERO
  }

  function IsOne(e: BFieldElement): bool
  {
    e == ONE
  }

  /** `raw_u64` and `from_raw_u64` expose the raw word unchanged. */
  function RawU64(e: BFieldElement): u64
  {
    e.raw
  }

  function FromRawU64(w: u64): BFieldElement
  {
    BFieldElement(w)
  }

  // ---------------------------------------------------------------------------
  // Arithmetic

  /** `add`: a + b = a - (p - b), corrected once by p on borrow. The source
      computes `P - rhs.0` first, which needs rhs.0 <= p. */
  function Add(a: BFieldElement, b: BFieldElement): (r: BFieldElement)
    requires b.raw <= P
    ensures a.raw < P && b.raw < P ==> r.raw < P
  {
    var Overflowing(x1, c1) := OverflowingSub(a.raw, P - b.raw);
    if c1 then BFieldElement(WrappingAdd(x1, P)) else BFieldElement(x1)
  }

  /** The raw word of a sum is congruent to the sum of the raw words. */
  lemma AddCong(a: BFieldElement, b: BFieldElement)
    requires b.raw <= P
    ensures Cong(Add(a, b).raw, a.raw + b.raw)
  {
    var Overflowing(x1, c1) := OverflowingSub(a.raw, P - b.raw);
    if c1 {
      assert x1 == a.raw + b.raw - P + R;
      assert Add(a, b).raw == a.raw + b.raw;
    } else {
      assert Add(a, b).raw == a.raw + b.raw - P;
      ModAddMultiple(a.raw + b.raw, -1);
    }
  }

  lemma NotCongShiftedByR(x: int)
    ensures !Cong(x + R, x)
  {
    ModAddMultiple(x + 0xffff_ffff, 1);
    ModShiftNonzero(x, 0xffff_ffff);
  }

  lemma SubCases(a: u64, b: u64)
    ensures var Overflowing(x1, c1) := OverflowingSub(a, b);
            var res := WrappingSub(x1, 0xffff_ffff * BoolToU64(c1));
            && (Cong(res, a - b) <==> b <= a + P)
            && (a < P && b < P ==> res < P)
  {
    var Overflowing(x1, c1) := OverflowingSub(a, b);
    var res := WrappingSub(x1, 0xffff_ffff * BoolToU64(c1));
    if !c1 {
      assert res == a - b;
    } else if x1 >= R - P {
      assert res == a - b + P;
      ModAddMultiple(a - b, 1);
    } else {
      assert res == a - b + P + R;
      ModAddMultiple(a - b + R, 1);
      NotCongShiftedByR(a - b);
    }
  }

  /** `sub`: on borrow the word is lowered by 2^32 - 1, i.e. raised by p
      modulo 2^64. */
  function Sub(a: BFieldElement, b: BFieldElement): (r: BFieldElement)
    ensures a.raw < P && b.raw < P ==> r.raw < P
  {
    var Overflowing(x1, c1) := OverflowingSub(a.raw, b.raw);
    SubCases(a.raw, b.raw);
    BFieldElement(WrappingSub(x1, 0xffff_ffff * BoolToU64(c1)))
  }

  /** The raw word of a difference is congruent to the difference of the raw
      words exactly when the borrow correction does not wrap a second time,
      that is when b <= a + p. */
  lemma SubCong(a: BFieldElement, b: BFieldElement)
    ensures Cong(Sub(a, b).raw, a.raw - b.raw) <==> b.raw <= a.raw + P
  {
    SubCases(a.raw, b.raw);
  }

  /** `neg`: zero minus a. */
  function Neg(a: BFieldElement): BFieldElement
  {
    Sub(ZERO, a)
  }

  lemma MulMono(x: int, y: int, z: int)
    requires 0 <= x && y <= z
    ensures x * y <= x * z
  {
  }

  /** Products of raw words fit in 128 bits, and of canonical words below p * 2^64. */
  lemma MulBound(a: u64, b: u64)
    ensures a * b < 0x1_0000_0000_0000_0000_0000_0000_0000_0000
    ensures a < P && b < P ==> a * b < P * R
  {
    MulMono(a, b, 0xffff_ffff_ffff_ffff);
    MulMono(0xffff_ffff_ffff_ffff, a, 0xffff_ffff_ffff_ffff);
    if a < P && b < P {
      MulMono(a, b, 0xffff_ffff_0000_0000);
      MulMono(0xffff_ffff_0000_0000, a, 0xffff_ffff_0000_0000);
    }
  }

  /** `mul`: Montgomery reduction of the product of the raw words. */
  function Mul(a: BFieldElement, b: BFieldElement): (r: BFieldElement)
    ensures a.raw < P && b.raw < P ==> r.raw < P
  {
    MulBound(a.raw, b.raw);
    MontyredCorrect(a.raw * b.raw);
    BFieldElement(Montyred(a.raw * b.raw))
  }

  /** The raw word of a product times 2^64 is congruent to the product of the raw words. */
  lemma MulCong(a: BFieldElement, b: BFieldElement)
    ensures Cong(Mul(a, b).raw * R, a.raw * b.raw)
  {
    MulBound(a.raw, b.raw);
    var x: u128 := a.raw * b.raw;
    MontyredCorrect(x);
    assert Mul(a, b).raw == Montyred(x);
  }

  function Square(a: BFieldElement): BFieldElement
  {
    Mul(a, a)
  }

  /** The inner `exp` of `inverse`: squares `base` `exponent` times. */
  method Exp(base: BFieldElement, exponent: u64) returns (res: BFieldElement)
    ensures Value(res) == ModP(Pow(Value(base), Pow2(exponent)))
    ensures base.raw < P ==> res.raw < P
  {
    res := base;
    var i: u64 := 0;
    PowOne(base);
    while i < exponent
      invariant i <= exponent
      invariant Value(res) == ModP(Pow(Value(base), Pow2(i)))
      invariant base.raw < P ==> res.raw < P
    {
      ghost var prev := res;
      res := Mul(res, res);
      SquarePow(prev, Value(base), i);
      i := i + 1;
    }
  }

  /** `inverse`: the addition chain for x^(p - 2). The source panics when
      the raw word equals ZERO's; that is the `None` result. The check
      compares raw words, so the non-canonical zero with raw word p passes
      it (and yields an element of value 0). */
  method Inverse(x: BFieldElement) returns (r: Option<BFieldElement>)
    ensures r.None? <==> x == ZERO
    ensures r.Some? ==> Value(r.value) == ModP(Pow(Value(x), P - 2))
    ensures r.Some? && x.raw < P ==> r.value.raw < P
  {
    if x == ZERO {
      return None;
    }
    ghost var v := Value(x);
    PowOne(x);
    var bin2Ones := SquareThenMul(x, x, v, 1);
    var bin3Ones := SquareThenMul(bin2Ones, x, v, 3);
    var bin6Ones := ExpThenMul(bin3Ones, 3, bin3Ones, v, 7, 7, 56);
    var bin12Ones := ExpThenMul(bin6Ones, 6, bin6Ones, v, 63, 63, 63 * 64);
    var bin24Ones := ExpThenMul(bin12Ones, 12, bin12Ones, v, 0xfff, 0xfff, 0xfff * 0x1000);
    var bin30Ones := ExpThenMul(bin24Ones, 6, bin6Ones, v, 0xff_ffff, 63, 0xff_ffff * 64);
    var bin31Ones := SquareThenMul(bin30Ones, x, v, 0x3fff_ffff);
    var bin31Ones1Zero := Square(bin31Ones);
    MulPow(bin31Ones, bin31Ones, v, 0x7fff_ffff, 0x7fff_ffff);
    var bin32Ones := SquareThenMul(bin31Ones, x, v, 0x7fff_ffff);
    Pow2Of32();
    var inv := ExpThenMul(bin31Ones1Zero, 32, bin32Ones, v, 0xffff_fffe, 0xffff_ffff, 0xffff_fffe * 0x1_0000_0000);
    r := Some(inv);
  }

  /** One `a.square() * x` step of the chain: v^k becomes v^(2k + 1). */
  method SquareThenMul(a: BFieldElement, x: BFieldElement, ghost v: int, ghost k: nat) returns (r: BFieldElement)
    requires Value(a) == ModP(Pow(v, k)) && Value(x) == ModP(Pow(v, 1))
    ensures Value(r) == ModP(Pow(v, 2 * k + 1))
    ensures a.raw < P && x.raw < P ==> r.raw < P
  {
    r := Mul(Square(a), x);
    SquareTimes(a, x, v, k);
  }

  /** One `exp(a, n) * b` step of the chain: with a = v^ka and b = v^kb the
      result is v^(m + kb), where m = ka * 2^n. */
  method ExpThenMul(a: BFieldElement, n: u64, b: BFieldElement, ghost v: int, ghost ka: nat, ghost kb: nat, ghost m: nat) returns (r: BFieldElement)
    requires Value(a) == ModP(Pow(v, ka)) && Value(b) == ModP(Pow(v, kb)) && m == ka * Pow2(n)
    ensures Value(r) == ModP(Pow(v, m + kb))
    ensures a.raw < P && b.raw < P ==> r.raw < P
  {
    var t := Exp(a, n);
    r := Mul(t, b);
    ExpTimes(a, t, b, v, ka, n, kb, m);
  }

  /** `div`: `other.inverse() * self`; fails exactly when `inverse` does. */
  method Div(a: BFieldElement, b: BFieldElement) returns (r: Option<BFieldElement>)
    ensures r.None? <==> b == ZERO
    ensures r.Some? ==> Value(r.value) == ModP(Pow(Value(b), P - 2) * Value(a))
    ensures r.Some? && a.raw < P && b.raw < P ==> r.value.raw < P
  {
    var inv := Inverse(b);
    if inv.None? {
      return None;
    }
    r := Some(Mul(inv.value, a));
    MulValue(inv.value, a);
    ModMulLeft(Pow(Value(b), P - 2), Value(a));
  }

  // ---------------------------------------------------------------------------
  // Raw byte layout

  function Pow256(n: nat): (r: nat)
    ensures r >= 1
  {
    if n == 0 then 1 else 256 * Pow256(n - 1)
  }

  /** The n little-endian bytes of w (its low n bytes when w is wider). */
  function ToLeBytes(w: nat, n: nat): (bs: seq<u8>)
    ensures |bs| == n
  {
    if n == 0 then [] else [w % 256] + ToLeBytes(w / 256, n - 1)
  }

  /** The integer whose little-endian bytes are bs. */
  function FromLeBytes(bs: seq<u8>): (w: nat)
    ensures w < Pow256(|bs|)
  {
    if bs == [] then 0 else bs[0] + 256 * FromLeBytes(bs[1..])
  }

  lemma {:induction false} FromToLeBytes(w: nat, n: nat)
    requires w < Pow256(n)
    ensures FromLeBytes(ToLeBytes(w, n)) == w
  {
    if n > 0 {
      FromToLeBytes(w / 256, n - 1);
      assert ToLeBytes(w, n)[1..] == ToLeBytes(w / 256, n - 1);
    }
  }

  lemma {:induction false} ToFromLeBytes(bs: seq<u8>)
    ensures ToLeBytes(FromLeBytes(bs), |bs|) == bs
  {
    if bs != [] {
      ToFromLeBytes(bs[1..]);
      var w := FromLeBytes(bs);
      assert w % 256 == bs[0];
      assert w / 256 == FromLeBytes(bs[1..]);
    }
  }

  lemma Pow256Eight()
    ensures Pow256(BYTES) == R
  {
  }

  /** `raw_bytes`: the little-endian bytes of the raw Montgomery word. */
  function RawBytes(e: BFieldElement): (bs: seq<u8>)
    ensures |bs| == BYTES
  {
    ToLeBytes(e.raw, BYTES)
  }

  /** `from_raw_bytes`: the element whose raw word has these little-endian
      bytes; no conversion into Montgomery form. */
  function FromRawBytes(bs: seq<u8>): (e: BFieldElement)
    requires |bs| == BYTES
    ensures RawBytes(e) == bs
  {
    Pow256Eight();
    ToFromLeBytes(bs);
    BFieldElement(FromLeBytes(bs))
  }

  lemma FromRawBytesRoundTrip(e: BFieldElement)
    ensures FromRawBytes(RawBytes(e)) == e
  {
    Pow256Eight();
    FromToLeBytes(e.raw, BYTES);
  }

  lemma RawU64RoundTrip(e: BFieldElement, w: u64)
    ensures FromRawU64(RawU64(e)) == e
    ensures RawU64(FromRawU64(w)) == w
  {
  }

  // ---------------------------------------------------------------------------
  // Laws and known vectors

  /** The source's Montgomery reduction test vector. */
  lemma MontyredVector()
    ensures Montyred(2_609_026_890_597_981_882) == 11_259_563_268_822_605_859
  {
    MontyredVectorLow();
  }

  lemma MontyredVectorLow()
    ensures MontyB(0x2435_2022_3f88_deba) == 0x63bd_fedb_dbca_dfde
  {
    MontyredVectorM();
  }

  lemma MontyredVectorM()
    ensures MontyM(0x2435_2022_3f88_deba) == Overflowing(0x63bd_fedc_3f88_deba, false)
  {
    DivMod64(0x2435_2022_3f88_deba * 0x1_0000_0000, 0x2435_2022, 0x3f88_deba_0000_0000);
  }

  /** The source's Montgomery conversion test vector. */
  lemma NewVector()
    ensures New(12_045_832_659_793_544_965).raw == 9_712_864_734_344_745_984
  {
    DivMod64(12_045_832_659_793_544_965 * 0xffff_fffe_0000_0001, 0xa72b_64fa_3874_3d0e, 0x9995_56f1_86cb_0705);
    NewVectorLow();
  }

  lemma NewVectorLow()
    ensures MontyB(0x9995_56f1_86cb_0705) == 0x2060_5df6_666a_a90e
  {
    NewVectorM();
  }

  lemma NewVectorM()
    ensures MontyM(0x9995_56f1_86cb_0705) == Overflowing(0x2060_5df6_86cb_0705, true)
  {
    DivMod64(0x9995_56f1_86cb_0705 * 0x1_0000_0000, 0x9995_56f1, 0x86cb_0705_0000_0000);
    DivMod64(0x9995_56f1_86cb_0705 + 0x86cb_0705_0000_0000, 1, 0x2060_5df6_86cb_0705);
  }

  /** ... and its round trip through `value`. */
  lemma NewVectorValue()
    ensures Value(New(12_045_832_659_793_544_965)) == 12_045_832_659_793_544_965
  {
    NewValueCanonical(12_045_832_659_793_544_965);
  }

  lemma ZeroIsNew()
    ensures New(0) == ZERO
  {
    assert MontyB(0) == 0;
  }

  lemma OneIsNewLow()
    ensures MontyM(0xffff_fffe_0000_0001) == Overflowing(0xffff_ffff_0000_0001, false)
  {
  }

  lemma OneIsNew()
    ensures New(1) == ONE
  {
    OneIsNewLow();
  }

  lemma ZeroValue()
    ensures Value(ZERO) == 0
  {
    assert MontyB(0) == 0;
  }

  lemma OneValueLow()
    ensures MontyM(0xffff_ffff) == Overflowing(0xffff_ffff_ffff_ffff, false)
  {
  }

  lemma OneValue()
    ensures Value(ONE) == 1
  {
    OneValueLow();
  }

  lemma IsZeroIsRawCheck(e: BFieldElement)
    ensures IsZero(e) <==> e.raw == 0
    ensures IsOne(e) <==> e.raw == 0xffff_ffff
  {
  }

  lemma NewValueArith(w: int, v: int)
    requires Cong(w, v * R)
    ensures ModP(w * R2) == ModP(v)
  {
    RadixFacts();
    CongMul(w, v * R, R2, R2);
    assert v * R * R2 == v * (R * R2);
    CongMul(v, v, R * R2, 1);
  }

  /** Round trip: the canonical value of `new(v)` is v reduced mod p. */
  lemma NewValue(v: u64)
    ensures Value(New(v)) == ModP(v)
  {
    NewCong(v);
    ValueSpec(New(v));
    NewValueArith(New(v).raw, v);
  }

  lemma NewValueCanonical(v: u64)
    requires v < P
    ensures Value(New(v)) == v
  {
    NewValue(v);
    ModSmall(v);
  }

  lemma CanonicalUnique(x: int, y: int)
    requires 0 <= x < P && 0 <= y < P
    requires ModP(x * R2) == ModP(y * R2)
    ensures x == y
  {
    RadixFacts();
    CongMul(x * R2, y * R2, R, R);
    assert x * R2 * R == x * (R * R2);
    assert y * R2 * R == y * (R * R2);
    CongMul(x, x, R * R2, 1);
    CongMul(y, y, R * R2, 1);
  }

  /** Canonical words are equal exactly when their values are. */
  lemma ValueInjective(a: BFieldElement, b: BFieldElement)
    requires a.raw < P && b.raw < P
    ensures Value(a) == Value(b) <==> a == b
  {
    ValueSpec(a);
    ValueSpec(b);
    if Value(a) == Value(b) {
      CanonicalUnique(a.raw, b.raw);
    }
  }

  /** The other round trip: `new(value())` gives back a canonical element. */
  lemma NewOfValue(e: BFieldElement)
    requires e.raw < P
    ensures New(Value(e)) == e
  {
    NewValueCanonical(Value(e));
    ValueInjective(New(Value(e)), e);
  }

  lemma AddValueArith(s: int, x: int, y: int)
    requires Cong(s, x + y)
    ensures ModP(s * R2)
         == ModP(ModP(x * R2) + ModP(y * R2))
  {
    CongMul(s, x + y, R2, R2);
    assert (x + y) * R2 == x * R2 + y * R2;
    CongAdd(x * R2, ModP(x * R2), y * R2, ModP(y * R2));
  }

  /** Addition is addition of canonical values mod p. */
  lemma AddValue(a: BFieldElement, b: BFieldElement)
    requires b.raw <= P
    ensures Value(Add(a, b)) == ModP(Value(a) + Value(b))
  {
    AddCong(a, b);
    ValueSpec(a);
    ValueSpec(b);
    ValueSpec(Add(a, b));
    AddValueArith(Add(a, b).raw, a.raw, b.raw);
  }

  lemma SubValueArith(s: int, x: int, y: int)
    requires Cong(s, x - y)
    ensures ModP(s * R2)
         == ModP(ModP(x * R2) - ModP(y * R2))
  {
    CongMul(s, x - y, R2, R2);
    assert (x - y) * R2 == x * R2 - y * R2;
    CongSub(x * R2, ModP(x * R2), y * R2, ModP(y * R2));
  }

  /** Subtraction is subtraction of canonical values mod p, when b <= a + p. */
  lemma SubValue(a: BFieldElement, b: BFieldElement)
    requires b.raw <= a.raw + P
    ensures Value(Sub(a, b)) == ModP(Value(a) - Value(b))
  {
    SubCong(a, b);
    ValueSpec(a);
    ValueSpec(b);
    ValueSpec(Sub(a, b));
    SubValueArith(Sub(a, b).raw, a.raw, b.raw);
  }

  /** `neg` gives the additive inverse, for raw words up to p. */
  lemma NegValue(a: BFieldElement)
    requires a.raw <= P
    ensures Value(Neg(a)) == ModP(P - Value(a))
    ensures a.raw < P ==> Neg(a).raw < P
  {
    ZeroValue();
    SubValue(ZERO, a);
    NegArith(Value(a));
  }

  lemma NegArith(x: int)
    ensures ModP(0 - x) == ModP(P - x)
  {
    ModAddMultiple(0 - x, 1);
  }

  lemma AddNegIsZero(a: BFieldElement)
    requires a.raw < P
    ensures Value(Add(a, Neg(a))) == 0
  {
    NegValue(a);
    AddValue(a, Neg(a));
    AddNegArith(Value(a));
  }

  lemma AddNegArith(x: int)
    requires 0 <= x < P
    ensures ModP(x + ModP(P - x)) == 0
  {
    if x == 0 {
      ModAddMultiple(0, 1);
    }
  }

  lemma MulValueArith(m: int, ar: int, br: int)
    requires Cong(m * R, ar * br)
    ensures ModP(m * R2)
         == ModP(ModP(ar * R2) * ModP(br * R2))
  {
    RadixFacts();
    CongMul(m * R, ar * br, R2, R2);
    assert m * R * R2 == m * (R * R2);
    CongMul(m, m, R * R2, 1);
    CongMul(m, ar * br * R2, R2, R2);
    assert ar * br * R2 * R2 == (ar * R2) * (br * R2);
    CongMul(ar * R2, ModP(ar * R2), br * R2, ModP(br * R2));
  }

  /** Multiplication is multiplication of canonical values mod p. */
  lemma MulValue(a: BFieldElement, b: BFieldElement)
    ensures Value(Mul(a, b)) == ModP(Value(a) * Value(b))
  {
    MulCong(a, b);
    ValueSpec(a);
    ValueSpec(b);
    ValueSpec(Mul(a, b));
    MulValueArith(Mul(a, b).raw, a.raw, b.raw);
  }

  lemma PowOne(x: BFieldElement)
    ensures Value(x) == ModP(Pow(Value(x), 1))
  {
    PowOneArith(Value(x));
  }

  lemma PowOneArith(y: int)
    requires 0 <= y < P
    ensures y == ModP(Pow(y, 1))
  {
    assert Pow(y, 1) == y * Pow(y, 0);
    ModSmall(y);
  }

  lemma PowProduct(va: int, vb: int, v: int, e1: nat, e2: nat)
    requires va == ModP(Pow(v, e1))
    requires vb == ModP(Pow(v, e2))
    ensures ModP(va * vb) == ModP(Pow(v, e1 + e2))
  {
    CongMul(va, Pow(v, e1), vb, Pow(v, e2));
    PowAdd(v, e1, e2);
  }

  /** The value of a product of two powers of v is the power with the summed exponent. */
  lemma MulPow(a: BFieldElement, b: BFieldElement, v: int, e1: nat, e2: nat)
    requires Value(a) == ModP(Pow(v, e1))
    requires Value(b) == ModP(Pow(v, e2))
    ensures Value(Mul(a, b)) == ModP(Pow(v, e1 + e2))
  {
    MulValue(a, b);
    PowProduct(Value(a), Value(b), v, e1, e2);
  }

  /** Squaring doubles the exponent: from v^(2^i) to v^(2^(i+1)). */
  lemma SquarePow(a: BFieldElement, v: int, i: nat)
    requires Value(a) == ModP(Pow(v, Pow2(i)))
    ensures Value(Mul(a, a)) == ModP(Pow(v, Pow2(i + 1)))
  {
    MulPow(a, a, v, Pow2(i), Pow2(i));
    assert Pow2(i + 1) == Pow2(i) + Pow2(i);
  }

  /** One `square() * x` step of the chain: v^k becomes v^(2k + 1). */
  lemma SquareTimes(a: BFieldElement, x: BFieldElement, v: int, k: nat)
    requires Value(a) == ModP(Pow(v, k))
    requires Value(x) == ModP(Pow(v, 1))
    ensures Value(Mul(Square(a), x)) == ModP(Pow(v, 2 * k + 1))
  {
    MulPow(a, a, v, k, k);
    MulPow(Square(a), x, v, k + k, 1);
  }

  /** One `exp(a, n) * b` step of the chain: with a = v^ka and b = v^kb the
      result is v^(m + kb), where m = ka * 2^n. */
  lemma ExpTimes(a: BFieldElement, t: BFieldElement, b: BFieldElement, v: int, ka: nat, n: nat, kb: nat, m: nat)
    requires Value(a) == ModP(Pow(v, ka))
    requires Value(t) == ModP(Pow(Value(a), Pow2(n)))
    requires Value(b) == ModP(Pow(v, kb))
    requires m == ka * Pow2(n)
    ensures Value(Mul(t, b)) == ModP(Pow(v, m + kb))
  {
    MulValue(t, b);
    PowPower(Value(a), Value(t), v, ka, Pow2(n), m);
    PowProduct(Value(t), Value(b), v, m, kb);
  }

  lemma PowPower(vb: int, w: int, v: int, e: nat, n: nat, m: nat)
    requires vb == ModP(Pow(v, e))
    requires w == ModP(Pow(vb, n))
    requires m == e * n
    ensures w == ModP(Pow(v, m))
  {
    ModTwice(Pow(v, e));
    PowCong(vb, Pow(v, e), n);
    PowMul(v, e, n);
  }

}
