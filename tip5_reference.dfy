/** The Tip5 permutation and hash functions as functions on states: the
    byte-wise and power S-boxes, the circulant linear layer, the round
    constants, the seven rounds, and the sponge constructions built on them.
    The class in module Tip5 computes these in place. */
module Tip5Reference {
  import opened Goldilocks
  import opened BField
  import opened Sponge
  import opened Tip5Tables
  import D = Digest

  /** The sponge state `[BFieldElement; STATE_SIZE]`. */
  type State = s: seq<BFieldElement> | |s| == 16 witness seq(16, i => ZERO)

  // ---------------------------------------------------------------------------
  // Initial state

  /** `Tip5::new(domain)`: all ZERO, except that fixed-length hashing sets the
      capacity, words RATE..STATE_SIZE, to ONE. */
  function InitialState(domain: Domain): (s: State)
  {
    seq(16, i requires 0 <= i < 16 => if domain == FixedLength && i >= RATE then ONE else ZERO)
  }

  /** The rate starts at zero in both domains; the capacity is one for
      fixed-length hashing and zero for variable-length hashing, so the two
      domains start from different states. */
  lemma InitialStateLayout(domain: Domain)
    ensures forall i :: 0 <= i < RATE ==> IsZero(InitialState(domain)[i]) && Value(InitialState(domain)[i]) == 0
    ensures forall i :: RATE <= i < STATE_SIZE ==>
      (domain == FixedLength ==> IsOne(InitialState(domain)[i]) && Value(InitialState(domain)[i]) == 1)
    ensures forall i :: RATE <= i < STATE_SIZE ==>
      (domain == VariableLength ==> IsZero(InitialState(domain)[i]) && Value(InitialState(domain)[i]) == 0)
    ensures InitialState(FixedLength) != InitialState(VariableLength)
  {
    ZeroValue();
    OneValue();
    assert InitialState(FixedLength)[RATE] != InitialState(VariableLength)[RATE];
  }

  // ---------------------------------------------------------------------------
  // S-box layer

  /** Each byte replaced by its table entry. */
  function LookupBytes(bs: seq<u8>): (out: seq<u8>)
    ensures |out| == |bs|
  {
    if bs == [] then [] else [LookupTable(bs[0])] + LookupBytes(bs[1..])
  }

  lemma {:induction false} LookupBytesIndex(bs: seq<u8>)
    ensures forall k :: 0 <= k < |bs| ==> LookupBytes(bs)[k] == LookupTable(bs[k])
  {
    if bs != [] {
      LookupBytesIndex(bs[1..]);
    }
  }

  /** `split_and_lookup`: every little-endian byte of the raw word replaced by
      its table entry, with no conversion out of or into Montgomery form. */
  function SplitAndLookupSpec(e: BFieldElement): (r: BFieldElement)
  {
    FromRawBytes(LookupBytes(RawBytes(e)))
  }

  /** Byte k of the result is the table entry of byte k of the argument. */
  lemma SplitAndLookupBytes(e: BFieldElement)
    ensures forall k :: 0 <= k < BYTES ==> RawBytes(SplitAndLookupSpec(e))[k] == LookupTable(RawBytes(e)[k])
  {
    LookupBytesIndex(RawBytes(e));
  }

  /** Split-and-lookup is a permutation of raw words: it is injective. */
  lemma SplitAndLookupInjective(a: BFieldElement, b: BFieldElement)
    ensures SplitAndLookupSpec(a) == SplitAndLookupSpec(b) <==> a == b
  {
    if SplitAndLookupSpec(a) == SplitAndLookupSpec(b) {
      SplitAndLookupBytes(a);
      SplitAndLookupBytes(b);
      LookupTableIsCubeMap();
      forall k | 0 <= k < BYTES
        ensures RawBytes(a)[k] == RawBytes(b)[k]
      {
        assert LookupTable(RawBytes(a)[k]) == LookupTable(RawBytes(b)[k]);
        assert InverseLookupTable(LookupTable(RawBytes(a)[k])) == RawBytes(a)[k];
      }
      assert RawBytes(a) == RawBytes(b);
      FromRawBytesRoundTrip(a);
      FromRawBytesRoundTrip(b);
    }
  }

  /** The power map of lanes 4..15: x * (x^2 * x^4). */
  function Seventh(x: BFieldElement): (r: BFieldElement)
    ensures x.raw < P ==> r.raw < P
  {
    var sq := Mul(x, x);
    var qu := Mul(sq, sq);
    Mul(x, Mul(sq, qu))
  }

  lemma SeventhArith(v: int, a: int, b: int, c: int, d: int)
    requires a == ModP(v * v) && b == ModP(a * a) && c == ModP(a * b) && d == ModP(v * c)
    ensures d == ModP(Pow(v, 7))
  {
    assert Pow(v, 2) == v * v;
    ModTwice(v * v);
    CongMul(a, Pow(v, 2), a, Pow(v, 2));
    PowAdd(v, 2, 2);
    ModTwice(a * a);
    CongMul(a, Pow(v, 2), b, Pow(v, 4));
    PowAdd(v, 2, 4);
    ModTwice(a * b);
    CongMul(v, v, c, Pow(v, 6));
  }

  /** The power map is x^7 on canonical values. */
  lemma SeventhPower(x: BFieldElement)
    ensures Value(Seventh(x)) == ModP(Pow(Value(x), 7))
  {
    var sq := Mul(x, x);
    var qu := Mul(sq, sq);
    MulValue(x, x);
    MulValue(sq, sq);
    MulValue(sq, qu);
    MulValue(x, Mul(sq, qu));
    SeventhArith(Value(x), Value(sq), Value(qu), Value(Mul(sq, qu)), Value(Seventh(x)));
  }

  /** `sbox_layer`: split-and-lookup on words 0..3, the power map on the others. */
  function SboxSpec(s: State): (t: State)
  {
    seq(16, i requires 0 <= i < 16 => if i < NUM_SPLIT_AND_LOOKUP then SplitAndLookupSpec(s[i]) else Seventh(s[i]))
  }

  /** A state is the S-box output exactly when each word is. */
  lemma SboxSpecByWords(s: State, t: State)
    ensures t == SboxSpec(s) <==>
      (forall k :: 0 <= k < NUM_SPLIT_AND_LOOKUP ==> t[k] == SplitAndLookupSpec(s[k])) &&
      (forall k :: NUM_SPLIT_AND_LOOKUP <= k < STATE_SIZE ==> t[k] == Seventh(s[k]))
  {
  }

  /** Every word of the S-box output depends only on the same word of its
      input: byte-wise table lookup on words 0..3, x^7 on words 4..15. */
  lemma SboxLayerLaw(s: State, i: nat)
    requires i < STATE_SIZE
    ensures i < NUM_SPLIT_AND_LOOKUP ==>
      forall k :: 0 <= k < BYTES ==> RawBytes(SboxSpec(s)[i])[k] == LookupTable(RawBytes(s[i])[k])
    ensures i >= NUM_SPLIT_AND_LOOKUP ==> Value(SboxSpec(s)[i]) == ModP(Pow(Value(s[i]), 7))
  {
    if i >= NUM_SPLIT_AND_LOOKUP {
      SeventhPower(s[i]);
    } else {
      SplitAndLookupBytes(s[i]);
    }
  }

  // ---------------------------------------------------------------------------
  // Linear layer

  /** Entry (r, c) of the circulant matrix: the first column rotated down by c. */
  function MdsEntry(r: nat, c: nat): u16
    requires r < 16 && c < 16
  {
    MdsMatrixFirstColumn(if c <= r then r - c else r + 16 - c)
  }

  /** The sum over the first n columns c of MdsEntry(r, c) * v[c]. */
  function RowSum(v: seq<int>, r: nat, n: nat): int
    requires |v| == 16 && r < 16 && n <= 16
  {
    if n == 0 then 0 else RowSum(v, r, n - 1) + MdsEntry(r, n - 1) * v[n - 1]
  }

  lemma {:induction false} RowSumBound(v: seq<int>, r: nat, n: nat)
    requires |v| == 16 && r < 16 && n <= 16
    requires forall c :: 0 <= c < 16 ==> 0 <= v[c] < 0x1_0000_0000
    ensures 0 <= RowSum(v, r, n) <= n * 0xfffe_ffff_0001
  {
    if n > 0 {
      RowSumBound(v, r, n - 1);
      var m := MdsEntry(r, n - 1);
      MulMono(m, 0, v[n - 1]);
      MulMono(m, v[n - 1], 0xffff_ffff);
      MulMono(0xffff_ffff, m, 0xffff);
    }
  }

  function GeneratedEntry(v: seq<u64>, r: nat): (w: u64)
    requires |v| == 16 && r < 16
    requires forall c :: 0 <= c < 16 ==> v[c] < 0x1_0000_0000
    ensures w < 0x100_0000_0000_0000
  {
    RowSumBound(v, r, 16);
    16 * RowSum(v, r, 16)
  }

  /** `mds::generated_function`, whose body is not part of this model: taken
      to be sixteen times the circulant product of 32-bit halves, the factor
      `mds_generated` removes with its shift by 4. */
  function GeneratedFunction(v: seq<u64>): (w: seq<u64>)
    requires |v| == 16
    requires forall c :: 0 <= c < 16 ==> v[c] < 0x1_0000_0000
    ensures |w| == 16
    ensures forall r :: 0 <= r < 16 ==> w[r] < 0x100_0000_0000_0000 && w[r] == 16 * RowSum(v, r, 16)
  {
    seq(16, r requires 0 <= r < 16 => GeneratedEntry(v, r))
  }

  /** `b & 0xffffffff` and `b >> 32` of every raw word. */
  function LowHalves(s: State): (lo: seq<u64>)
    ensures |lo| == 16 && forall c :: 0 <= c < 16 ==> lo[c] < 0x1_0000_0000
  {
    seq(16, c requires 0 <= c < 16 => s[c].raw % 0x1_0000_0000)
  }

  function HighHalves(s: State): (hi: seq<u64>)
    ensures |hi| == 16 && forall c :: 0 <= c < 16 ==> hi[c] < 0x1_0000_0000
  {
    seq(16, c requires 0 <= c < 16 => s[c].raw / 0x1_0000_0000)
  }

  lemma RecombineBounds(l: int, h: int, s: int, sHi: int)
    requires 0 <= l < 0x100_0000_0000_0000 && 0 <= h < 0x100_0000_0000_0000
    requires s == l / 16 + h * 0x1000_0000 && sHi == s / 0x1_0000_0000_0000_0000
    ensures 0 <= s < 0x1_0000_0000_0000_0000_0000_0000_0000_0000
    ensures 0 <= sHi < 0x20_0000 && sHi * 0xffff_ffff < 0x20_0000_0000_0000
  {
  }

  /** The recombination of the two halves' products (a u128 sum folded
      once modulo p): a word congruent to the sum, not necessarily below p. */
  function MdsRecombine(l: u64, h: u64): (w: u64)
    requires l < 0x100_0000_0000_0000 && h < 0x100_0000_0000_0000
  {
    var s := l / 16 + h * 0x1000_0000;
    var sHi := s / 0x1_0000_0000_0000_0000;
    var sLo := s % 0x1_0000_0000_0000_0000;
    RecombineBounds(l, h, s, sHi);
    OverflowingAddValue(sLo, sHi * 0xffff_ffff);
    var Overflowing(res, over) := OverflowingAdd(sLo, sHi * 0xffff_ffff);
    if over then res + 0xffff_ffff else res
  }

  lemma RecombineArith(s: int, sHi: int, sLo: int, w: int)
    requires s == sHi * 0x1_0000_0000_0000_0000 + sLo
    requires w == sLo + sHi * 0xffff_ffff || w == sLo + sHi * 0xffff_ffff - 0x1_0000_0000_0000_0000 + 0xffff_ffff
    ensures Cong(w, s)
  {
    if w == sLo + sHi * 0xffff_ffff {
      assert s == w + sHi * 0xffff_ffff_0000_0001;
      ModAddMultiple(w, sHi);
    } else {
      assert s == w + (sHi + 1) * 0xffff_ffff_0000_0001;
      ModAddMultiple(w, sHi + 1);
    }
  }

  /** The recombined word is congruent to (l >> 4) + (h << 28) modulo p. */
  lemma MdsRecombineCong(l: u64, h: u64)
    requires l < 0x100_0000_0000_0000 && h < 0x100_0000_0000_0000
    ensures Cong(MdsRecombine(l, h), l / 16 + h * 0x1000_0000)
  {
    var s := l / 16 + h * 0x1000_0000;
    var sHi := s / 0x1_0000_0000_0000_0000;
    var sLo := s % 0x1_0000_0000_0000_0000;
    RecombineBounds(l, h, s, sHi);
    OverflowingAddValue(sLo, sHi * 0xffff_ffff);
    RecombineArith(s, sHi, sLo, MdsRecombine(l, h));
  }

  /** `mds_generated`. */
  function MdsSpec(s: State): (t: State)
  {
    var lo := GeneratedFunction(LowHalves(s));
    var hi := GeneratedFunction(HighHalves(s));
    seq(16, r requires 0 <= r < 16 => BFieldElement(MdsRecombine(lo[r], hi[r])))
  }

  function RawWords(s: State): (ws: seq<int>)
    ensures |ws| == 16
  {
    seq(16, c requires 0 <= c < 16 => s[c].raw)
  }

  function StateValues(s: State): (vs: seq<int>)
    ensures |vs| == 16
  {
    seq(16, c requires 0 <= c < 16 => Value(s[c]))
  }

  lemma {:induction false} RowSumSplit(ws: seq<int>, lo: seq<int>, hi: seq<int>, r: nat, n: nat)
    requires |ws| == 16 && |lo| == 16 && |hi| == 16 && r < 16 && n <= 16
    requires forall c :: 0 <= c < 16 ==> ws[c] == lo[c] + 0x1_0000_0000 * hi[c]
    ensures RowSum(ws, r, n) == RowSum(lo, r, n) + 0x1_0000_0000 * RowSum(hi, r, n)
  {
    if n > 0 {
      RowSumSplit(ws, lo, hi, r, n - 1);
      Distribute(MdsEntry(r, n - 1), lo[n - 1], hi[n - 1]);
    }
  }

  lemma Distribute(m: int, a: int, b: int)
    ensures m * (a + 0x1_0000_0000 * b) == m * a + 0x1_0000_0000 * (m * b)
  {
  }

  /** Each output word is congruent to the circulant product of the raw words. */
  lemma MdsRawCong(s: State, r: nat)
    requires r < 16
    ensures Cong(MdsSpec(s)[r].raw, RowSum(RawWords(s), r, 16))
  {
    var lo: int := GeneratedFunction(LowHalves(s))[r];
    var hi: int := GeneratedFunction(HighHalves(s))[r];
    MdsRecombineCong(lo, hi);
    RowSumSplit(RawWords(s), LowHalves(s), HighHalves(s), r, 16);
    assert lo / 16 + hi * 0x1000_0000 == RowSum(RawWords(s), r, 16);
  }

  lemma {:induction false} RowSumValues(ws: seq<int>, vs: seq<int>, r: nat, n: nat)
    requires |ws| == 16 && |vs| == 16 && r < 16 && n <= 16
    requires forall c :: 0 <= c < 16 ==> vs[c] == ModP(ws[c] * R2)
    ensures Cong(RowSum(ws, r, n) * R2, RowSum(vs, r, n))
  {
    if n > 0 {
      RowSumValues(ws, vs, r, n - 1);
      RowSumValuesStep(RowSum(ws, r, n - 1), RowSum(vs, r, n - 1), MdsEntry(r, n - 1), ws[n - 1], vs[n - 1]);
    }
  }

  lemma RowSumValuesStep(a: int, b: int, m: int, w: int, v: int)
    requires Cong(a * R2, b) && v == ModP(w * R2)
    ensures Cong((a + m * w) * R2, b + m * v)
  {
    ModTwice(w * R2);
    CongMul(m, m, w * R2, v);
    assert m * (w * R2) == (m * w) * R2;
    CongAdd(a * R2, b, (m * w) * R2, m * v);
    assert (a + m * w) * R2 == a * R2 + (m * w) * R2;
  }

  /** The linear layer is the circulant matrix with first column
      MdsMatrixFirstColumn applied to the canonical values, modulo p. */
  lemma MdsIsCirculant(s: State, r: nat)
    requires r < 16
    ensures Value(MdsSpec(s)[r]) == ModP(RowSum(StateValues(s), r, 16))
  {
    var w := MdsSpec(s)[r].raw;
    MdsRawCong(s, r);
    ValueSpec(MdsSpec(s)[r]);
    forall c | 0 <= c < 16
      ensures StateValues(s)[c] == ModP(RawWords(s)[c] * R2)
    {
      ValueSpec(s[c]);
    }
    RowSumValues(RawWords(s), StateValues(s), r, 16);
    CongMul(w, RowSum(RawWords(s), r, 16), R2, R2);
  }

  // ---------------------------------------------------------------------------
  // Rounds

  /** Adding round constant k to one state word (`+=` in `round`). */
  function AddRoundConstant(x: BFieldElement, k: nat): (y: BFieldElement)
    requires k < NUM_ROUNDS * STATE_SIZE
  {
    Add(x, RoundConstant(k))
  }

  /** Adding a round constant adds its canonical value modulo p. */
  lemma AddRoundConstantValue(x: BFieldElement, k: nat)
    requires k < NUM_ROUNDS * STATE_SIZE
    ensures Value(AddRoundConstant(x, k)) == ModP(Value(x) + ModP(RoundConstantInteger(k)))
  {
    AddValue(x, RoundConstant(k));
    RoundConstantValue(k);
  }

  /** The round-constant addition of `round`. */
  function AddRoundConstantsSpec(s: State, round: nat): (t: State)
    requires round < NUM_ROUNDS
  {
    seq(16, j requires 0 <= j < 16 => AddRoundConstant(s[j], 16 * round + j))
  }

  /** `round(i)`: S-box layer, linear layer, then round constants. */
  function RoundSpec(s: State, round: nat): (t: State)
    requires round < NUM_ROUNDS
  {
    AddRoundConstantsSpec(MdsSpec(SboxSpec(s)), round)
  }

  /** Round-constant addition adds the canonical value of constant
      16 * round + j to word j, modulo p. */
  lemma AddRoundConstantsLaw(s: State, round: nat, j: nat)
    requires round < NUM_ROUNDS && j < STATE_SIZE
    ensures Value(AddRoundConstantsSpec(s, round)[j])
         == ModP(Value(s[j]) + ModP(RoundConstantInteger(16 * round + j)))
  {
    AddRoundConstantValue(s[j], 16 * round + j);
  }

  /** Word j after round i: the circulant product of the S-box output plus
      round constant 16 * i + j, as canonical values modulo p. */
  lemma RoundLaw(s: State, round: nat, j: nat)
    requires round < NUM_ROUNDS && j < STATE_SIZE
    ensures Value(RoundSpec(s, round)[j])
         == ModP(ModP(RowSum(StateValues(SboxSpec(s)), j, 16)) + ModP(RoundConstantInteger(16 * round + j)))
  {
    LinearLayerLaw(SboxSpec(s), round, j);
  }

  /** The linear half of a round, after the S-box layer. */
  lemma LinearLayerLaw(t: State, round: nat, j: nat)
    requires round < NUM_ROUNDS && j < STATE_SIZE
    ensures Value(AddRoundConstantsSpec(MdsSpec(t), round)[j])
         == ModP(ModP(RowSum(StateValues(t), j, 16)) + ModP(RoundConstantInteger(16 * round + j)))
  {
    AddRoundConstantsLaw(MdsSpec(t), round, j);
    MdsIsCirculant(t, j);
    RoundLawArith(Value(AddRoundConstantsSpec(MdsSpec(t), round)[j]), Value(MdsSpec(t)[j]), RowSum(StateValues(t), j, 16), RoundConstantInteger(16 * round + j));
  }

  lemma RoundLawArith(x: int, m: int, sum: int, c: int)
    requires x == ModP(m + ModP(c)) && m == ModP(sum)
    ensures x == ModP(ModP(sum) + ModP(c))
  {
  }

  /** The first n rounds, applied in order 0, 1, ..., n - 1. */
  function RoundsSpec(s: State, n: nat): (t: State)
    requires n <= NUM_ROUNDS
  {
    if n == 0 then s else RoundSpec(RoundsSpec(s, n - 1), n - 1)
  }

  /** One more round extends the first n rounds. */
  lemma RoundsStep(s: State, n: nat)
    requires n < NUM_ROUNDS
    ensures RoundsSpec(s, n + 1) == RoundSpec(RoundsSpec(s, n), n)
  {
  }

  /** `permutation`: all seven rounds in order. */
  function PermutationSpec(s: State): (t: State)
  {
    RoundsSpec(s, NUM_ROUNDS)
  }

  /** `trace`: the state before the first round and after each round, so
      entry k is the state after the first k rounds. */
  function TraceSpec(s: State): (t: seq<State>)
    ensures |t| == 1 + NUM_ROUNDS
  {
    seq(1 + NUM_ROUNDS, k requires 0 <= k <= NUM_ROUNDS => RoundsSpec(s, k))
  }

  /** The trace opens with the input and closes with the permutation's output. */
  lemma TraceEnds(s: State)
    ensures TraceSpec(s)[0] == s && TraceSpec(s)[NUM_ROUNDS] == PermutationSpec(s)
  {
  }

  /** The first i + 1 entries of t are those of the trace of s. */
  ghost predicate TracePrefix(s: State, t: seq<State>, i: nat)
  {
    |t| == 1 + NUM_ROUNDS && i <= NUM_ROUNDS && forall k :: 0 <= k <= i ==> t[k] == RoundsSpec(s, k)
  }

  /** Recording the state after round i extends a prefix of the trace by one entry. */
  lemma TraceStep(s: State, t: seq<State>, i: nat, x: State)
    requires TracePrefix(s, t, i) && i < NUM_ROUNDS && x == RoundSpec(RoundsSpec(s, i), i)
    ensures TracePrefix(s, t[i + 1 := x], i + 1)
  {
    RoundsStep(s, i);
    forall k | 0 <= k <= i + 1
      ensures t[i + 1 := x][k] == RoundsSpec(s, k)
    {
      if k <= i {
        assert t[i + 1 := x][k] == t[k];
      }
    }
  }

  /** A prefix that reaches the last round is the whole trace. */
  lemma TraceComplete(s: State, t: seq<State>)
    requires TracePrefix(s, t, NUM_ROUNDS)
    ensures t == TraceSpec(s)
  {
  }

  // ---------------------------------------------------------------------------
  // Sponge constructions

  /** `absorb`: the block overwrites the rate, the capacity is kept, then the
      state is permuted. */
  function AbsorbSpec(s: State, block: seq<BFieldElement>): (t: State)
    requires |block| == RATE
  {
    PermutationSpec(block + s[RATE..])
  }

  /** The state after absorbing the blocks in order. */
  function AbsorbAllSpec(s: State, blocks: seq<seq<BFieldElement>>): (t: State)
    requires forall k :: 0 <= k < |blocks| ==> |blocks[k]| == RATE
  {
    if blocks == [] then s
    else AbsorbSpec(AbsorbAllSpec(s, blocks[..|blocks| - 1]), blocks[|blocks| - 1])
  }

  /** `hash_10`: the input in the rate of a fixed-length state, one
      permutation, and the first five words. */
  function Hash10Spec(input: seq<BFieldElement>): (out: seq<BFieldElement>)
    requires |input| == RATE
    ensures |out| == D.LEN
  {
    PermutationSpec(input + InitialState(FixedLength)[RATE..])[..D.LEN]
  }

  /** `hash_varlen`: a variable-length state absorbs the padded input, and
      the first five words are the digest. */
  function HashVarlenSpec(input: seq<BFieldElement>): (d: D.Digest)
  {
    D.New(AbsorbAllSpec(InitialState(VariableLength), Blocks(Pad(input)))[..D.LEN])
  }

  /** An input shorter than RATE pads to a single block, absorbed once: its
      variable-length hash permutes the padded input over a zero capacity,
      where `hash_10` of the same ten words permutes it over a capacity of ONEs. */
  lemma HashVarlenShortInput(input: seq<BFieldElement>)
    requires |input| < RATE
    ensures |Pad(input)| == RATE
    ensures D.Values(HashVarlenSpec(input)) == PermutationSpec(Pad(input) + InitialState(VariableLength)[RATE..])[..D.LEN]
    ensures Hash10Spec(Pad(input)) == PermutationSpec(Pad(input) + InitialState(FixedLength)[RATE..])[..D.LEN]
    ensures Pad(input) + InitialState(VariableLength)[RATE..] != Pad(input) + InitialState(FixedLength)[RATE..]
  {
    var padded := Pad(input);
    assert padded[0 * RATE..0 * RATE + RATE] == padded;
    assert Blocks(padded)[0] == padded;
    assert Blocks(padded) == [padded];
    AbsorbAllSingle(InitialState(VariableLength), padded);
    assert (padded + InitialState(VariableLength)[RATE..])[RATE] != (padded + InitialState(FixedLength)[RATE..])[RATE];
  }

  /** Absorbing one more block extends the absorption of the blocks before it. */
  lemma AbsorbAllStep(s: State, blocks: seq<seq<BFieldElement>>, k: nat)
    requires k < |blocks| && forall j :: 0 <= j < |blocks| ==> |blocks[j]| == RATE
    ensures AbsorbAllSpec(s, blocks[..k + 1]) == AbsorbSpec(AbsorbAllSpec(s, blocks[..k]), blocks[k])
  {
    assert blocks[..k + 1][..k] == blocks[..k];
  }

  lemma AbsorbAllSingle(s: State, block: seq<BFieldElement>)
    requires |block| == RATE
    ensures AbsorbAllSpec(s, [block]) == AbsorbSpec(s, block)
  {
    assert [block][..0] == [];
  }
}
