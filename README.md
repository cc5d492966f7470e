# Tip5 sponge hash over the Goldilocks field, in Dafny

This project models the Tip5 sponge hash of the Rust crate `tip5-hash` and
proves properties of that model. The hash works over the Goldilocks prime
p = 2^64 − 2^32 + 1. The model has three layers.

- **Field elements** (`goldilocks.dfy`, `b_field_element.dfy`, module `BField`).
  - An element is an arbitrary raw 64-bit word w that stands for w·2^−64 mod p (Montgomery form).
  - Raw words ≥ p are allowed, because `from_raw_u64` and `from_raw_bytes` make them.
  - Montgomery reduction, `add`, `sub`, `mul` and `neg` are written out with the source's wrapping and overflowing 64-bit operations.
  - Each of them is proved against plain modular arithmetic, both as a congruence on raw words and as an equation on canonical values.
  - The loop `exp` and the addition chain `inverse` are methods. They are proved to compute x^(2^n) and x^(p−2).
- **Digest and sponge padding** (`digest.dfy`, `sponge.dfy`).
  - The five-word digest wrapper.
  - The `1, 0, 0, …` padding up to a multiple of RATE = 10.
  - The cutting of the padded input into blocks.
- **The Tip5 permutation and sponge** (`tip5_tables.dfy`, `tip5_reference.dfy`, `tip5.dfy`).
  - Module `Tip5Reference` defines each layer as a function on 16-word states, each with its algebraic law:
    - the byte-wise S-box on words 0..3;
    - x^7 on words 4..15;
    - the circulant linear layer;
    - round-constant addition;
    - seven rounds;
    - the trace;
    - absorbing and the three hash functions.
  - Class `Tip5.Tip5` holds the state in an `array` that its methods update in place, as the Rust struct does.
  - Every method is proved to leave exactly the state, or return exactly the value, that the matching `Tip5Reference` function gives.

The Rust code and one of its doc comments disagree about the capacity.
- The doc comment of `hash_varlen` (`src/lib.rs:327-332`) says variable-length hashing starts with an all-ones capacity.
- The code (`src/lib.rs:179-188`) sets the capacity to ONE for `FixedLength` and leaves it ZERO for `VariableLength`.
- The model follows the code: see `Tip5Reference.InitialState` and `Tip5Reference.InitialStateLayout`.

The linear layer's fast path calls `mds::generated_function`. `src/mds.rs` is not part of this model. `Tip5Reference.GeneratedFunction` stands in for it, as sixteen times the circulant product of `MDS_MATRIX_FIRST_COLUMN` with the vector of 32-bit halves. On both halves, this is the value for which the recombination in `mds_generated` computes the circulant product of the raw words (`Tip5Reference.MdsRawCong`). The recombination itself, meaning the shift by 4 and by 28 and the folding of the high word by 2^32 − 1, is modelled bit for bit.

## Model

| member | source | states |
|---|---|---|
| Goldilocks.OverflowingAddValue | src/b_field_element.rs:33 | `overflowing_add` wraps exactly when the sum reaches 2^64, and then yields the sum minus 2^64 |
| Goldilocks.OverflowingAdd | src/b_field_element.rs:33 | definition of `u64::overflowing_add`: the sum mod 2^64 and the carry; its law is OverflowingAddValue |
| Goldilocks.OverflowingSub | src/b_field_element.rs:37 | definition of `u64::overflowing_sub`: the difference mod 2^64 and the borrow; used by Montyred, Add and Sub, whose laws are MontyredCorrect, AddCong and SubCong |
| Goldilocks.WrappingAdd | src/b_field_element.rs:167 | definition of `u64::wrapping_add`: the sum mod 2^64; used by Add, whose law is AddCong |
| Goldilocks.WrappingSub | src/b_field_element.rs:35 | definition of `u64::wrapping_sub`: the difference mod 2^64; its law is WrappingSubNoBorrow |
| Goldilocks.WrappingSubNoBorrow | src/b_field_element.rs:35 | a wrapping subtraction that cannot borrow is plain subtraction |
| BField.Montyred | src/b_field_element.rs:29-42 | definition, step for step as in the source (MontyM, MontyB, MontyHigh); its laws are MontyredCorrect and MontgomeryOut |
| BField.MontyM | src/b_field_element.rs:33 | definition of `(a, e) = xl.overflowing_add(xl << 32)`; its law is MontyMFacts |
| BField.MontyB | src/b_field_element.rs:35 | definition of `b`; its law is MontyLow: b·2^64 = m·p − xl and b < p |
| BField.MontyHigh | src/b_field_element.rs:37-41 | definition of the final borrow correction; its law is MontyHighIs: xh − b, plus p when xh < b |
| BField.MontyLow | src/b_field_element.rs:33-35 | b·2^64 equals the multiple of p that cancels xl, minus xl, and b < p |
| BField.MontyHighIs | src/b_field_element.rs:37-41 | the correction yields xh − b, or xh − b + p when the subtraction borrows |
| BField.MontyredCorrect | src/b_field_element.rs:29-42 | for every 128-bit x, montyred(x)·2^64 ≡ x (mod p), and the result is below p whenever x < p·2^64 |
| BField.MontgomeryOut | src/b_field_element.rs:45-52 | reducing a raw word gives w·2^−64 mod p, the integer the word stands for |
| BField.MontyredVector | src/b_field_element.rs:252-259 | montyred(2609026890597981882) = 11259563268822605859 |
| BField.New | src/b_field_element.rs:23-25 | `new` always yields a canonical raw word, below p |
| BField.NewCong | src/b_field_element.rs:23-25 | the raw word of `new(v)` is ≡ v·2^64 (mod p) |
| BField.Value | src/b_field_element.rs:45-52 | `value` is always a canonical integer, below p |
| BField.ValueSpec | src/b_field_element.rs:45-52 | `value` of any raw word w, canonical or not, is w·2^−64 mod p |
| BField.NewValue | src/b_field_element.rs:23-52 | `new(v).value()` is v mod p for every 64-bit v |
| BField.NewValueCanonical | src/b_field_element.rs:23-52 | round trip: `new(v).value() == v` for every v < p |
| BField.NewOfValue | src/b_field_element.rs:23-52 | round trip the other way: `new(e.value()) == e` for every canonical e |
| BField.ValueInjective | src/b_field_element.rs:45-52 | on canonical words, equal values means equal elements and conversely |
| BField.NewVector | src/b_field_element.rs:262-270 | the raw word of new(12045832659793544965) is 9712864734344745984 |
| BField.NewVectorValue | src/b_field_element.rs:262-273 | new(12045832659793544965).value() is that same integer again |
| BField.ZeroIsNew | src/b_field_element.rs:131-133 | `ZERO` is `new(0)` and has raw word 0 |
| BField.OneIsNew | src/b_field_element.rs:147-149 | `ONE` is `new(1)` and has raw word 2^32 − 1 |
| BField.ZeroValue | src/b_field_element.rs:131-133 | the value of ZERO is 0 |
| BField.OneValue | src/b_field_element.rs:147-149 | the value of ONE is 1 |
| BField.IsZeroIsRawCheck | src/b_field_element.rs:119-145 | `is_zero` and `is_one` are comparisons of the raw word with 0 and with 2^32 − 1 |
| BField.IsZero | src/b_field_element.rs:126-128 | definition: comparison with ZERO under the derived equality; its law is IsZeroIsRawCheck |
| BField.IsOne | src/b_field_element.rs:142-144 | definition: comparison with ONE under the derived equality; its law is IsZeroIsRawCheck |
| BField.Add | src/b_field_element.rs:156-171 | with rhs ≤ p, two canonical operands give a canonical sum |
| BField.AddCong | src/b_field_element.rs:156-171 | with rhs ≤ p, the raw result is ≡ lhs + rhs (mod p), for arbitrary raw words |
| BField.AddValue | src/b_field_element.rs:156-171 | value(a + b) = (value(a) + value(b)) mod p |
| BField.Sub | src/b_field_element.rs:218-235 | two canonical operands give a canonical difference |
| BField.SubCong | src/b_field_element.rs:218-235 | the raw result is ≡ a − b (mod p) if and only if b ≤ a + p as raw words, so the single correction suffices exactly then |
| BField.SubValue | src/b_field_element.rs:218-235 | value(a − b) = (value(a) − value(b)) mod p, whenever b ≤ a + p |
| BField.NegValue | src/b_field_element.rs:204-211 | `neg` is `zero − a`: its value is (p − value(a)) mod p, and it keeps canonical words canonical |
| BField.Neg | src/b_field_element.rs:204-211 | definition: `zero − a`, that is Sub(ZERO, a); its laws are NegValue and AddNegIsZero |
| BField.AddNegIsZero | src/b_field_element.rs:151-211 | a + (−a) has value 0 for every canonical a |
| BField.Mul | src/b_field_element.rs:195-201 | two canonical operands give a canonical product |
| BField.MulCong | src/b_field_element.rs:195-201 | the raw product is montyred of the raw words' product: result·2^64 ≡ a·b (mod p) |
| BField.MulValue | src/b_field_element.rs:195-201 | value(a · b) = value(a) · value(b) mod p |
| BField.Square | src/b_field_element.rs:90-93 | definition: `self * self`, that is Mul(a, a); its laws are those of Mul |
| BField.Exp | src/b_field_element.rs:60-68 | the squaring loop `exp(base, n)` returns base^(2^n), and a canonical base gives a canonical result |
| BField.Inverse | src/b_field_element.rs:58-88 | `inverse` fails (None) exactly when the raw word is that of ZERO; otherwise the addition chain computes x^(p−2), canonical when x is |
| BField.SquareThenMul | src/b_field_element.rs:77-78 | one `a.square() * x` step of the chain takes v^k to v^(2k+1), keeping canonical words canonical |
| BField.ExpThenMul | src/b_field_element.rs:79-87 | one `exp(a, n) * b` step of the chain takes v^ka and v^kb to v^(ka·2^n + kb), keeping canonical words canonical |
| BField.Div | src/b_field_element.rs:238-245 | `a / b` is `b.inverse() * a`: it fails exactly when b is ZERO, and otherwise has value b^(p−2)·a mod p, canonical when a and b are |
| BField.ToLeBytes | src/b_field_element.rs:97-99 | `to_le_bytes` gives exactly n bytes |
| BField.FromLeBytes | src/b_field_element.rs:109-111 | `from_le_bytes` of n bytes is below 256^n |
| BField.FromToLeBytes | src/b_field_element.rs:95-111 | decoding the little-endian bytes of a word gives the word back |
| BField.ToFromLeBytes | src/b_field_element.rs:95-111 | encoding the decoded bytes gives the bytes back |
| BField.RawBytes | src/b_field_element.rs:97-99 | `raw_bytes` always has 8 bytes |
| BField.FromRawBytes | src/b_field_element.rs:109-111 | `from_raw_bytes(bs)` is the element whose raw bytes are bs |
| BField.FromRawBytesRoundTrip | src/b_field_element.rs:95-111 | `from_raw_bytes(raw_bytes(e)) == e` for every element |
| BField.RawU64RoundTrip | src/b_field_element.rs:101-116 | `from_raw_u64(raw_u64(e)) == e` and `raw_u64(from_raw_u64(w)) == w` for every 64-bit w |
| BField.RawU64 | src/b_field_element.rs:101-104 | definition: the raw word itself; its law is RawU64RoundTrip |
| BField.FromRawU64 | src/b_field_element.rs:113-116 | definition: the element of that raw word, with no Montgomery conversion; its law is RawU64RoundTrip |
| Digest.Values | src/digest.rs:16-18 | `values` always has exactly `LEN` = 5 elements |
| Digest.New | src/digest.rs:12-14 | definition: wraps the 5-element array; its laws are ValuesOfNew and NewOfValues |
| Digest.ValuesOfNew | src/digest.rs:12-18 | `new(a).values() == a` for every 5-element array |
| Digest.NewOfValues | src/digest.rs:5-18 | `Digest::new(d.values()) == d` for every digest |
| Digest.DigestEquality | src/digest.rs:5 | two digests are equal exactly when their elements agree raw word by raw word |
| Sponge.NextMultipleOfRate | src/sponge.rs:42 | `next_multiple_of(RATE)` is the multiple of 10 in [x, x + 10) |
| Sponge.PaddedLength | src/sponge.rs:41-42 | the padded length is a multiple of 10, greater than n and at most n + 10 |
| Sponge.PaddedLengthIsLeast | src/sponge.rs:41-42 | no multiple of 10 greater than n is smaller than the padded length |
| Sponge.Zeros | src/sponge.rs:43-44 | the repeated padding is k copies of ZERO |
| Sponge.Pad | src/sponge.rs:41-45 | the padded input has the padded length, starts with the input, then ONE, then only ZERO |
| Sponge.PadInjective | src/sponge.rs:41-45 | padding is injective: equal padded sequences only for equal inputs, of any lengths |
| Sponge.Blocks | src/sponge.rs:47-50 | `chunks(RATE)`: length/10 blocks of exactly 10 elements, block k being words 10k..10k+10 |
| Sponge.FlattenBlocks | src/sponge.rs:47-50 | the blocks, concatenated in order, are the padded input |
| Sponge.BlockCount | src/sponge.rs:42-51 | `absorb` is called (n + 10) div 10 = ceil((n + 1)/10) times, at least once |
| Tip5Tables.OffsetFermatCubeMap | src/lib.rs:193-198 | ((x + 1)^3 + 256) mod 257, below 257 |
| Tip5Tables.LookupTable | src/lib.rs:22-36 | definition: the 256 entries of LOOKUP_TABLE, in rows of 16; its laws are LookupTableIsCubeMap and LookupTableIsPermutation |
| Tip5Tables.RoundConstantInteger | src/lib.rs:38-158 | definition: the 112 integers of ROUND_CONSTANTS, in rows of 16; its laws are RoundConstant and RoundConstantValue |
| Tip5Tables.MdsMatrixFirstColumn | src/lib.rs:160-166 | definition: the 16 entries of MDS_MATRIX_FIRST_COLUMN; used by MdsEntry, whose law is MdsIsCirculant |
| Tip5Tables.LookupTableIsCubeMap | src/lib.rs:20-36 | every `LOOKUP_TABLE` entry i equals `offset_fermat_cube_map(i)`, and the inverse table undoes it |
| Tip5Tables.InverseTableIsRightInverse | src/lib.rs:22-36 | every byte is hit by the table, at the inverse table's entry |
| Tip5Tables.LookupTableIsPermutation | src/lib.rs:22-36 | the table is a permutation of 0..255: injective and onto |
| Tip5Tables.RoundConstant | src/lib.rs:38-158 | every `ROUND_CONSTANTS` entry is a canonical word |
| Tip5Tables.RoundConstantValue | src/lib.rs:38-158 | `ROUND_CONSTANTS[k]` is `new` of its listed integer: its value is that integer mod p |
| Tip5Reference.InitialStateLayout | src/lib.rs:173-191 | the rate starts ZERO; the capacity is ONE for FixedLength and ZERO for VariableLength, so the two domains differ |
| Tip5Reference.InitialState | src/lib.rs:174-191 | definition: ZERO everywhere except ONE on words 10..16 for FixedLength; its law is InitialStateLayout |
| Tip5Reference.SplitAndLookupSpec | src/lib.rs:201-212 | definition: the raw bytes mapped through LookupBytes; its laws are SplitAndLookupBytes and SplitAndLookupInjective |
| Tip5Reference.SboxSpec | src/lib.rs:242-252 | definition: SplitAndLookupSpec on words 0..3, Seventh on the rest; its laws are SboxSpecByWords and SboxLayerLaw |
| Tip5Reference.LookupBytes | src/lib.rs:206-209 | the byte loop keeps the number of bytes |
| Tip5Reference.LookupBytesIndex | src/lib.rs:206-209 | byte k becomes `LOOKUP_TABLE[byte k]` |
| Tip5Reference.SplitAndLookupBytes | src/lib.rs:201-212 | each little-endian raw byte of the result is the table entry of the same byte of the input, with no Montgomery conversion |
| Tip5Reference.SplitAndLookupInjective | src/lib.rs:201-212 | split-and-lookup is injective on raw words |
| Tip5Reference.Seventh | src/lib.rs:247-251 | x · (x² · x⁴) keeps canonical words canonical |
| Tip5Reference.SeventhPower | src/lib.rs:247-251 | the value of x · (x² · x⁴) is value(x)^7 mod p |
| Tip5Reference.SboxSpecByWords | src/lib.rs:242-252 | a state is the S-box image of another if and only if words 0..3 are split-and-looked-up and words 4..15 raised to the seventh power, each from its own old word |
| Tip5Reference.SboxLayerLaw | src/lib.rs:242-252 | per word: words 0..3 map bytes through the table, the others have value old^7 mod p |
| Tip5Reference.GeneratedEntry | src/lib.rs:224-225 | one output of the stand-in for `generated_function` fits 56 bits |
| Tip5Reference.GeneratedFunction | src/lib.rs:224-225 | assumed contract of `generated_function`: 16 outputs, entry r being 16 times row r of the circulant product, below 2^56 |
| Tip5Reference.LowHalves | src/lib.rs:218-222 | `lo[i]` is the low 32 bits of the raw word |
| Tip5Reference.HighHalves | src/lib.rs:218-222 | `hi[i]` is the high 32 bits of the raw word |
| Tip5Reference.MdsRecombineCong | src/lib.rs:227-236 | the recombined word is ≡ lo/16 + hi·2^28 (mod p) |
| Tip5Reference.MdsRawCong | src/lib.rs:215-238 | word r after `mds_generated` is ≡ row r of the circulant product of the raw words (mod p) |
| Tip5Reference.MdsIsCirculant | src/lib.rs:215-238 | the value of word r after `mds_generated` is Σ_c MDS_MATRIX_FIRST_COLUMN[(r − c) mod 16]·value(state[c]) mod p |
| Tip5Reference.MdsEntry | src/lib.rs:160-166 | definition: entry (r, c) of the circulant matrix is MDS_MATRIX_FIRST_COLUMN[(r − c) mod 16]; used by MdsIsCirculant |
| Tip5Reference.MdsRecombine | src/lib.rs:228-236 | definition of the bit-level recombination of one output word; its law is MdsRecombineCong |
| Tip5Reference.MdsSpec | src/lib.rs:215-238 | definition: halves, generated_function on each, recombination; its laws are MdsRawCong and MdsIsCirculant |
| Tip5Reference.AddRoundConstant | src/lib.rs:259 | definition: `state[i] += ROUND_CONSTANTS[k]`; its law is AddRoundConstantValue |
| Tip5Reference.AddRoundConstantsSpec | src/lib.rs:258-260 | definition: word j plus constant 16·round + j; its law is AddRoundConstantsLaw |
| Tip5Reference.RoundSpec | src/lib.rs:255-261 | definition: SboxSpec, then MdsSpec, then AddRoundConstantsSpec; its law is RoundLaw |
| Tip5Reference.RoundsSpec | src/lib.rs:264-268 | definition: rounds 0..n−1 in order; its law is RoundsStep |
| Tip5Reference.PermutationSpec | src/lib.rs:264-268 | definition: RoundsSpec for all seven rounds; its laws are TraceEnds and Tip5.Tip5.Permutation |
| Tip5Reference.AddRoundConstantValue | src/lib.rs:258-260 | adding constant k adds its value mod p |
| Tip5Reference.AddRoundConstantsLaw | src/lib.rs:258-260 | word j gains `ROUND_CONSTANTS[16·round + j]`, as a value mod p |
| Tip5Reference.LinearLayerLaw | src/lib.rs:257-260 | after the linear layer and the constants, word j has value (circulant row j + constant) mod p |
| Tip5Reference.RoundLaw | src/lib.rs:255-261 | one round is the S-box, then the linear layer, then the constants, stated per word on values |
| Tip5Reference.RoundsStep | src/lib.rs:264-268 | n + 1 rounds are round n applied after the first n |
| Tip5Reference.TraceSpec | src/lib.rs:273-283 | the trace has 1 + NUM_ROUNDS = 8 states |
| Tip5Reference.TraceEnds | src/lib.rs:270-283 | trace[0] is the input state and trace[7] is the permutation of it |
| Tip5Reference.TraceStep | src/lib.rs:277-280 | recording round i's result extends a correct trace prefix by one state |
| Tip5Reference.TraceComplete | src/lib.rs:273-283 | a trace whose every entry k is the state after k rounds is the whole trace |
| Tip5Reference.Hash10Spec | src/lib.rs:294-304 | `hash_10` gives 5 words |
| Tip5Reference.HashVarlenShortInput | src/lib.rs:327-350 | for fewer than 10 inputs the padding is one block and `hash_varlen` is one permutation of it over a zero capacity. The `hash_10` conjunct, over a ONE capacity, unfolds that definition. The two permutation inputs differ, which is the domain separation |
| Tip5Reference.AbsorbAllStep | src/sponge.rs:47-51 | absorbing the first k + 1 blocks is absorbing block k after the first k |
| Tip5Reference.AbsorbAllSingle | src/sponge.rs:47-51 | absorbing a one-block input is one `absorb` |
| Tip5Reference.AbsorbSpec | src/lib.rs:360-367 | definition: the block, then the old capacity, permuted; its law is Tip5.Tip5.Absorb |
| Tip5Reference.AbsorbAllSpec | src/sponge.rs:47-51 | definition: the blocks absorbed one after another; its laws are AbsorbAllStep and AbsorbAllSingle |
| Tip5Reference.HashVarlenSpec | src/lib.rs:343-350 | definition: a variable-length state absorbing the padded blocks, then its first five words; its laws are HashVarlenShortInput and Tip5.Tip5.HashVarlen |
| Tip5.Tip5.constructor | src/lib.rs:173-191 | `Tip5::new(domain)` makes a fresh state equal to the domain's initial state |
| Tip5.Tip5.SplitAndLookup | src/lib.rs:200-212 | the byte loop returns the split-and-lookup image of the element |
| Tip5.Tip5.MdsGenerated | src/lib.rs:214-238 | `mds_generated` leaves the linear-layer image of the old state |
| Tip5.Tip5.LookupWords | src/lib.rs:243-245 | the first S-box loop changes words 0..3 to their split-and-lookup images and nothing else |
| Tip5.Tip5.PowerWords | src/lib.rs:247-251 | the second S-box loop changes words 4..15 to their seventh powers and nothing else |
| Tip5.Tip5.SboxLayer | src/lib.rs:240-252 | `sbox_layer` leaves the S-box image of the old state |
| Tip5.Tip5.AddRoundConstants | src/lib.rs:258-260 | the constants loop leaves the old state plus round `round_index`'s constants |
| Tip5.Tip5.Round | src/lib.rs:254-261 | `round(i)` leaves round i of the old state |
| Tip5.Tip5.NextRound | src/lib.rs:265-267 | one iteration of the permutation loop takes the state after i rounds to the state after i + 1 |
| Tip5.Tip5.Permutation | src/lib.rs:263-268 | `permutation` leaves the seven rounds, in order, of the old state |
| Tip5.Tip5.Trace | src/lib.rs:270-283 | `trace` returns a fresh array of the 8 states before and after each round, and leaves the permuted state |
| Tip5.Tip5.Init | src/lib.rs:356-358 | `init` is a fresh variable-length sponge |
| Tip5.Tip5.CopyFromSlice | src/lib.rs:314-315 | `copy_from_slice` overwrites exactly the words offset..offset + len and leaves the rest |
| Tip5.Tip5.Absorb | src/lib.rs:360-367 | `absorb` overwrites words 0..10 with the block, keeps words 10..16, then permutes |
| Tip5.Tip5.Squeeze | src/lib.rs:369-374 | `squeeze` returns the rate as it was before, then permutes |
| Tip5.Tip5.PadAndAbsorbAll | src/sponge.rs:40-52 | the sponge absorbs the padded input's blocks, in order |
| Tip5.Tip5.Hash10 | src/lib.rs:294-304 | `hash_10` is the first five words of the permutation of the input over a fixed-length capacity |
| Tip5.Tip5.HashPair | src/lib.rs:312-321 | `hash_pair(l, r)` is `Digest::new(hash_10(l.values() ++ r.values()))` |
| Tip5.Tip5.HashVarlen | src/lib.rs:343-350 | `hash_varlen` is `init`, then `pad_and_absorb_all`, then the first five words |

## Left out

- `mds::generated_function` (`src/mds.rs`) is not part of this model. Its assumed contract is `Tip5Reference.GeneratedFunction`: 16 times the circulant product, with each entry below 2^56. The real fast path could differ from this by multiples that the recombination does not remove, and the model does not capture that.
- BField.Inverse: proves only that the result is x^(p−2). It does not prove `x * x.inverse() == 1`, which needs Fermat's little theorem and the primality of p.
- BField.Inverse: the zero check compares raw words, as the derived equality does. The raw word p, a non-canonical zero, passes it, and then the chain computes 0^(p−2) = 0.
- BField.Add: requires rhs ≤ p as a raw word. `P - rhs.0` overflows otherwise, which is a debug-mode panic.
- BField.Sub: there is no precondition. The congruence is stated exactly for b ≤ a + p, and a double wrap-around outside that range is excluded by the biconditional.
- BField.NegValue: requires a ≤ p as a raw word, the range in which `zero − a` is still a congruence.
- Tip5Tables.OffsetFermatCubeMap: requires x < 0xffff. `x + 1` overflows u16 at 0xffff, which is a debug-mode panic. The table only uses x < 256.
- The `*Assign` operators (`add_assign`, `sub_assign`, `mul_assign`) have no member of their own. They replace `self` with the binary result, and the model writes that assignment where the source uses them (`state[i] := Add(…)`, `state[i] := Mul(…)`).
- `square` is `Mul(a, a)` (`BField.Square`), and `zero()`/`one()` are the constants ZERO/ONE. Their properties are those of Mul and of the constants.
- The local arrays of `split_and_lookup` (`bytes`) and `mds_generated` (`lo`, `hi`) are modelled as sequence values, because each is used only inside its function.
- NextRound is one iteration of the loop in `permutation`, and LookupWords and PowerWords are the two loops of `sbox_layer`. The source's single methods are split into these helpers.
- The tables `LOOKUP_TABLE`, `ROUND_CONSTANTS` and `MDS_MATRIX_FIRST_COLUMN` are written as functions from index to entry, rows of 16.
- `ROUND_CONSTANTS` entries are `new` of the listed integers. `RoundConstant` computes that `new` word.
- The `Sponge` trait is modelled by the methods of class `Tip5.Tip5`: `Init`, `Absorb`, `Squeeze` and `PadAndAbsorbAll`. The `Send + Sync` bound is a thread-safety marker with no sequential content.
- Iterator plumbing (`chunks`, `zip_eq`, `collect_vec`, `try_into().unwrap()`) is modelled by its sequence meaning. No `unwrap` can fail on the lengths involved.
- The end-to-end test vectors of `hash_10` and `hash_varlen` (`src/lib.rs:382-426`) are not evaluated. They need the real `generated_function` and seven rounds of 64-bit arithmetic.
- Cryptographic properties, such as collision resistance and the MDS property of the matrix, are out of scope.
