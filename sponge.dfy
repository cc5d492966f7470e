/** The sponge interface: the domain tag, the rate and the padding rule of
    `pad_and_absorb_all`. The absorbing loop itself is a method of the Tip5
    sponge, which is the only implementation. */
module Sponge {
  import opened BField

  /** Number of field elements absorbed or squeezed at a time. */
  const RATE: nat := 10

  /** Fixed-length and variable-length hashing start from different capacities. */
  datatype Domain = VariableLength | FixedLength

  /** Rust's `usize::next_multiple_of(RATE)`: the least multiple of RATE that is >= x. */
  function NextMultipleOfRate(x: nat): (m: nat)
    ensures m % RATE == 0 && x <= m < x + RATE
  {
    if x % 10 == 0 then x else x + (10 - x % 10)
  }

  /** The length after padding: the least multiple of RATE that is >= n + 1. */
  function PaddedLength(n: nat): (m: nat)
    ensures m % RATE == 0
    ensures n < m
    ensures m <= n + RATE
  {
    NextMultipleOfRate(n + 1)
  }

  function Zeros(k: nat): (zs: seq<BFieldElement>)
    ensures |zs| == k
    ensures forall i :: 0 <= i < k ==> zs[i] == ZERO
  {
    seq(k, i => ZERO)
  }

  /** The padded input: the input, then ONE, then ZEROs up to PaddedLength. */
  function Pad(input: seq<BFieldElement>): (padded: seq<BFieldElement>)
    ensures |padded| == PaddedLength(|input|)
    ensures padded[..|input|] == input
    ensures padded[|input|] == ONE
    ensures forall i :: |input| < i < |padded| ==> padded[i] == ZERO
  {
    input + [ONE] + Zeros(PaddedLength(|input|) - |input| - 1)
  }

  /** `chunks(RATE)` of a sequence whose length is a multiple of RATE. */
  function Blocks(s: seq<BFieldElement>): (blocks: seq<seq<BFieldElement>>)
    requires |s| % RATE == 0
    ensures |blocks| == |s| / RATE
    ensures forall k :: 0 <= k < |blocks| ==> |blocks[k]| == RATE
    ensures forall k :: 0 <= k < |blocks| ==> blocks[k] == s[k * RATE..k * RATE + RATE]
    decreases |s|
  {
    if |s| == 0 then []
    else
      var rest := Blocks(s[RATE..]);
      assert forall k :: 0 < k < |rest| + 1 ==> s[RATE..][(k - 1) * RATE..(k - 1) * RATE + RATE] == s[k * RATE..k * RATE + RATE];
      [s[..RATE]] + rest
  }

  /** Concatenating the blocks in order gives back the sequence. */
  function Flatten(blocks: seq<seq<BFieldElement>>): seq<BFieldElement>
  {
    if blocks == [] then [] else blocks[0] + Flatten(blocks[1..])
  }

  lemma {:induction false} FlattenBlocks(s: seq<BFieldElement>)
    requires |s| % RATE == 0
    ensures Flatten(Blocks(s)) == s
    decreases |s|
  {
    if |s| > 0 {
      FlattenBlocks(s[RATE..]);
      assert Blocks(s)[1..] == Blocks(s[RATE..]);
    }
  }

  /** The padded length is a multiple of RATE and the least one above the
      input length. */
  lemma PaddedLengthIsLeast(n: nat, m: nat)
    requires m % RATE == 0 && n < m
    ensures PaddedLength(n) <= m
  {
  }

  /** `absorb` is called ceil((n + 1) / RATE) times, at least once. */
  lemma BlockCount(input: seq<BFieldElement>)
    ensures |Blocks(Pad(input))| == (|input| + RATE) / RATE
    ensures |Blocks(Pad(input))| >= 1
  {
  }

  /** Padding is injective: distinct inputs, of equal or different lengths,
      have distinct padded sequences. */
  lemma PadInjective(a: seq<BFieldElement>, b: seq<BFieldElement>)
    ensures Pad(a) == Pad(b) <==> a == b
  {
    if Pad(a) == Pad(b) {
      if |a| != |b| {
        assert false;
      }
      assert a == Pad(a)[..|a|];
    }
  }
}
