/** The Tip5 sponge object: a state of sixteen field elements that the
    permutation, absorbing and squeezing update in place, and the hash
    functions built on it. Every method is proved to compute the matching
    function of module Tip5Reference. */
module Tip5 {
  import opened Goldilocks
  import opened BField
  import opened Sponge
  import opened Tip5Tables
  import opened Tip5Reference
  import D = Digest

  class Tip5 {
    /** `state: [BFieldElement; STATE_SIZE]`. */
    var state: array<BFieldElement>

    ghost predicate Valid()
      reads this
    {
      state.Length == STATE_SIZE
    }

    /** `Tip5::new(domain)`. */
    constructor (domain: Domain)
      ensures Valid() && fresh(state)
      ensures state[..] == InitialState(domain)
    {
      var a := new BFieldElement[16](_ => ZERO);
      match domain {
        case VariableLength =>
        case FixedLength =>
          var i := RATE;
          while i < STATE_SIZE
            invariant RATE <= i <= STATE_SIZE
            invariant forall k :: 0 <= k < 16 ==> a[k] == if RATE <= k < i then ONE else ZERO
          {
            a[i] := ONE;
            i := i + 1;
          }
      }
      assert a[..] == InitialState(domain);
      state := a;
    }

    /** `split_and_lookup`: every raw byte of the element through the table. */
    static method SplitAndLookup(element: BFieldElement) returns (r: BFieldElement)
      ensures r == SplitAndLookupSpec(element)
    {
      var bytes := RawBytes(element);
      for i := 0 to 8
        invariant |bytes| == BYTES
        invariant forall k :: 0 <= k < i ==> bytes[k] == LookupTable(RawBytes(element)[k])
        invariant forall k :: i <= k < BYTES ==> bytes[k] == RawBytes(element)[k]
      {
        bytes := bytes[i := LookupTable(bytes[i])];
      }
      LookupBytesIndex(RawBytes(element));
      assert bytes == LookupBytes(RawBytes(element));
      r := FromRawBytes(bytes);
    }

    /** `mds_generated`: the circulant product computed on the 32-bit halves
        of the raw words, then recombined word by word. */
    method MdsGenerated()
      requires Valid()
      modifies state
      ensures state[..] == MdsSpec(old(state[..]))
    {
      var lo: seq<u64> := seq(16, _ => 0);
      var hi: seq<u64> := seq(16, _ => 0);
      for i := 0 to STATE_SIZE
        invariant Valid()
        invariant |lo| == 16 && |hi| == 16
        invariant forall k :: 0 <= k < i ==> lo[k] == old(state[k]).raw % 0x1_0000_0000 && hi[k] == old(state[k]).raw / 0x1_0000_0000
      {
        var b := RawU64(state[i]);
        hi := hi[i := b / 0x1_0000_0000];
        lo := lo[i := b % 0x1_0000_0000];
      }
      assert lo == LowHalves(old(state[..]));
      assert hi == HighHalves(old(state[..]));

      lo := GeneratedFunction(lo);
      hi := GeneratedFunction(hi);

      for r := 0 to STATE_SIZE
        invariant Valid()
        invariant forall k :: 0 <= k < r ==> state[k] == MdsSpec(old(state[..]))[k]
      {
        state[r] := FromRawU64(MdsRecombine(lo[r], hi[r]));
      }
      assert state[..] == MdsSpec(old(state[..]));
    }

    /** `sbox_layer`: split-and-lookup on the first four words, x^7 on the rest. */
    method SboxLayer()
      requires Valid()
      modifies state
      ensures state[..] == SboxSpec(old(state[..]))
    {
      LookupWords();
      PowerWords();
      SboxSpecByWords(old(state[..]), state[..]);
    }

    /** The first loop of `sbox_layer`: split-and-lookup on words 0..3. */
    method LookupWords()
      requires Valid()
      modifies state
      ensures forall k :: 0 <= k < NUM_SPLIT_AND_LOOKUP ==> state[k] == SplitAndLookupSpec(old(state[k]))
      ensures forall k :: NUM_SPLIT_AND_LOOKUP <= k < STATE_SIZE ==> state[k] == old(state[k])
    {
      for i := 0 to NUM_SPLIT_AND_LOOKUP
        invariant Valid()
        invariant forall k :: 0 <= k < i ==> state[k] == SplitAndLookupSpec(old(state[k]))
        invariant forall k :: i <= k < STATE_SIZE ==> state[k] == old(state[k])
      {
        state[i] := SplitAndLookup(state[i]);
      }
    }

    /** The second loop of `sbox_layer`: x * (x^2 * x^4) on words 4..15. */
    method PowerWords()
      requires Valid()
      modifies state
      ensures forall k :: 0 <= k < NUM_SPLIT_AND_LOOKUP ==> state[k] == old(state[k])
      ensures forall k :: NUM_SPLIT_AND_LOOKUP <= k < STATE_SIZE ==> state[k] == Seventh(old(state[k]))
    {
      for i := NUM_SPLIT_AND_LOOKUP to STATE_SIZE
        invariant Valid()
        invariant forall k :: 0 <= k < NUM_SPLIT_AND_LOOKUP ==> state[k] == old(state[k])
        invariant forall k :: NUM_SPLIT_AND_LOOKUP <= k < i ==> state[k] == Seventh(old(state[k]))
        invariant forall k :: i <= k < STATE_SIZE ==> state[k] == old(state[k])
      {
        var sq := Mul(state[i], state[i]);
        var qu := Mul(sq, sq);
        state[i] := Mul(state[i], Mul(sq, qu));
      }
    }

    /** `round(round_index)`. */
    method Round(roundIndex: nat)
      requires Valid() && roundIndex < NUM_ROUNDS
      modifies state
      ensures state[..] == RoundSpec(old(state[..]), roundIndex)
    {
      SboxLayer();
      MdsGenerated();
      AddRoundConstants(roundIndex);
    }

    /** The last loop of `round`: `state[i] += ROUND_CONSTANTS[16 * round_index + i]`. */
    method AddRoundConstants(roundIndex: nat)
      requires Valid() && roundIndex < NUM_ROUNDS
      modifies state
      ensures state[..] == AddRoundConstantsSpec(old(state[..]), roundIndex)
    {
      for i := 0 to STATE_SIZE
        invariant Valid()
        invariant forall k :: 0 <= k < i ==> state[k] == AddRoundConstantsSpec(old(state[..]), roundIndex)[k]
        invariant forall k :: i <= k < STATE_SIZE ==> state[k] == old(state[k])
      {
        state[i] := Add(state[i], RoundConstant(16 * roundIndex + i));
        assert state[i] == AddRoundConstantsSpec(old(state[..]), roundIndex)[i];
      }
    }

    /** `permutation`: the seven rounds in order. */
    method Permutation()
      requires Valid()
      modifies state
      ensures state[..] == PermutationSpec(old(state[..]))
    {
      for i := 0 to NUM_ROUNDS
        invariant Valid() && state[..] == RoundsSpec(old(state[..]), i)
      {
        NextRound(old(state[..]), i);
      }
    }

    /** One iteration of the loop of `permutation`: round i after the first i. */
    method NextRound(ghost s0: State, i: nat)
      requires Valid() && i < NUM_ROUNDS && state[..] == RoundsSpec(s0, i)
      modifies state
      ensures state[..] == RoundsSpec(s0, i + 1)
    {
      Round(i);
      RoundsStep(s0, i);
    }

    /** `trace`: the permutation, recording the state before the first round
        and after every round. */
    method Trace() returns (trace: array<State>)
      requires Valid()
      modifies state
      ensures fresh(trace) && trace[..] == TraceSpec(old(state[..]))
      ensures state[..] == PermutationSpec(old(state[..]))
    {
      trace := new State[1 + NUM_ROUNDS](_ => InitialState(VariableLength));
      trace[0] := state[..];
      for i := 0 to NUM_ROUNDS
        invariant Valid() && trace.Length == 1 + NUM_ROUNDS
        invariant TracePrefix(old(state[..]), trace[..], i) && state[..] == RoundsSpec(old(state[..]), i)
      {
        Round(i);
        ghost var t := trace[..];
        var row: State := state[..];
        trace[1 + i] := row;
        TraceStep(old(state[..]), t, i, row);
        assert trace[..] == t[i + 1 := row];
      }
      TraceComplete(old(state[..]), trace[..]);
    }

    /** `Sponge::init`: a variable-length sponge. */
    static method Init() returns (sponge: Tip5)
      ensures sponge.Valid() && fresh(sponge) && fresh(sponge.state)
      ensures sponge.state[..] == InitialState(VariableLength)
    {
      sponge := new Tip5(VariableLength);
    }

    /** `Sponge::absorb`: overwrite the rate with the block, then permute. */
    method Absorb(input: seq<BFieldElement>)
      requires Valid() && |input| == RATE
      modifies state
      ensures state[..] == AbsorbSpec(old(state[..]), input)
    {
      CopyFromSlice(0, input);
      assert state[..] == input + old(state[..])[RATE..];
      Permutation();
    }

    /** `state[offset..offset + |src|].copy_from_slice(src)`: the words of src
        written over the state from offset on, the rest unchanged. */
    method CopyFromSlice(offset: nat, src: seq<BFieldElement>)
      requires Valid() && offset + |src| <= STATE_SIZE
      modifies state
      ensures state[..] == old(state[..])[..offset] + src + old(state[..])[offset + |src|..]
    {
      for i := 0 to |src|
        invariant Valid()
        invariant forall k :: 0 <= k < offset ==> state[k] == old(state[k])
        invariant forall k :: 0 <= k < i ==> state[offset + k] == src[k]
        invariant forall k :: offset + i <= k < STATE_SIZE ==> state[k] == old(state[k])
      {
        state[offset + i] := src[i];
      }
      assert state[..] == old(state[..])[..offset] + src + old(state[..])[offset + |src|..];
    }

    /** `Sponge::squeeze`: read the rate, then permute. */
    method Squeeze() returns (produce: seq<BFieldElement>)
      requires Valid()
      modifies state
      ensures produce == old(state[..])[..RATE]
      ensures state[..] == PermutationSpec(old(state[..]))
    {
      produce := state[..RATE];
      Permutation();
    }

    /** `Sponge::pad_and_absorb_all`: pad the input and absorb it block by block. */
    method PadAndAbsorbAll(input: seq<BFieldElement>)
      requires Valid()
      modifies state
      ensures state[..] == AbsorbAllSpec(old(state[..]), Blocks(Pad(input)))
    {
      var padded := Pad(input);
      var chunks := Blocks(padded);
      for k := 0 to |chunks|
        invariant Valid() && state[..] == AbsorbAllSpec(old(state[..]), chunks[..k])
      {
        Absorb(chunks[k]);
        AbsorbAllStep(old(state[..]), chunks, k);
      }
      assert chunks[..|chunks|] == chunks;
    }

    /** `hash_10`: a fixed-length sponge, the input written over the rate,
        one permutation, and the first five words. */
    static method Hash10(input: seq<BFieldElement>) returns (output: seq<BFieldElement>)
      requires |input| == RATE
      ensures output == Hash10Spec(input)
    {
      var sponge := new Tip5(FixedLength);
      sponge.CopyFromSlice(0, input);
      assert sponge.state[..] == input + InitialState(FixedLength)[RATE..];
      sponge.Permutation();
      output := sponge.state[..D.LEN];
    }

    /** `hash_pair`: `hash_10` of the two digests' words, left then right. */
    static method HashPair(left: D.Digest, right: D.Digest) returns (d: D.Digest)
      ensures d == D.New(Hash10Spec(D.Values(left) + D.Values(right)))
    {
      var sponge := new Tip5(FixedLength);
      var l := D.Values(left);
      var r := D.Values(right);
      sponge.CopyFromSlice(0, l);
      sponge.CopyFromSlice(D.LEN, r);
      assert sponge.state[..] == (l + r) + InitialState(FixedLength)[RATE..];
      sponge.Permutation();
      d := D.New(sponge.state[..D.LEN]);
    }

    /** `hash_varlen`: a variable-length sponge absorbs the padded input,
        and the first five words are the digest. */
    static method HashVarlen(input: seq<BFieldElement>) returns (d: D.Digest)
      ensures d == HashVarlenSpec(input)
    {
      var sponge := Init();
      sponge.PadAndAbsorbAll(input);
      d := D.New(sponge.state[..D.LEN]);
    }
  }
}
