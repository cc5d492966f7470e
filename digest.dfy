/** A Tip5 digest: five base field elements. */
module Digest {
  import opened BField

  /** Number of field elements in a digest. */
  const LEN: nat := 5

  /** The fixed-size array `[BFieldElement; 5]`. */
  type DigestArray = s: seq<BFieldElement> | |s| == 5 witness [ZERO, ZERO, ZERO, ZERO, ZERO]

  /** Equality is the derived one: element-wise, i.e. on raw words. */
  datatype Digest = Digest(elements: DigestArray)

  /** `Digest::new`: wraps the array unchanged. */
  function New(elements: DigestArray): (d: Digest)
  {
    Digest(elements)
  }

  /** `values`: the wrapped array. */
  function Values(d: Digest): (es: seq<BFieldElement>)
    ensures |es| == LEN
  {
    d.elements
  }

  /** `new(a).values() == a` for every array of five elements. */
  lemma ValuesOfNew(a: DigestArray)
    ensures Values(New(a)) == a
  {
  }

  /** `Digest::new(d.values()) == d` for every digest. */
  lemma NewOfValues(d: Digest)
    ensures New(Values(d)) == d
  {
  }

  /** Two digests are equal exactly when their raw words agree position by position. */
  lemma DigestEquality(a: Digest, b: Digest)
    ensures a == b <==> forall i :: 0 <= i < LEN ==> Values(a)[i].raw == Values(b)[i].raw
  {
    if forall i :: 0 <= i < LEN ==> Values(a)[i].raw == Values(b)[i].raw {
      forall i | 0 <= i < LEN
        ensures a.elements[i] == b.elements[i]
      {
        assert Values(a)[i].raw == Values(b)[i].raw;
      }
      assert a.elements == b.elements;
    }
  }
}
