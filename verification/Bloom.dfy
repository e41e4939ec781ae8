/** The optional Bloom filter of a table: HASH_BLOOM_MAKE, HASH_BLOOM_ADD and HASH_BLOOM_TEST. */
module BloomFilter {
  import opened Bits

  /** HASH_BLOOM_BYTELEN for a filter of 2^nbits bits. */
  function ByteLen(nbits: nat): nat {
    Pow2(nbits) / 8 + if Pow2(nbits) % 8 != 0 then 1 else 0
  }

  /** It is the least number of bytes with room for the bits. */
  lemma BytesForBits(nbits: nat)
    ensures 8 * ByteLen(nbits) >= Pow2(nbits) > 8 * (ByteLen(nbits) - 1)
  {
    hide Pow2;
  }

  /** The bit a hash value selects. */
  function Index(hashv: nat, nbits: nat): nat {
    And(hashv, Pow2(nbits) - 1)
  }

  lemma IndexInRange(hashv: nat, nbits: nat)
    ensures Index(hashv, nbits) == hashv % Pow2(nbits) && Index(hashv, nbits) / 8 < ByteLen(nbits)
  {
    AndLowMask(hashv, nbits);
  }

  class Bloom {
    const nbits: nat
    const bv: array<nat>
    /** The bits that are set. */
    ghost var marked: set<nat>

    ghost predicate Valid()
      reads this, bv
    {
      && bv.Length == ByteLen(nbits)
      && forall i :: 0 <= i < 8 * bv.Length ==> (i in marked <==> Bit(bv[i / 8], i % 8))
    }

    constructor (nbits: nat)
      ensures Valid() && this.nbits == nbits && fresh(bv) && marked == {}
    {
      this.nbits := nbits;
      bv := new nat[ByteLen(nbits)](_ => 0);
      marked := {};
      new;
      forall i | 0 <= i < 8 * bv.Length
        ensures !Bit(bv[i / 8], i % 8)
      {
        BitOfZero(i % 8);
      }
    }

    method Add(hashv: nat)
      requires Valid()
      modifies bv, this`marked
      ensures Valid() && marked == old(marked) + {Index(hashv, nbits)}
    {
      hide Index, Bit, Or, Pow2, ByteLen;
      IndexInRange(hashv, nbits);
      var idx := Index(hashv, nbits);
      ghost var was := bv[..];
      bv[idx / 8] := Or(bv[idx / 8], Pow2(idx % 8));
      marked := marked + {idx};
      forall i | 0 <= i < 8 * bv.Length
        ensures i in marked <==> Bit(bv[i / 8], i % 8)
      {
        BitOfOr(was[idx / 8], Pow2(idx % 8), i % 8);
        BitOfPow2(idx % 8, i % 8);
      }
    }

    method Test(hashv: nat) returns (hit: bool)
      requires Valid()
      ensures hit <==> Index(hashv, nbits) in marked
    {
      hide Index, Bit, And, ByteLen;
      IndexInRange(hashv, nbits);
      var idx := Index(hashv, nbits);
      AndPow2(bv[idx / 8], idx % 8);
      hit := And(bv[idx / 8], Pow2(idx % 8)) != 0;
    }
  }
}
