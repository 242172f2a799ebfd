/**
 * The SampleCache record of the sampler (sampler/src/sampler.h): the packed
 * anchor bitmap, its size in bytes, the number of set bits (nOK) and the
 * dimensions of the mask that was packed.
 */
module SampleCaches {
  import opened BitWords
  import opened RankSelect

  class SampleCache {
    /** The packed buffer; null once released (`uint8_t *bitrange = nullptr`). */
    var bitrange: array?<Byte>
    var size: nat
    var nOK: nat
    var nRows: nat
    var nCols: nat

    /**
     * A well-formed cache, as the packer produces it: whole 64-bit words, room
     * for every pixel, nOK is the number of set bits, and no bit is set at or
     * beyond pixel nRows * nCols.
     */
    ghost predicate Valid()
      reads this, bitrange
    {
      && bitrange != null
      && bitrange.Length == size
      && size % 8 == 0
      && nRows * nCols <= 8 * size
      && nOK == Count(Bits(bitrange[..]))
      && forall p :: nRows * nCols <= p < 8 * size ==> !Bits(bitrange[..])[p]
    }

    /** A default-initialised cache (`SampleCache{}`) holds no buffer. */
    constructor Empty()
      ensures bitrange == null
      ensures size == 0 && nOK == 0 && nRows == 0 && nCols == 0
    {
      bitrange := null;
      size, nOK, nRows, nCols := 0, 0, 0, 0;
    }

    /** Aggregate initialisation with every field given. */
    constructor Init(bitrange: array<Byte>, size: nat, nOK: nat, nRows: nat, nCols: nat)
      ensures this.bitrange == bitrange && this.size == size && this.nOK == nOK
      ensures this.nRows == nRows && this.nCols == nCols
    {
      this.bitrange := bitrange;
      this.size := size;
      this.nOK := nOK;
      this.nRows := nRows;
      this.nCols := nCols;
    }
  }

  /**
   * freeSampleCache: releases the buffer and clears the pointer. The other
   * fields are kept, and a cache with no buffer is left as it is.
   */
  method FreeSampleCache(cache: SampleCache)
    modifies cache
    ensures cache.bitrange == null
    ensures cache.size == old(cache.size) && cache.nOK == old(cache.nOK)
    ensures cache.nRows == old(cache.nRows) && cache.nCols == old(cache.nCols)
    ensures old(cache.bitrange) == null ==> unchanged(cache)
  {
    if cache.bitrange != null {
      cache.bitrange := null;
    }
  }
}
