/**
 * Packing the anchor mask into the sample cache (the tail of genCache) and
 * the rank/select query over it (computeSampleIndex), from
 * sampler/src/sampler.cpp.
 */
module SamplerIndex {
  import opened BitWords
  import opened RankSelect
  import opened SampleCaches

  /** The largest size_t, the value `0 - 1` wraps to. */
  const SIZE_MAX: nat := 0xFFFF_FFFF_FFFF_FFFF

  /** Bytes of the packed buffer for nPixels pixels: whole 64-bit words. */
  function PackedSize(nPixels: nat): (size: nat)
    ensures size % 8 == 0 && nPixels <= 8 * size
    ensures 8 * size < nPixels + 64
  {
    (nPixels + 63) / 64 * 8
  }

  /** Whether pixel p of the anchor mask is OK; pixels past the mask are not. */
  predicate PixelOK(stage: seq<Byte>, p: nat)
  {
    p < |stage| && stage[p] != 0
  }

  /** The anchor mask as bits, one per pixel. */
  function Nonzero(stage: seq<Byte>): (bits: seq<bool>)
    ensures |bits| == |stage|
  {
    seq(|stage|, p requires 0 <= p < |stage| => stage[p] != 0)
  }

  /** The bits the packed buffer must hold: the mask, then clear padding. */
  function Padded(stage: seq<Byte>, nBytes: nat): (bits: seq<bool>)
  {
    seq(8 * nBytes, p requires 0 <= p < 8 * nBytes => PixelOK(stage, p))
  }

  /** Padding hides nothing: the padded bits are the mask bits followed by zeros. */
  lemma PaddedIsNonzeroPlusZeros(stage: seq<Byte>, nBytes: nat)
    requires |stage| <= 8 * nBytes
    ensures Padded(stage, nBytes) == Nonzero(stage) + seq(8 * nBytes - |stage|, _ => false)
  {
  }

  /** The packed buffer has as many set bits as the mask has nonzero pixels, at the same positions. */
  lemma PackedCountAndSelect(stage: seq<Byte>, nBytes: nat)
    requires |stage| <= 8 * nBytes
    ensures Count(Padded(stage, nBytes)) == Count(Nonzero(stage))
    ensures forall k :: 0 <= k < Count(Nonzero(stage)) ==>
              Select(Padded(stage, nBytes), k) == Select(Nonzero(stage), k)
  {
    PaddedIsNonzeroPlusZeros(stage, nBytes);
    PaddingInvisible(Nonzero(stage), 8 * nBytes - |stage|);
  }

  /**
   * Round trip: selecting every k below the packed count gives back exactly
   * the nonzero pixels of the mask.
   */
  lemma PackedRoundTrip(stage: seq<Byte>, nBytes: nat)
    requires |stage| <= 8 * nBytes
    ensures Count(Padded(stage, nBytes)) == Count(Nonzero(stage))
    ensures (set k | 0 <= k < Count(Padded(stage, nBytes)) :: Select(Padded(stage, nBytes), k))
         == (set p | 0 <= p < |stage| && stage[p] != 0)
  {
    PackedCountAndSelect(stage, nBytes);
    var ok := Nonzero(stage);
    SelectRoundTrip(ok);
    assert (set p | 0 <= p < |ok| && ok[p]) == (set p | 0 <= p < |stage| && stage[p] != 0);
    assert (set k | 0 <= k < Count(Padded(stage, nBytes)) :: Select(Padded(stage, nBytes), k))
        == (set k | 0 <= k < Count(ok) :: Select(ok, k));
  }

  /** min(p, n), the prefix of the mask that lies before packed bit p. */
  function Clip(p: nat, n: nat): (clipped: nat)
  {
    if p <= n then p else n
  }

  /**
   * One pass of the inner packing loop: the pixels 8i .. 8i+7 that exist go
   * into byte i of condensed, lowest pixel in bit 0, and okTotal grows by the
   * number of them that are nonzero.
   */
  method PackByte(condensed: array<Byte>, i: nat, stage: array<Byte>, okTotal: nat) returns (total: nat)
    requires i < condensed.Length && condensed != stage
    modifies condensed
    ensures forall q :: 0 <= q < condensed.Length && q != i ==> condensed[q] == old(condensed[q])
    ensures forall b :: 0 <= b < 8 ==> BitSet(condensed[i], b) == PixelOK(stage[..], 8 * i + b)
    ensures total + Rank(Nonzero(stage[..]), Clip(8 * i, stage.Length))
         == okTotal + Rank(Nonzero(stage[..]), Clip(8 * i + 8, stage.Length))
  {
    var nPixels := stage.Length;
    ghost var st := stage[..];
    ghost var ok := Nonzero(st);
    total := okTotal;
    condensed[i] := 0;
    var j := 0;
    while j < 8 && i * 8 + j < nPixels
      invariant 0 <= j <= 8 && (j == 0 || 8 * i + j <= nPixels)
      invariant condensed[i] < Pow2(j)
      invariant forall b :: 0 <= b < j ==> BitSet(condensed[i], b) == PixelOK(st, 8 * i + b)
      invariant forall q :: 0 <= q < condensed.Length && q != i ==> condensed[q] == old(condensed[q])
      invariant 8 * i <= nPixels ==> total + Rank(ok, 8 * i) == okTotal + Rank(ok, 8 * i + j)
      invariant 8 * i > nPixels ==> total == okTotal
    {
      var bit := if stage[i * 8 + j] != 0 then 1 else 0;
      assert ok[8 * i + j] == PixelOK(st, 8 * i + j) == (bit == 1);
      assert Rank(ok, 8 * i + j + 1) == Rank(ok, 8 * i + j) + bit;
      total := total + bit;
      // `condensed[i] |= ok << j`: bit j is still clear, so the OR adds 2^j
      var before := condensed[i];
      SetClearBit(before, bit, j);
      condensed[i] := before + bit * Pow2(j);
      assert forall b :: 0 <= b < j ==> BitSet(condensed[i], b) == BitSet(before, b);
      j := j + 1;
    }
    forall b | j <= b < 8
      ensures BitSet(condensed[i], b) == PixelOK(st, 8 * i + b)
    {
      BitsAboveBound(condensed[i], j, b);
    }
    assert Clip(8 * i + 8, nPixels) == if 8 * i <= nPixels then 8 * i + j else nPixels;
  }

  /** Adding bit * 2^j to a byte below 2^j sets bit j to bit and keeps the lower bits. */
  lemma SetClearBit(before: Byte, bit: nat, j: nat)
    requires before < Pow2(j) && j < 8 && bit <= 1
    ensures before + bit * Pow2(j) < Pow2(j + 1) <= 256
    ensures BitSet(before + bit * Pow2(j), j) == (bit == 1)
    ensures forall b :: 0 <= b < j ==> BitSet(before + bit * Pow2(j), b) == BitSet(before, b)
  {
    Pow2Byte();
    Pow2Monotone(j + 1, 8);
    BitsOfSplit(before, bit, j, j);
    assert BitSet(bit, 0) == (bit == 1);
    forall b | 0 <= b < j
      ensures BitSet(before + bit * Pow2(j), b) == BitSet(before, b)
    {
      BitsOfSplit(before, bit, j, b);
    }
  }

  /**
   * The packing loop of genCache: pixel i*8 + j becomes bit j of byte i, the
   * buffer is padded to whole 64-bit words, and okTotal counts the nonzero
   * pixels. The buffer and okTotal become a SampleCache of nRows x nCols.
   */
  method PackSampleMap(stage: array<Byte>, nRows: nat, nCols: nat) returns (cache: SampleCache)
    requires stage.Length == nRows * nCols
    ensures fresh(cache) && fresh(cache.bitrange)
    ensures cache.Valid()
    ensures cache.nRows == nRows && cache.nCols == nCols
    ensures cache.size == PackedSize(nRows * nCols)
    ensures Bits(cache.bitrange[..]) == Padded(stage[..], cache.size)
    ensures cache.nOK == Count(Nonzero(stage[..]))
  {
    var nPixels := nRows * nCols;
    var nPixelsCondensed := PackedSize(nPixels);
    // malloc followed by memset(condensed, 0, nPixelsCondensed)
    var condensed := new Byte[nPixelsCondensed](_ => 0);
    ghost var ok := Nonzero(stage[..]);

    var okTotal := 0;
    var i := 0;
    while i < nPixelsCondensed
      invariant 0 <= i <= nPixelsCondensed
      invariant forall q, b :: 0 <= q < i && 0 <= b < 8 ==>
                  BitSet(condensed[q], b) == PixelOK(stage[..], 8 * q + b)
      invariant okTotal == Rank(ok, Clip(8 * i, nPixels))
    {
      okTotal := PackByte(condensed, i, stage, okTotal);
      i := i + 1;
    }

    cache := new SampleCache.Init(condensed, nPixelsCondensed, okTotal, nRows, nCols);
    PackedBits(condensed[..], stage[..]);
    PackedCountAndSelect(stage[..], nPixelsCondensed);
  }

  /** Byte-wise agreement with the mask is bit-wise agreement with the padded mask. */
  lemma PackedBits(condensed: seq<Byte>, stage: seq<Byte>)
    requires forall q, b :: 0 <= q < |condensed| && 0 <= b < 8 ==>
               BitSet(condensed[q], b) == PixelOK(stage, 8 * q + b)
    ensures Bits(condensed) == Padded(stage, |condensed|)
  {
    forall p | 0 <= p < 8 * |condensed|
      ensures Bits(condensed)[p] == Padded(stage, |condensed|)[p]
    {
      assert 8 * (p / 8) + p % 8 == p;
    }
  }

  /** The bits of a 64-bit word, laid over the bit sequence at base. */
  ghost predicate WordAtBase(bits: seq<bool>, word: nat, base: nat)
  {
    base + 64 <= |bits| && forall b :: 0 <= b < 64 ==> BitSet(word, b) == bits[base + b]
  }

  /** `((uint64_t *)bitrange)[i]`, read little-endian, has bit b equal to pixel bit 64 i + b. */
  lemma WordIsAtBase(bytes: seq<Byte>, i: nat)
    requires 8 * i + 8 <= |bytes|
    ensures WordAtBase(Bits(bytes), WordAt(bytes, i), 64 * i)
  {
    forall b | 0 <= b < 64
      ensures BitSet(WordAt(bytes, i), b) == Bits(bytes)[64 * i + b]
    {
      WordBit(bytes, i, b);
    }
  }

  /** Set bits of a word below position j, plus the rank at its base, give the rank at base + j. */
  lemma {:induction false} WordRank(bits: seq<bool>, word: nat, base: nat, j: nat)
    requires WordAtBase(bits, word, base) && j <= 64
    ensures Rank(bits, base) + CountBits(word, j) == Rank(bits, base + j)
  {
    if j > 0 {
      WordRank(bits, word, base, j - 1);
    }
  }

  /**
   * The scan of computeSampleIndex inside the target word: bits are visited
   * lowest first until `need` set bits have been seen; j ends one past the
   * bit that completed the count.
   */
  method ScanWord(word: nat, need: nat) returns (j: nat, cnt: nat)
    requires 0 < need < Popcount(word)
    ensures 0 < j <= 64 && cnt == need
    ensures CountBits(word, j) == need && CountBits(word, j - 1) < need
  {
    cnt := 0;
    j := 0;
    while j < 64 && cnt < need
      invariant 0 <= j <= 64
      invariant cnt == CountBits(word, j) && cnt <= need
      invariant j > 0 ==> CountBits(word, j - 1) < need
    {
      cnt := cnt + (if BitSet(word, j) then 1 else 0);
      j := j + 1;
    }
  }

  /** p is the position of the k-th set bit: it is set and k set bits precede it. */
  ghost predicate IsKthSetBit(bits: seq<bool>, k: nat, p: nat)
  {
    p < |bits| && bits[p] && Rank(bits, p) == k
  }

  /** The bit scan stopped just after the bit that completes the count: that bit is the target. */
  lemma ScanFindsTarget(bits: seq<bool>, word: nat, base: nat, j: nat, k: nat)
    requires WordAtBase(bits, word, base) && 0 < j <= 64
    requires Rank(bits, base) <= k
    requires CountBits(word, j) == k + 1 - Rank(bits, base)
    requires CountBits(word, j - 1) < k + 1 - Rank(bits, base)
    ensures IsKthSetBit(bits, k, base + j - 1)
    ensures k < Count(bits) && Select(bits, k) == base + j - 1
  {
    WordRank(bits, word, base, j - 1);
    SelectByRank(bits, base + j - 1, k);
  }

  /** When a word completes the count exactly, its highest set bit is the target. */
  lemma TopBitIsTarget(bits: seq<bool>, word: nat, base: nat, k: nat)
    requires WordAtBase(bits, word, base) && 0 < word < Pow2(64)
    requires Rank(bits, base) + Popcount(word) == k + 1
    ensures IsKthSetBit(bits, k, base + 63 - CountLeadingZeros(word))
    ensures k < Count(bits) && Select(bits, k) == base + 63 - CountLeadingZeros(word)
  {
    var top := 63 - CountLeadingZeros(word);
    CountBitsPastTop(word, top + 1, 64);
    WordRank(bits, word, base, top);
    SelectByRank(bits, base + top, k);
  }

  /**
   * computeSampleIndex: the linear pixel index of the k-th set bit of the
   * buffer, read as size/8 little-endian 64-bit words. When fewer than k+1
   * bits are set the result is one before the end of the scanned words,
   * wrapping to SIZE_MAX on a buffer without a whole word.
   */
  method ComputeSampleIndex(sampleOKIndex: nat, cache: SampleCache) returns (index: nat)
    requires cache.bitrange != null && cache.size <= cache.bitrange.Length
    ensures var bits := Bits(cache.bitrange[..8 * (cache.size / 8)]);
            sampleOKIndex < Count(bits) ==> index == Select(bits, sampleOKIndex)
    ensures var bits := Bits(cache.bitrange[..8 * (cache.size / 8)]);
            sampleOKIndex >= Count(bits) ==>
              index == if cache.size / 8 == 0 then SIZE_MAX else 64 * (cache.size / 8) - 1
    ensures cache.Valid() && sampleOKIndex < cache.nOK ==>
              sampleOKIndex < Count(Bits(cache.bitrange[..]))
              && index == Select(Bits(cache.bitrange[..]), sampleOKIndex)
  {
    var nWords := cache.size / 8;
    var bytes := cache.bitrange[..8 * nWords];
    if cache.Valid() {
      assert 8 * nWords == cache.size;
      assert bytes == cache.bitrange[..];
    }
    forall i | 0 <= i < nWords ensures WordAtBase(Bits(bytes), WordAt(bytes, i), 64 * i) {
      WordIsAtBase(bytes, i);
    }
    index := SelectInWords(sampleOKIndex, bytes, nWords, Bits(bytes));
  }

  /**
   * The word loop of computeSampleIndex, over the buffer seen as nWords
   * 64-bit words whose bits are laid over `bits`. Whole words are skipped
   * by popcount; in the word holding the target the bits are scanned
   * lowest first, or, when the word completes the count exactly, its
   * highest set bit is taken from the count of leading zeros.
   */
  method SelectInWords(sampleOKIndex: nat, bytes: seq<Byte>, nWords: nat, ghost bits: seq<bool>) returns (index: nat)
    requires |bytes| == 8 * nWords && |bits| == 64 * nWords
    requires forall i :: 0 <= i < nWords ==> WordAtBase(bits, WordAt(bytes, i), 64 * i)
    ensures sampleOKIndex < Count(bits) ==> index == Select(bits, sampleOKIndex)
    ensures sampleOKIndex >= Count(bits) ==>
              index == if nWords == 0 then SIZE_MAX else 64 * nWords - 1
  {
    var target := sampleOKIndex + 1;
    var sampleIndex := 0;
    var currentCount := 0;
    var i := 0;
    while i < nWords
      invariant 0 <= i <= nWords
      invariant sampleIndex == 64 * i
      invariant currentCount == Rank(bits, 64 * i) && currentCount < target
    {
      var word := WordAt(bytes, i);
      var cnt := Popcount(word);
      WordRank(bits, word, 64 * i, 64);
      if currentCount + cnt > target {
        var j;
        j, cnt := ScanWord(word, target - currentCount);
        // the source asserts this at sampler.cpp line 250
        assert cnt == target - currentCount;
        ScanFindsTarget(bits, word, 64 * i, j, sampleOKIndex);
        sampleIndex := sampleIndex + j;
        currentCount := currentCount + cnt;
      } else if currentCount + cnt == target {
        currentCount := currentCount + cnt;
        // the source asserts this at sampler.cpp line 257
        PopcountOfZero();
        assert word != 0;
        TopBitIsTarget(bits, word, 64 * i, sampleOKIndex);
        sampleIndex := sampleIndex + (64 - CountLeadingZeros(word));
      } else {
        currentCount := currentCount + cnt;
        sampleIndex := sampleIndex + 64;
      }
      if currentCount == target {
        break;
      }
      i := i + 1;
    }
    // size_t arithmetic: 0 - 1 wraps around
    index := if sampleIndex == 0 then SIZE_MAX else sampleIndex - 1;
  }
}
