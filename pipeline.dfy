/**
 * From the sample map to a sample position. genCache packs the anchor mask
 * that generateSampleMap produced (with sampleSize = sampleDim) and
 * computeSampleIndex selects from it; the sampler's index test then checks
 * that the window of every selected anchor, scaled down by the scaling
 * factor, lies inside the raster.
 */
module Pipeline {
  import opened BitWords
  import opened RankSelect
  import opened Grid
  import opened MapGen
  import opened SamplerIndex
  import opened SampleCaches

  /**
   * For k below the number of anchors, the k-th set bit of the packed anchor
   * mask is an anchor: a pixel of the raster whose mask value is 1, and whose
   * sampleDim / scalingFactor window fits in the nRows by nCols raster for
   * any scaling factor of at least 1.
   */
  lemma SelectedAnchorFits(mask: seq<Byte>, nRows: nat, nCols: nat, sampleDim: nat,
                           minNum: int, minDen: nat, k: nat, scalingFactor: nat)
    requires scalingFactor >= 1
    requires k < Count(Nonzero(AnchorMask(mask, nCols, nRows, sampleDim, minNum, minDen)))
    ensures var stage := AnchorMask(mask, nCols, nRows, sampleDim, minNum, minDen);
            k < Count(Padded(stage, PackedSize(nRows * nCols))) &&
            var p := Select(Padded(stage, PackedSize(nRows * nCols)), k);
            && p < nRows * nCols && stage[p] == 1
            && p % nCols + sampleDim / scalingFactor <= nCols
            && p / nCols + sampleDim / scalingFactor <= nRows
  {
    var stage := AnchorMask(mask, nCols, nRows, sampleDim, minNum, minDen);
    PackedCountAndSelect(stage, PackedSize(nRows * nCols));
    var p := Select(Nonzero(stage), k);
    RankOfSelect(Nonzero(stage), k);
    assert AnchorOK(mask, nCols, nRows, sampleDim, minNum, minDen, p);
    DivLe(sampleDim, scalingFactor);
  }

  /**
   * The cache generation of genCache on the CPU path followed by the
   * sampler's index test: the anchor mask is generated with sampleSize =
   * sampleDim, packed into a fresh cache, and computeSampleIndex is asked
   * for every i below cache.nOK. Each index returned is the i-th set bit of
   * the cache, a pixel whose anchor-map value is 1, and both window bounds
   * the test expects hold for it.
   */
  method GenCacheAndSample(detfooMasks: array<Byte>, nDetfooMasks: nat,
                           cldMask: array<Byte>, cldMax: Byte,
                           snwMask: array<Byte>, snwMax: Byte,
                           sclMask: array<Byte>, nRows: nat, nCols: nat,
                           sampleDim: nat, minNum: int, minDen: nat, scalingFactor: nat)
    returns (cache: SampleCache, indices: seq<nat>)
    requires nCols * nRows * nDetfooMasks <= detfooMasks.Length
    requires nCols * nRows <= cldMask.Length && nCols * nRows <= snwMask.Length
    requires nCols * nRows <= sclMask.Length
    requires sampleDim <= nCols && sampleDim <= nRows
    requires scalingFactor >= 1
    ensures fresh(cache) && cache.Valid() && cache.nRows == nRows && cache.nCols == nCols
    ensures |indices| == cache.nOK
    ensures forall i :: 0 <= i < |indices| ==>
              i < Count(Bits(cache.bitrange[..])) && indices[i] == Select(Bits(cache.bitrange[..]), i)
    ensures var anchors := AnchorMask(ValidityMask(detfooMasks[..], nDetfooMasks, cldMask[..], cldMax,
                                                   snwMask[..], snwMax, sclMask[..], nCols * nRows),
                                      nCols, nRows, sampleDim, minNum, minDen);
            forall i :: 0 <= i < |indices| ==>
              && indices[i] < nRows * nCols && anchors[indices[i]] == 1
              && indices[i] % nCols + sampleDim / scalingFactor <= nCols
              && indices[i] / nCols + sampleDim / scalingFactor <= nRows
  {
    ghost var valid := ValidityMask(detfooMasks[..], nDetfooMasks, cldMask[..], cldMax,
                                    snwMask[..], snwMax, sclMask[..], nCols * nRows);
    var stage := new Byte[nCols * nRows];
    GenerateSampleMap(detfooMasks, nDetfooMasks, cldMask, cldMax, snwMask, snwMax, sclMask,
                      stage, nCols, nRows, sampleDim, minNum, minDen);
    cache := PackSampleMap(stage, nRows, nCols);
    ghost var anchors := AnchorMask(valid, nCols, nRows, sampleDim, minNum, minDen);
    ghost var bits := Bits(cache.bitrange[..]);
    assert stage[..] == anchors;
    assert bits == Padded(anchors, PackedSize(nRows * nCols));
    indices := SampleIndices(cache);
    forall i | 0 <= i < |indices|
      ensures && indices[i] < nRows * nCols && anchors[indices[i]] == 1
              && indices[i] % nCols + sampleDim / scalingFactor <= nCols
              && indices[i] / nCols + sampleDim / scalingFactor <= nRows
    {
      SelectedAnchorFits(valid, nRows, nCols, sampleDim, minNum, minDen, i, scalingFactor);
    }
  }

  /**
   * The loop of the sampler's index test: computeSampleIndex(i) for every i
   * below cache.nOK, in order. On a well-formed cache the i-th answer is the
   * i-th set bit of the buffer.
   */
  method SampleIndices(cache: SampleCache) returns (indices: seq<nat>)
    requires cache.Valid()
    ensures |indices| == cache.nOK
    ensures forall i :: 0 <= i < |indices| ==>
              i < Count(Bits(cache.bitrange[..])) && indices[i] == Select(Bits(cache.bitrange[..]), i)
  {
    indices := [];
    var i := 0;
    while i < cache.nOK
      invariant 0 <= i <= cache.nOK && |indices| == i
      invariant forall j :: 0 <= j < i ==>
                  j < Count(Bits(cache.bitrange[..])) && indices[j] == Select(Bits(cache.bitrange[..]), j)
    {
      var sampleIndex := ComputeSampleIndex(i, cache);
      indices := indices + [sampleIndex];
      i := i + 1;
    }
  }

  /** Dividing by a positive number does not make a natural number larger. */
  lemma DivLe(n: nat, d: nat)
    requires d >= 1
    ensures n / d <= n
  {
    if n / d > n {
      MulLe(1, d, n / d);
      assert false;
    }
  }
}
