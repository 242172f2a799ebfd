# Sample-map generation and anchor selection, in Dafny

This project models the CPU core of the crop-segmentation sampler. Sentinel-2 quality masks become a map of valid sample anchors. That map is packed into a bit buffer, the `SampleCache`, and the sampler draws anchors from it by rank/select.

- **Validity mask** (`mapgen.dfy`, module `MapGen`):
  - `generateSampleMap` sets the output raster to all ones.
  - It then joins four kinds of mask with `joinUCharMasks`: the detector footprints (bounds [1, 255]), cloud ([0, cldMax]), snow ([0, snwMax]) and scene class ([4, 6]).
- **Anchor map** (`mapgen.dfy`):
  - `mapgen` replaces the mask in place with its anchor map, using a two-pass running window sum: row runs into `rowSums`, then column sums carried in `prevTotal`.
  - An anchor is 1 when its `sampleSize` × `sampleSize` window holds more than the fraction `minNonzeroPercentage` of nonzero pixels. The threshold is kept as the exact rational `minNum / minDen`.
  - Anchors in the last `sampleSize` rows or columns (`r >= bandDimY - sampleSize` or `c >= bandDimX - sampleSize`) are forced to 0.
  - Both passes are proved against a brute-force recount of every window, `AnchorMask`.
- **Packing** (`sampler_select.dfy`, module `SamplerIndex`): the packing loop of `genCache` stores pixel `8 i + j` as bit `j` of byte `i`, pads the buffer to whole 64-bit words, and counts `nOK`.
- **Selection** (`sampler_select.dfy`): `computeSampleIndex` reads the buffer as little-endian 64-bit words, skips whole words by popcount, and scans the target word from its lowest bit. It is proved equal to `Select` on the packed bits. `Rank` and `Select` are the brute-force reference definitions in `rank_select.dfy`. `bit_words.dfy` makes the byte view and the 64-bit word view explicit and proves they agree.
- **The cache record** (`sample_cache.dfy`, module `SampleCaches`): the `SampleCache` record and `freeSampleCache`.
- **Product discovery** (`sampler.dfy`, module `ProductScan`):
  - The Sampler constructor keeps a product only when its date key `year*12*31 + month*31 + day` lies in the date range.
  - `getMaxResolution` folds the flavours' dimensions into their componentwise maximum. It requires each X dimension to be a multiple of the running maximum, or the other way round.
  - The `Sampler` object holds its cache options and answers `getSampleDim`.
- **Pipeline** (`pipeline.dfy`): genCache's CPU path (generate the anchor map with `sampleSize = sampleDim`, then pack it) followed by the loop of the sampler's index test, which calls `computeSampleIndex(i)` for every `i < nOK`. The test expects only the two window bounds (and `size % 8 == 0`). The model proves those bounds, and also that each index is the i-th set bit of the cache and an anchor of the generated map.

mapgen forces every anchor with `r >= bandDimY - sampleSize` or `c >= bandDimX - sampleSize` to 0, although the window at `r = bandDimY - sampleSize` still fits (`r + sampleSize <= bandDimY`), and likewise for columns. A 4 × 4 mask with `sampleSize` 2 therefore has anchors only at rows and columns 0 and 1, where a rule that admits every window fitting inside the raster would allow 9. The model follows the code.

## Model

| member | source | states |
|---|---|---|
| MapGen.JoinUCharMasks | sampler/src/cpu/mapgen.cpp:9-24 | after joining nMasks masks, each output pixel keeps its old byte when every mask byte there is within [boundMin, boundMax], and is 0 otherwise |
| MapGen.JoinOne | sampler/src/cpu/mapgen.cpp:13-22 | one mask: a pixel becomes 0 exactly when its mask byte is out of bounds; every other pixel is unchanged |
| MapGen.JoinColumn | sampler/src/cpu/mapgen.cpp:16-21 | one column x of one mask: only pixels of column x with an out-of-bounds mask byte change, and they become 0 |
| MapGen.JoinStep | sampler/src/cpu/mapgen.cpp:12-23 | joining mask k+1 into the result of joining the first k gives the join of k+1 masks |
| MapGen.PassesAt | sampler/src/cpu/mapgen.cpp:12-23 | a pixel survives k masks exactly when each of the k masks has an in-bounds byte there |
| MapGen.JoinClears | sampler/src/cpu/mapgen.cpp:12-23 | a join only writes 0: the pixel keeps its byte if all masks are in bounds there, and becomes 0 if some mask is out of bounds |
| MapGen.JoinIdempotent | sampler/src/cpu/mapgen.cpp:9-24 | joining the same masks twice equals joining them once |
| MapGen.JoinsCommute | sampler/src/cpu/mapgen.cpp:101-104 | two joins applied in either order give the same raster |
| MapGen.JoinKeepsZero | sampler/src/cpu/mapgen.cpp:101-104 | a pixel that is 0 stays 0 through any later join |
| MapGen.FourJoinsAreValidity | sampler/src/cpu/mapgen.cpp:99-104 | memset plus the four joins gives the validity mask: 1 exactly where every footprint byte is in [1,255], cloud <= cldMax, snow <= snwMax and scene class is in [4,6], 0 elsewhere |
| MapGen.RunSlide | sampler/src/cpu/mapgen.cpp:48-50 | sliding a run one pixel right drops its first pixel's count and adds the next one's |
| MapGen.SeedRowSum | sampler/src/cpu/mapgen.cpp:41-46 | the seed loop leaves rowSums[q] equal to the number of nonzero bytes in mask[q .. q+sampleSize) and changes no other entry |
| MapGen.RowSumAt | sampler/src/cpu/mapgen.cpp:34-51 | one entry of the row pass: 0 when c + sampleSize >= bandDimX; otherwise, for a 0/1 mask, the run count (seeded at c = 0, slid from the previous entry elsewhere); no other entry changes |
| MapGen.RowSumsOfRow | sampler/src/cpu/mapgen.cpp:32-52 | one row of the row pass: each entry of the row is 0 at the right edge and the run count elsewhere (for a 0/1 mask); other rows are unchanged |
| MapGen.RowPass | sampler/src/cpu/mapgen.cpp:29-55 | rowSums is 0 where c + sampleSize >= bandDimX; for a 0/1 mask it equals the nonzero count of the run of sampleSize pixels everywhere else |
| MapGen.ColumnSlide | sampler/src/cpu/mapgen.cpp:76-77 | moving a column sum one row down subtracts the top entry and adds the one below the window |
| MapGen.ColumnOfRuns | sampler/src/cpu/mapgen.cpp:70-80 | a column sum of row-run counts equals the brute-force count of nonzero pixels in the window |
| MapGen.ColumnSlideAt | sampler/src/cpu/mapgen.cpp:76-77 | the entries read by the running update are inside rowSums, and the update yields the window's column sum |
| MapGen.SeedColumnTotal | sampler/src/cpu/mapgen.cpp:71-74 | the r = 0 seed loop sums the first sampleSize entries of the column |
| MapGen.WindowTotal | sampler/src/cpu/mapgen.cpp:70-78 | total at an in-range anchor equals the sum of rowSums over its window's rows, from the seed or from prevTotal |
| MapGen.ColumnAt | sampler/src/cpu/mapgen.cpp:62-84 | one anchor of the column pass: writes 0 in the boundary band and otherwise the threshold test on the window total; carries prevTotal correctly to the next row |
| MapGen.ColumnStep | sampler/src/cpu/mapgen.cpp:60-85 | after writing row r of column c, the column holds the pass result on rows up to r and is untouched elsewhere |
| MapGen.ColumnOfPass | sampler/src/cpu/mapgen.cpp:59-85 | one column of the column pass gets the threshold result on every row; other columns and rowSums are unchanged |
| MapGen.ColumnPass | sampler/src/cpu/mapgen.cpp:57-88 | every pixel gets the column-pass result computed from rowSums |
| MapGen.Mapgen | sampler/src/cpu/mapgen.cpp:26-90 | the output is 0/1, is 0 on the last sampleSize rows and columns, and, for a 0/1 input, equals the brute-force anchor map |
| MapGen.GenerateSampleMap | sampler/src/cpu/mapgen.cpp:92-107 | outMask becomes the anchor map of the validity mask |
| SamplerIndex.PackedSize | sampler/src/sampler.cpp:362 | the buffer size is a multiple of 8 bytes, holds a bit for every pixel, and pads by less than one 64-bit word |
| SamplerIndex.PaddedIsNonzeroPlusZeros | sampler/src/sampler.cpp:369-388 | the packed bit sequence is the per-pixel nonzero bits followed by clear padding |
| SamplerIndex.PackedCountAndSelect | sampler/src/sampler.cpp:368-388 | the packed buffer has as many set bits as the mask has nonzero pixels, and its k-th set bit is the k-th nonzero pixel |
| SamplerIndex.PackedRoundTrip | sampler/src/sampler.cpp:369-388 | selecting every k below the packed count gives back exactly the set of nonzero pixels |
| SamplerIndex.PackByte | sampler/src/sampler.cpp:370-388 | byte i gets bit j equal to (pixel 8i+j is nonzero), clear beyond the last pixel; okTotal grows by the number of nonzero pixels among them; other bytes are unchanged |
| SamplerIndex.SetClearBit | sampler/src/sampler.cpp:387 | OR-ing a 0/1 value into a clear bit j sets bit j to that value and keeps the lower bits |
| SamplerIndex.PackSampleMap | sampler/src/sampler.cpp:362-401 | the cache's bits are the mask's nonzero bits then clear padding, its size is the padded size, nOK is the number of nonzero pixels, and the cache is well formed |
| SamplerIndex.PackedBits | sampler/src/sampler.cpp:369-388 | byte-by-byte agreement with the mask is bit-by-bit agreement with the padded mask |
| SamplerIndex.WordIsAtBase | sampler/src/sampler.cpp:226 | bit b of 64-bit word i, read little-endian, is packed bit 64i + b |
| SamplerIndex.WordRank | sampler/src/sampler.cpp:226-228 | the rank at a word's base plus the set bits below position j of the word is the rank at base + j |
| SamplerIndex.ScanWord | sampler/src/sampler.cpp:234-245 | the bit scan stops one past the bit that completes `need` set bits, lowest bit first, and counts exactly `need` |
| SamplerIndex.ScanFindsTarget | sampler/src/sampler.cpp:228-253 | the bit where the scan stops is the k-th set bit of the buffer |
| SamplerIndex.TopBitIsTarget | sampler/src/sampler.cpp:255-258 | when a word completes the count exactly, its highest set bit (found with clz) is the k-th set bit |
| SamplerIndex.SelectInWords | sampler/src/sampler.cpp:222-272 | the word loop returns the k-th set bit when k is below the count; otherwise one before the end of the words, wrapping to SIZE_MAX when there are none; the asserts at lines 250 and 257 hold |
| SamplerIndex.ComputeSampleIndex | sampler/src/sampler.cpp:220-273 | computeSampleIndex(k) is Select of the buffer's bits for k below the number of set bits, and the end-of-buffer value otherwise; on a well-formed cache every k < nOK is below the count and gets Select of the whole buffer |
| RankSelect.RankOfSelect | sampler/src/sampler.cpp:220-273 | the selected position is a set bit with exactly k set bits before it |
| RankSelect.SelectByRank | sampler/src/sampler.cpp:220-273 | a set bit with exactly k set bits before it is the k-th selected position |
| RankSelect.SelectIncreasing | sampler/src/sampler.cpp:220-273 | selection is strictly increasing in k |
| RankSelect.SelectRoundTrip | sampler/src/sampler.cpp:220-273 | the selected positions for k below the count are exactly the set bits |
| RankSelect.PaddingInvisible | sampler/src/sampler.cpp:362-366 | trailing clear bits change neither the count nor any selected position |
| BitWords.WordBit | sampler/src/sampler.cpp:226 | bit b of `((uint64_t *)buf)[i]` is bit b % 8 of byte 8i + b / 8, that is, packed bit 64i + b |
| BitWords.LittleEndianBit | sampler/src/sampler.cpp:226 | bit b of a little-endian value is bit b % 8 of byte b / 8 |
| BitWords.WordAt | sampler/src/sampler.cpp:226 | a word read from the buffer is below 2^64 |
| BitWords.CountLeadingZeros | sampler/src/sampler.cpp:258 | clz of a nonzero 64-bit word is below 64, bit 63 - clz is set and no higher bit is |
| ProductScan.DateKey | sampler/src/sampler.cpp:153-161 | for a well-formed date, the key lies between 372·year + 32 and 372·year + 403 |
| ProductScan.DateKeyOrder | sampler/src/sampler.cpp:153-163 | on well-formed dates, key order is lexicographic (year, month, day) order, in both directions |
| ProductScan.DateKeyInjective | sampler/src/sampler.cpp:153-163 | on well-formed dates, equal keys mean equal dates |
| ProductScan.InDateRangeIsLexRange | sampler/src/sampler.cpp:153-163 | for well-formed dates, the key filter keeps a product exactly when its date lies lexicographically within the range |
| ProductScan.PrefixMax | sampler/src/sampler.cpp:115-116 | the running maximum bounds every value seen and equals one of them |
| ProductScan.NestFirst | sampler/src/sampler.cpp:109-113 | the first flavour needs no multiple check |
| ProductScan.NestBelow | sampler/src/sampler.cpp:109-113 | a new X no larger than the running maximum keeps the scales nested exactly when it divides that maximum |
| ProductScan.NestAbove | sampler/src/sampler.cpp:109-113 | a new X above the running maximum keeps the scales nested exactly when the maximum divides it |
| ProductScan.NoResolution | sampler/src/sampler.cpp:98-113 | a failed lookup, a zero dimension or X dimensions that stop nesting mean there is no resolution |
| ProductScan.ResolutionStep | sampler/src/sampler.cpp:96-117 | one flavour either fails the multiple test (then there is no resolution) or extends the running maxima |
| ProductScan.GetMaxResolution | sampler/src/sampler.cpp:92-124 | the result is none exactly when some flavour is missing or zero or the X dimensions do not nest; otherwise it is the componentwise maximum |
| ProductScan.MaxResolutionMeaning | sampler/src/sampler.cpp:92-124 | a resolution found bounds every flavour and is a multiple of every X dimension; with all flavours usable, none means some X dimension does not divide a later running maximum |
| ProductScan.DiscoverProducts | sampler/src/sampler.cpp:137-191 | the infos kept are the candidates that pass the date filter, have a product name and have a resolution, in order |
| ProductScan.ScannedMeaning | sampler/src/sampler.cpp:137-191 | every info kept comes from an in-range candidate with a product name, and carries its date, tile and maximum resolution; there are no more infos than candidates |
| ProductScan.Sampler.constructor | sampler/src/sampler.cpp:126-191 | the options are stored and infos is the result of the product scan |
| ProductScan.Sampler.GetSampleDim | sampler/src/sampler.h:66 | returns cacheGenOptions.sampleDim |
| SampleCaches.SampleCache.Empty | sampler/src/sampler.h:72-80 | a fresh SampleCache has a null bitrange |
| SampleCaches.SampleCache.Init | sampler/src/sampler.cpp:395-401 | the cache record holds the buffer, size, nOK, nRows and nCols it was given |
| SampleCaches.FreeSampleCache | sampler/src/sampler.h:82-87 | bitrange becomes null, size, nOK, nRows and nCols are unchanged, and a cache already without a buffer is left exactly as it was |
| Pipeline.SampleIndices | sampler/test/sampler.cpp:59-62 | on a well-formed cache, the test loop gets nOK indices, the i-th being the i-th set bit of the buffer |
| Pipeline.GenCacheAndSample | sampler/test/sampler.cpp:51-95 | after generating and packing the anchor map, the cache is well formed (so size % 8 == 0), and every index the test loop gets for i < nOK is the i-th set bit, an anchor of the generated map, and satisfies both EXPECT_LE bounds for any scaling factor of at least 1 |
| Pipeline.SelectedAnchorFits | sampler/test/sampler.cpp:92-95 | for k below the number of anchors the k-th set bit of the packed anchor map is a pixel whose anchor-map value is 1, and col + sampleDim/scaling <= nCols and row + sampleDim/scaling <= nRows for any scaling factor of at least 1 |

## Left out

- GDAL raster I/O is not modelled: opening datasets, `RasterIO`, `getProductDims`, `getSubProduct` and `randomSample`. Product dimensions and masks are inputs.
- File-name parsing with `std::regex` is not modelled. The year, month, day, tile name and product name are inputs, and a product whose name did not match is never a candidate.
- The inline selector in `randomSample` is not modelled; `computeSampleIndex` is the selector modelled.
- OpenMP concurrency is not modelled, in the constructor or in the test.
- The SQLite cache store is not modelled; only its declarations are visible.
- `std::rand` is not modelled.
- The CUDA path is not modelled.
- `minNonzeroPercentage` and `minOKPercentage` are floats in the source. The model compares against the exact rational `minNum / minDen`, so float rounding is not modelled. With `sampleSize` 0 the source divides 0 by 0, and NaN compares false; the model likewise gives 0.
- `nPixelsCondensed` is computed in the source through `std::ceil` on a double. The model uses the integer ceiling `(nPixels + 63) / 64 * 8`, which agrees for every pixel count below 2^53.
- MapGen.Mapgen: the exact anchor map is stated only for a 0/1 input mask. The slide subtracts and adds raw bytes, so the row sums are not counts for other inputs. For any input the output is still proved to be 0/1 and 0 on the boundary. `generateSampleMap` always passes a 0/1 mask.
- MapGen.JoinUCharMasks requires the input masks and the output to be distinct arrays; joining a mask into itself is not modelled.
- MapGen.Mapgen requires `sampleSize <= bandDimX` and `sampleSize <= bandDimY`. Beyond that, the unsigned subtractions at lines 34 and 62 of `mapgen.cpp` wrap around and the reads run past the buffers.
- MapGen.RowPass: `rowSums` is a 32-bit `int` array in the source. The model uses unbounded integers; a count never exceeds `sampleSize`.
- The local counter `nOK` in `mapgen` is computed but never used, so it is not modelled.
- SamplerIndex.ComputeSampleIndex: `sampleOKIndex + 1` is assumed not to wrap. `sampleOKIndex` is SIZE_MAX only when no bit could be selected. The final `sampleIndex - 1` does wrap to SIZE_MAX when no whole word is scanned, as in the source.
- The debug assertion tied to a tile width of 10980 at lines 378-380 of `sampler.cpp` is not modelled.
- ProductScan.GetMaxResolution: the flag `cont` is never set in the source, so its check is left out.
- Cache generation in the Sampler constructor is not modelled: with `preproc` set, lines 198-217 of `sampler.cpp` call `genCache` for each product and store the result in `info.cache`. `Pipeline.GenCacheAndSample` covers one call of genCache's CPU path, but the constructor has no `preproc` parameter and `SampleInfo` has no cache.
- Pipeline.GenCacheAndSample: genCache's call at lines 352-359 of `sampler.cpp` passes 11 arguments, matching the declaration in `mapgen.h` without a scene-class band, so `stage` sits where the 12-parameter definition in `mapgen.cpp` expects `sclMask`. The pipeline composes genCache with the 12-parameter definition and takes the scene-class band as an extra input.
- MapGen.Mapgen: the threshold `minNonzeroPercentage` is a float in the source and the model takes it as `minNum / minDen`. `minDen == 0` has no float counterpart; there the test `total * 0 > minNum * sampleSize²` ignores the window and acts as an infinite (or, for negative `minNum`, absent) threshold.
- `sampler.h` declares `genSampleCache` and has no `cache` field in `SampleInfo`. The bodies modelled are those of `sampler.cpp`, which uses `genCache`. `SampleInfo` here carries no cache and no path.
- The CPU header `mapgen.h` omits `sclMask`; the definition in `mapgen.cpp`, which takes `sclMask`, is the one modelled.
- The date key uses `size_t` arithmetic in the source. The model uses unbounded naturals, which agree for any four-digit year.
