/**
 * The CPU sample-map generator: a validity mask is built by joining quality
 * masks into an all-ones raster, and is then replaced in place by the mask of
 * anchors whose sampleSize by sampleSize window holds enough valid pixels.
 *
 * Rasters are bandDimY rows of bandDimX bytes, row-major. The threshold
 * `minNonzeroPercentage` is the exact rational minNum / minDen.
 */
module MapGen {
  import opened BitWords
  import opened Grid

  // ---------------------------------------------------------------------
  // Joining masks
  // ---------------------------------------------------------------------

  /** A mask byte passes a join when it lies within [lo, hi]. */
  predicate InBounds(v: int, lo: int, hi: int)
  {
    lo <= v <= hi
  }

  /** Pixel p passes the first k of the n-byte masks stored one after another in masks. */
  predicate Passes(masks: seq<Byte>, n: nat, k: nat, lo: int, hi: int, p: nat)
    requires p < n && n * k <= |masks|
    decreases k
  {
    k == 0 || (Passes(masks, n, k - 1, lo, hi, p) && InBounds(masks[n * (k - 1) + p], lo, hi))
  }

  /** The output raster after joining k masks into out. */
  function Join(masks: seq<Byte>, n: nat, k: nat, lo: int, hi: int, out: seq<Byte>): (r: seq<Byte>)
    requires |out| == n && n * k <= |masks|
    ensures |r| == n
  {
    seq(n, p requires 0 <= p < n => if Passes(masks, n, k, lo, hi, p) then out[p] else 0)
  }

  /** A pixel passes k masks exactly when each of the k masks holds an in-bounds byte there. */
  lemma {:induction false} PassesAt(masks: seq<Byte>, n: nat, k: nat, lo: int, hi: int, p: nat)
    requires p < n && n * k <= |masks|
    ensures Passes(masks, n, k, lo, hi, p) <==>
            forall m :: 0 <= m < k ==> n * m + p < |masks| && InBounds(masks[n * m + p], lo, hi)
  {
    if k > 0 {
      MulLe(k - 1, k, n);
      PassesAt(masks, n, k - 1, lo, hi, p);
      assert n * (k - 1) + p < |masks|;
    }
  }

  /**
   * A join only ever clears: a pixel keeps its byte when every mask is in
   * bounds there, and becomes 0 when some mask is out of bounds.
   */
  lemma JoinClears(masks: seq<Byte>, n: nat, k: nat, lo: int, hi: int, out: seq<Byte>, p: nat)
    requires |out| == n && n * k <= |masks| && p < n
    ensures (forall m :: 0 <= m < k ==> n * m + p < |masks| && InBounds(masks[n * m + p], lo, hi))
              ==> Join(masks, n, k, lo, hi, out)[p] == out[p]
    ensures (exists m :: 0 <= m < k && n * m + p < |masks| && !InBounds(masks[n * m + p], lo, hi))
              ==> Join(masks, n, k, lo, hi, out)[p] == 0
  {
    PassesAt(masks, n, k, lo, hi, p);
  }

  /** Joining the same masks twice is joining them once. */
  lemma JoinIdempotent(masks: seq<Byte>, n: nat, k: nat, lo: int, hi: int, out: seq<Byte>)
    requires |out| == n && n * k <= |masks|
    ensures Join(masks, n, k, lo, hi, Join(masks, n, k, lo, hi, out)) == Join(masks, n, k, lo, hi, out)
  {
  }

  /** Joins commute: the order in which masks are joined does not matter. */
  lemma JoinsCommute(a: seq<Byte>, ka: nat, loA: int, hiA: int,
                     b: seq<Byte>, kb: nat, loB: int, hiB: int, n: nat, out: seq<Byte>)
    requires |out| == n && n * ka <= |a| && n * kb <= |b|
    ensures Join(a, n, ka, loA, hiA, Join(b, n, kb, loB, hiB, out))
         == Join(b, n, kb, loB, hiB, Join(a, n, ka, loA, hiA, out))
  {
  }

  /** Once a pixel is 0, no later join sets it back. */
  lemma JoinKeepsZero(masks: seq<Byte>, n: nat, k: nat, lo: int, hi: int, out: seq<Byte>, p: nat)
    requires |out| == n && n * k <= |masks| && p < n && out[p] == 0
    ensures Join(masks, n, k, lo, hi, out)[p] == 0
  {
  }

  /**
   * Column x of joinUCharMasks for the mask stored at masks[offset ..],
   * walked top to bottom: every pixel whose mask byte is outside
   * [boundMin, boundMax] is cleared.
   */
  method JoinColumn(masks: array<Byte>, offset: nat, outMask: array<Byte>,
                    bandDimX: nat, bandDimY: nat, boundMin: Byte, boundMax: Byte, x: nat)
    requires masks != outMask && outMask.Length == bandDimX * bandDimY
    requires offset + bandDimX * bandDimY <= masks.Length && x < bandDimX
    modifies outMask
    ensures forall p :: 0 <= p < bandDimX * bandDimY ==>
              outMask[p] == if p % bandDimX == x && !InBounds(masks[offset + p], boundMin, boundMax)
                            then 0 else old(outMask[p])
  {
    var y := 0;
    while y < bandDimY
      invariant 0 <= y <= bandDimY
      invariant forall p :: 0 <= p < bandDimX * bandDimY ==>
                  outMask[p] == if p % bandDimX == x && p / bandDimX < y
                                   && !InBounds(masks[offset + p], boundMin, boundMax)
                                then 0 else old(outMask[p])
    {
      Cell(y, x, bandDimX, bandDimY);
      var maskVal := masks[offset + y * bandDimX + x];
      if maskVal < boundMin || maskVal > boundMax {
        outMask[y * bandDimX + x] := 0;
      }
      forall p | 0 <= p < bandDimX * bandDimY
        ensures outMask[p] == if p % bandDimX == x && p / bandDimX < y + 1
                                 && !InBounds(masks[offset + p], boundMin, boundMax)
                              then 0 else old(outMask[p])
      {
        if p % bandDimX == x && p / bandDimX == y {
          Uncell(p, bandDimX, bandDimY);
        }
      }
      y := y + 1;
    }
    forall p | 0 <= p < bandDimX * bandDimY
      ensures outMask[p] == if p % bandDimX == x && !InBounds(masks[offset + p], boundMin, boundMax)
                            then 0 else old(outMask[p])
    {
      Uncell(p, bandDimX, bandDimY);
    }
  }

  /**
   * joinUCharMasks for one mask, the one stored at masks[offset ..]: the
   * raster is walked column by column, and every pixel whose mask byte is
   * outside [boundMin, boundMax] is cleared.
   */
  method JoinOne(masks: array<Byte>, offset: nat, outMask: array<Byte>,
                 bandDimX: nat, bandDimY: nat, boundMin: Byte, boundMax: Byte)
    requires masks != outMask && outMask.Length == bandDimX * bandDimY
    requires offset + bandDimX * bandDimY <= masks.Length
    modifies outMask
    ensures forall p :: 0 <= p < bandDimX * bandDimY ==>
              outMask[p] == if InBounds(masks[offset + p], boundMin, boundMax) then old(outMask[p]) else 0
  {
    var x := 0;
    while x < bandDimX
      invariant 0 <= x <= bandDimX
      invariant forall p :: 0 <= p < bandDimX * bandDimY ==>
                  outMask[p] == if p % bandDimX < x && !InBounds(masks[offset + p], boundMin, boundMax)
                                then 0 else old(outMask[p])
    {
      JoinColumn(masks, offset, outMask, bandDimX, bandDimY, boundMin, boundMax, x);
      x := x + 1;
    }
    forall p | 0 <= p < bandDimX * bandDimY
      ensures outMask[p] == if InBounds(masks[offset + p], boundMin, boundMax) then old(outMask[p]) else 0
    {
      Uncell(p, bandDimX, bandDimY);
    }
  }

  /** Joining one more mask clears exactly the pixels that mask puts out of bounds. */
  lemma JoinStep(masks: seq<Byte>, n: nat, k: nat, lo: int, hi: int, out: seq<Byte>, after: seq<Byte>)
    requires |out| == n && n * (k + 1) <= |masks| && |after| == n
    requires forall p :: 0 <= p < n ==>
               after[p] == if InBounds(masks[n * k + p], lo, hi) then Join(masks, n, k, lo, hi, out)[p] else 0
    ensures n * k <= |masks| && after == Join(masks, n, k + 1, lo, hi, out)
  {
    MulLe(k, k + 1, n);
    assert n * (k + 1) == n * k + n;
  }

  /**
   * joinUCharMasks: nMasks masks of bandDimX * bandDimY bytes each, stored
   * one after another, are joined into outMask in turn.
   */
  method JoinUCharMasks(masks: array<Byte>, outMask: array<Byte>, bandDimX: nat, bandDimY: nat,
                        nMasks: nat, boundMin: Byte, boundMax: Byte)
    requires masks != outMask && outMask.Length == bandDimX * bandDimY
    requires bandDimX * bandDimY * nMasks <= masks.Length
    modifies outMask
    ensures outMask[..] == Join(masks[..], bandDimX * bandDimY, nMasks, boundMin, boundMax, old(outMask[..]))
  {
    ghost var n := bandDimX * bandDimY;
    var maskIdx := 0;
    while maskIdx < nMasks
      invariant 0 <= maskIdx <= nMasks
      invariant n * maskIdx <= masks.Length
      invariant outMask[..] == Join(masks[..], n, maskIdx, boundMin, boundMax, old(outMask[..]))
    {
      MulLe(maskIdx + 1, nMasks, n);
      assert n * (maskIdx + 1) == n * maskIdx + n;
      JoinOne(masks, bandDimX * bandDimY * maskIdx, outMask, bandDimX, bandDimY, boundMin, boundMax);
      JoinStep(masks[..], n, maskIdx, boundMin, boundMax, old(outMask[..]), outMask[..]);
      maskIdx := maskIdx + 1;
    }
  }

  // ---------------------------------------------------------------------
  // The validity mask
  // ---------------------------------------------------------------------

  /** The raster memset to 1. */
  function Ones(n: nat): (r: seq<Byte>)
    ensures |r| == n && forall p :: 0 <= p < n ==> r[p] == 1
  {
    seq(n, _ => 1)
  }

  /**
   * A pixel is valid when every detector footprint covers it, cloud and
   * snow are at most their maxima, and the scene class is 4, 5 or 6.
   */
  predicate ValidPixel(detfoo: seq<Byte>, nDetfoo: nat, cld: seq<Byte>, maxCld: Byte,
                       snw: seq<Byte>, maxSnw: Byte, scl: seq<Byte>, n: nat, p: nat)
    requires p < n <= |cld| && n <= |snw| && n <= |scl|
  {
    && (forall m :: 0 <= m < nDetfoo ==> n * m + p < |detfoo| && InBounds(detfoo[n * m + p], 1, 255))
    && cld[p] <= maxCld
    && snw[p] <= maxSnw
    && 4 <= scl[p] <= 6
  }

  /** The validity mask: 1 at valid pixels, 0 elsewhere. */
  function ValidityMask(detfoo: seq<Byte>, nDetfoo: nat, cld: seq<Byte>, maxCld: Byte,
                        snw: seq<Byte>, maxSnw: Byte, scl: seq<Byte>, n: nat): (r: seq<Byte>)
    requires n <= |cld| && n <= |snw| && n <= |scl|
    ensures |r| == n
  {
    seq(n, p requires 0 <= p < n =>
      if ValidPixel(detfoo, nDetfoo, cld, maxCld, snw, maxSnw, scl, n, p) then 1 else 0)
  }

  /** The memset and the four joins of generateSampleMap build exactly the validity mask. */
  lemma FourJoinsAreValidity(detfoo: seq<Byte>, nDetfoo: nat, cld: seq<Byte>, maxCld: Byte,
                             snw: seq<Byte>, maxSnw: Byte, scl: seq<Byte>, n: nat)
    requires n * nDetfoo <= |detfoo| && n <= |cld| && n <= |snw| && n <= |scl|
    ensures Join(scl, n, 1, 4, 6,
              Join(snw, n, 1, 0, maxSnw,
                Join(cld, n, 1, 0, maxCld,
                  Join(detfoo, n, nDetfoo, 1, 255, Ones(n)))))
         == ValidityMask(detfoo, nDetfoo, cld, maxCld, snw, maxSnw, scl, n)
  {
    forall p | 0 <= p < n
      ensures Passes(detfoo, n, nDetfoo, 1, 255, p) <==>
              forall m :: 0 <= m < nDetfoo ==> n * m + p < |detfoo| && InBounds(detfoo[n * m + p], 1, 255)
    {
      PassesAt(detfoo, n, nDetfoo, 1, 255, p);
    }
  }

  // ---------------------------------------------------------------------
  // Window counts
  // ---------------------------------------------------------------------

  /** Every byte is 0 or 1. */
  predicate IsBinary(mask: seq<Byte>)
  {
    forall i :: 0 <= i < |mask| ==> mask[i] == 0 || mask[i] == 1
  }

  /** 1 for a nonzero byte at i; positions past the end count as 0. */
  function Nz(mask: seq<Byte>, i: nat): (v: nat)
    ensures v <= 1 && (i < |mask| ==> (v == 1 <==> mask[i] != 0))
  {
    if i < |mask| && mask[i] != 0 then 1 else 0
  }

  /** Nonzero bytes in mask[q .. q + len), recounted one by one. */
  function Run(mask: seq<Byte>, q: nat, len: nat): (count: nat)
    ensures count <= len
  {
    if len == 0 then 0 else Run(mask, q, len - 1) + Nz(mask, q + len - 1)
  }

  /** Nonzero bytes in the window h rows tall and len wide whose top-left pixel is q. */
  function WindowCount(mask: seq<Byte>, X: nat, q: nat, len: nat, h: nat): (count: nat)
  {
    if h == 0 then 0 else WindowCount(mask, X, q, len, h - 1) + Run(mask, q + (h - 1) * X, len)
  }

  /** vals[q] + vals[q + X] + ... over h entries of a column; positions past the end count as 0. */
  function ColumnSum(vals: seq<int>, q: nat, X: nat, h: nat): (sum: int)
  {
    if h == 0 then 0
    else ColumnSum(vals, q, X, h - 1) + (if q + (h - 1) * X < |vals| then vals[q + (h - 1) * X] else 0)
  }

  /** `(float)total / sampleSize / sampleSize > minNonzeroPercentage`, with the threshold minNum / minDen. */
  predicate AboveThreshold(total: int, sampleSize: nat, minNum: int, minDen: nat)
  {
    total * minDen > minNum * sampleSize * sampleSize
  }

  /**
   * An anchor is OK when its window stays clear of the last sampleSize rows
   * and columns and holds enough nonzero pixels.
   */
  predicate AnchorOK(mask: seq<Byte>, X: nat, Y: nat, s: nat, minNum: int, minDen: nat, p: nat)
    requires p < X * Y
  {
    p / X + s < Y && p % X + s < X
    && AboveThreshold(WindowCount(mask, X, p, s, s), s, minNum, minDen)
  }

  /** The brute-force anchor mask: each window recounted from scratch. */
  function AnchorMask(mask: seq<Byte>, X: nat, Y: nat, s: nat, minNum: int, minDen: nat): (r: seq<Byte>)
    ensures |r| == X * Y
  {
    seq(X * Y, p requires 0 <= p < X * Y => if AnchorOK(mask, X, Y, s, minNum, minDen, p) then 1 else 0)
  }

  /** Sliding a run one pixel right drops its first byte and takes in the next. */
  lemma {:induction false} RunSlide(mask: seq<Byte>, q: nat, len: nat)
    ensures Run(mask, q + 1, len) == Run(mask, q, len) - Nz(mask, q) + Nz(mask, q + len)
  {
    if len > 0 {
      RunSlide(mask, q, len - 1);
    }
  }

  /** Sliding a column sum one row down drops its top entry and takes in the next. */
  lemma {:induction false} ColumnSlide(vals: seq<int>, q: nat, X: nat, h: nat)
    requires q + h * X < |vals|
    ensures ColumnSum(vals, q + X, X, h) == ColumnSum(vals, q, X, h) - vals[q] + vals[q + h * X]
  {
    if h > 0 {
      ColumnSlide(vals, q, X, h - 1);
      assert q + X + (h - 1) * X == q + h * X;
    }
  }

  /** A column of row-run counts adds up to the count over the window. */
  lemma {:induction false} ColumnOfRuns(mask: seq<Byte>, vals: seq<int>, X: nat, Y: nat, s: nat, p: nat, h: nat)
    requires |vals| == X * Y && p < X * Y && p / X + h <= Y && p % X + s < X
    requires forall q :: 0 <= q < X * Y && q % X + s < X ==> vals[q] == Run(mask, q, s)
    ensures ColumnSum(vals, p, X, h) == WindowCount(mask, X, p, s, h)
  {
    if h > 0 {
      ColumnOfRuns(mask, vals, X, Y, s, p, h - 1);
      CellBelow(p, h - 1, X, Y);
    }
  }

  // ---------------------------------------------------------------------
  // mapgen
  // ---------------------------------------------------------------------

  /** rowSums[p] is what the first pass of mapgen leaves there. */
  ghost predicate RowSumOK(m: seq<Byte>, sum: int, X: nat, s: nat, p: nat)
  {
    0 < X
    && (p % X + s >= X ==> sum == 0)
    && (IsBinary(m) && p % X + s < X ==> sum == Run(m, p, s))
  }

  /** rowSums[q] is the run of sampleSize bytes from q, once the previous run is known. */
  method SeedRowSum(mask: array<Byte>, rowSums: array<int>, q: nat, sampleSize: nat)
    requires q + sampleSize <= mask.Length && q < rowSums.Length
    modifies rowSums
    ensures rowSums[q] == Run(mask[..], q, sampleSize)
    ensures forall j :: 0 <= j < rowSums.Length && j != q ==> rowSums[j] == old(rowSums[j])
  {
    rowSums[q] := 0;
    var i := 0;
    while i < sampleSize
      invariant 0 <= i <= sampleSize
      invariant rowSums[q] == Run(mask[..], q, i)
      invariant forall j :: 0 <= j < rowSums.Length && j != q ==> rowSums[j] == old(rowSums[j])
    {
      if mask[q + i] != 0 {
        rowSums[q] := rowSums[q] + 1;
      }
      i := i + 1;
    }
  }

  /**
   * One pixel of the first pass of mapgen, at flat index q in column c: 0
   * when its run would reach the last column, the recounted run at the
   * start of a row, and the previous run slid one pixel right elsewhere.
   */
  method RowSumAt(mask: array<Byte>, rowSums: array<int>, bandDimX: nat, bandDimY: nat,
                  sampleSize: nat, q: nat, c: nat, ghost m: seq<Byte>)
    requires mask.Length == bandDimX * bandDimY && rowSums.Length == bandDimX * bandDimY
    requires q < bandDimX * bandDimY && q % bandDimX == c
    requires sampleSize <= bandDimX && m == mask[..]
    requires IsBinary(m) && 0 < c && c - 1 + sampleSize < bandDimX ==>
               rowSums[q - 1] == Run(m, q - 1, sampleSize)
    modifies rowSums
    ensures forall j :: 0 <= j < rowSums.Length && j != q ==> rowSums[j] == old(rowSums[j])
    ensures c + sampleSize >= bandDimX ==> rowSums[q] == 0
    ensures IsBinary(m) && c + sampleSize < bandDimX ==> rowSums[q] == Run(m, q, sampleSize)
  {
    if c >= bandDimX - sampleSize {
      rowSums[q] := 0;
    } else if c == 0 {
      CellRight(q, sampleSize, bandDimX, bandDimY);
      SeedRowSum(mask, rowSums, q, sampleSize);
    } else {
      CellRight(q, sampleSize, bandDimX, bandDimY);
      var prev := rowSums[q - 1];
      rowSums[q] := prev - mask[q - 1] + mask[q + sampleSize - 1];
      if IsBinary(m) {
        RunSlide(m, q - 1, sampleSize);
        assert Nz(m, q - 1) == mask[q - 1] && Nz(m, q - 1 + sampleSize) == mask[q + sampleSize - 1];
      }
    }
  }

  /** One row r of the first pass of mapgen, the pixels rowStart .. rowStart + bandDimX - 1. */
  method RowSumsOfRow(mask: array<Byte>, rowSums: array<int>, bandDimX: nat, bandDimY: nat,
                      sampleSize: nat, r: nat, rowStart: nat, ghost m: seq<Byte>)
    requires mask.Length == bandDimX * bandDimY && rowSums.Length == bandDimX * bandDimY
    requires r < bandDimY && rowStart == r * bandDimX
    requires sampleSize <= bandDimX && m == mask[..]
    modifies rowSums
    ensures rowStart + bandDimX <= bandDimX * bandDimY
    ensures forall p :: 0 <= p < bandDimX * bandDimY && (p < rowStart || rowStart + bandDimX <= p) ==>
              rowSums[p] == old(rowSums[p])
    ensures forall p :: rowStart <= p < rowStart + bandDimX ==> RowSumOK(m, rowSums[p], bandDimX, sampleSize, p)
  {
    MulLe(r + 1, bandDimY, bandDimX);
    if bandDimX > 0 {
      Cell(r, 0, bandDimX, bandDimY);
    }
    var c := 0;
    while c < bandDimX
      invariant 0 <= c <= bandDimX
      invariant forall p :: 0 <= p < bandDimX * bandDimY && (p < rowStart || rowStart + c <= p) ==>
                  rowSums[p] == old(rowSums[p])
      invariant forall p :: rowStart <= p < rowStart + c && p - rowStart + sampleSize >= bandDimX ==>
                  rowSums[p] == 0
      invariant IsBinary(m) ==>
                  forall p :: rowStart <= p < rowStart + c && p - rowStart + sampleSize < bandDimX ==>
                    rowSums[p] == Run(m, p, sampleSize)
    {
      CellRight(rowStart, c, bandDimX, bandDimY);
      RowSumAt(mask, rowSums, bandDimX, bandDimY, sampleSize, rowStart + c, c, m);
      c := c + 1;
    }
    forall p | rowStart <= p < rowStart + bandDimX
      ensures RowSumOK(m, rowSums[p], bandDimX, sampleSize, p)
    {
      CellRight(rowStart, p - rowStart, bandDimX, bandDimY);
    }
  }

  /**
   * The first pass of mapgen: rowSums holds, for every pixel whose run of
   * sampleSize pixels ends before the last column, the number of nonzero
   * pixels in that run, and 0 elsewhere. The slide subtracts and adds raw
   * bytes, so the counts are exact for a 0/1 mask.
   */
  method RowPass(mask: array<Byte>, bandDimX: nat, bandDimY: nat, sampleSize: nat)
    returns (rowSums: array<int>)
    requires mask.Length == bandDimX * bandDimY && sampleSize <= bandDimX
    ensures fresh(rowSums) && rowSums.Length == bandDimX * bandDimY
    ensures forall p :: 0 <= p < bandDimX * bandDimY && p % bandDimX + sampleSize >= bandDimX ==>
              rowSums[p] == 0
    ensures IsBinary(mask[..]) ==>
              forall p :: 0 <= p < bandDimX * bandDimY && p % bandDimX + sampleSize < bandDimX ==>
                rowSums[p] == Run(mask[..], p, sampleSize)
  {
    ghost var m := mask[..];
    rowSums := new int[bandDimX * bandDimY];
    var r := 0;
    ghost var done := 0;
    while r < bandDimY
      invariant 0 <= r <= bandDimY && done == r * bandDimX
      invariant forall p :: 0 <= p < done ==> RowSumOK(m, rowSums[p], bandDimX, sampleSize, p)
    {
      RowSumsOfRow(mask, rowSums, bandDimX, bandDimY, sampleSize, r, r * bandDimX, m);
      assert (r + 1) * bandDimX == done + bandDimX;
      r := r + 1;
      done := done + bandDimX;
    }
    assert done == bandDimX * bandDimY;
    assert mask[..] == m;
    forall p | 0 <= p < bandDimX * bandDimY
      ensures p % bandDimX + sampleSize >= bandDimX ==> rowSums[p] == 0
      ensures IsBinary(m) && p % bandDimX + sampleSize < bandDimX ==> rowSums[p] == Run(m, p, sampleSize)
    {
      assert RowSumOK(m, rowSums[p], bandDimX, sampleSize, p);
    }
  }

  /** The value the column pass gives the anchor at p, from the row sums. */
  function ColumnResult(rowSums: seq<int>, X: nat, Y: nat, s: nat, minNum: int, minDen: nat, p: nat): (v: Byte)
    requires p < X * Y
  {
    if p / X + s < Y && p % X + s < X && AboveThreshold(ColumnSum(rowSums, p, X, s), s, minNum, minDen)
    then 1 else 0
  }

  /** ColumnSlide at anchor (r, c), one row below (r - 1, c), in row and column terms. */
  lemma ColumnSlideAt(rs: seq<int>, X: nat, Y: nat, s: nat, r: nat, c: nat)
    requires |rs| == X * Y && 0 < r && r + s < Y && c < X
    ensures 0 <= (r - 1) * X + c < |rs| && (r + s - 1) * X + c < |rs|
    ensures ColumnSum(rs, r * X + c, X, s)
         == ColumnSum(rs, (r - 1) * X + c, X, s) - rs[(r - 1) * X + c] + rs[(r + s - 1) * X + c]
  {
    Cell(r - 1, c, X, Y);
    Cell(r + s - 1, c, X, Y);
    var q := (r - 1) * X + c;
    assert q + X == r * X + c;
    assert q + s * X == (r + s - 1) * X + c;
    ColumnSlide(rs, q, X, s);
  }

  /** The total of the first window of column c: its sampleSize row sums added up. */
  method SeedColumnTotal(rowSums: array<int>, bandDimX: nat, bandDimY: nat, sampleSize: nat, c: nat,
                         ghost rs: seq<int>)
    returns (total: int)
    requires rowSums.Length == bandDimX * bandDimY && rs == rowSums[..]
    requires c < bandDimX && sampleSize < bandDimY
    ensures total == ColumnSum(rs, c, bandDimX, sampleSize)
  {
    total := 0;
    var i := 0;
    while i < sampleSize
      invariant 0 <= i <= sampleSize
      invariant total == ColumnSum(rs, c, bandDimX, i)
    {
      Cell(i, c, bandDimX, bandDimY);
      total := total + rowSums[i * bandDimX + c];
      i := i + 1;
    }
  }

  /** prevTotal is the window total of the anchor one row above (r, c), when that anchor is inside. */
  ghost predicate PrevTotalOK(rs: seq<int>, X: nat, Y: nat, s: nat, r: nat, c: nat, prevTotal: int)
  {
    0 < r && r - 1 + s < Y && c + s < X ==>
      (MulLe(1, r, X);
       prevTotal == ColumnSum(rs, (r - 1) * X + c, X, s))
  }

  /**
   * The window total at anchor (r, c): in the first row, its sampleSize row
   * sums added up; below it, the previous total slid one row down.
   */
  method WindowTotal(rowSums: array<int>, bandDimX: nat, bandDimY: nat, sampleSize: nat,
                     r: nat, c: nat, prevTotal: int, ghost rs: seq<int>)
    returns (total: int)
    requires rowSums.Length == bandDimX * bandDimY && rs == rowSums[..]
    requires r + sampleSize < bandDimY && c + sampleSize < bandDimX
    requires PrevTotalOK(rs, bandDimX, bandDimY, sampleSize, r, c, prevTotal)
    ensures total == ColumnSum(rs, r * bandDimX + c, bandDimX, sampleSize)
  {
    if r == 0 {
      total := SeedColumnTotal(rowSums, bandDimX, bandDimY, sampleSize, c, rs);
    } else {
      ColumnSlideAt(rs, bandDimX, bandDimY, sampleSize, r, c);
      total := prevTotal - rowSums[(r - 1) * bandDimX + c]
               + rowSums[(r + sampleSize - 1) * bandDimX + c];
    }
  }

  /**
   * One anchor (r, c) of the second pass of mapgen. In the last sampleSize
   * rows or columns it becomes 0 and the running total is left alone;
   * otherwise the window total is summed from sampleSize row sums in the
   * first row, or slid one row down from the previous total, and the anchor
   * becomes 1 exactly when the total clears the threshold.
   */
  method ColumnAt(mask: array<Byte>, rowSums: array<int>, bandDimX: nat, bandDimY: nat,
                  sampleSize: nat, minNum: int, minDen: nat, r: nat, c: nat, prevTotal: int,
                  ghost rs: seq<int>)
    returns (nextPrevTotal: int)
    requires mask.Length == bandDimX * bandDimY && rowSums.Length == bandDimX * bandDimY
    requires r < bandDimY && c < bandDimX && sampleSize <= bandDimX && sampleSize <= bandDimY
    requires rs == rowSums[..]
    requires PrevTotalOK(rs, bandDimX, bandDimY, sampleSize, r, c, prevTotal)
    modifies mask
    ensures r * bandDimX + c < bandDimX * bandDimY
    ensures forall j :: 0 <= j < mask.Length && j != r * bandDimX + c ==> mask[j] == old(mask[j])
    ensures mask[r * bandDimX + c] == ColumnResult(rs, bandDimX, bandDimY, sampleSize, minNum, minDen, r * bandDimX + c)
    ensures PrevTotalOK(rs, bandDimX, bandDimY, sampleSize, r + 1, c, nextPrevTotal)
  {
    Cell(r, c, bandDimX, bandDimY);
    ghost var q := r * bandDimX + c;
    nextPrevTotal := prevTotal;
    if r >= bandDimY - sampleSize || c >= bandDimX - sampleSize {
      mask[r * bandDimX + c] := 0;
    } else {
      var total := WindowTotal(rowSums, bandDimX, bandDimY, sampleSize, r, c, prevTotal, rs);
      nextPrevTotal := total;
      mask[r * bandDimX + c] := if AboveThreshold(total, sampleSize, minNum, minDen) then 1 else 0;
    }
  }

  /** Column c is right down to row r once the anchor in row r is right. */
  lemma ColumnStep(mask: seq<Byte>, rs: seq<int>, X: nat, Y: nat, s: nat, minNum: int, minDen: nat,
                   r: nat, c: nat)
    requires |mask| == X * Y && r < Y && c < X && r * X + c < X * Y
    requires forall p :: 0 <= p < X * Y && p % X == c && p / X < r ==>
               mask[p] == ColumnResult(rs, X, Y, s, minNum, minDen, p)
    requires mask[r * X + c] == ColumnResult(rs, X, Y, s, minNum, minDen, r * X + c)
    ensures forall p :: 0 <= p < X * Y && p % X == c && p / X < r + 1 ==>
              mask[p] == ColumnResult(rs, X, Y, s, minNum, minDen, p)
  {
    forall p | 0 <= p < X * Y && p % X == c && p / X < r + 1
      ensures mask[p] == ColumnResult(rs, X, Y, s, minNum, minDen, p)
    {
      if p / X == r {
        Uncell(p, X, Y);
        assert p == r * X + c;
      }
    }
  }

  /** One column c of the second pass of mapgen, walked top to bottom. */
  method ColumnOfPass(mask: array<Byte>, rowSums: array<int>, bandDimX: nat, bandDimY: nat,
                      sampleSize: nat, minNum: int, minDen: nat, c: nat)
    requires mask.Length == bandDimX * bandDimY && rowSums.Length == bandDimX * bandDimY
    requires c < bandDimX && sampleSize <= bandDimX && sampleSize <= bandDimY
    modifies mask
    ensures forall p :: 0 <= p < bandDimX * bandDimY && p % bandDimX != c ==> mask[p] == old(mask[p])
    ensures forall p :: 0 <= p < bandDimX * bandDimY && p % bandDimX == c ==>
              mask[p] == ColumnResult(rowSums[..], bandDimX, bandDimY, sampleSize, minNum, minDen, p)
  {
    ghost var rs := rowSums[..];
    var prevTotal := 0;
    var r := 0;
    while r < bandDimY
      invariant 0 <= r <= bandDimY
      invariant forall p :: 0 <= p < bandDimX * bandDimY && p % bandDimX != c ==> mask[p] == old(mask[p])
      invariant forall p :: 0 <= p < bandDimX * bandDimY && p % bandDimX == c && p / bandDimX < r ==>
                  mask[p] == ColumnResult(rs, bandDimX, bandDimY, sampleSize, minNum, minDen, p)
      invariant PrevTotalOK(rs, bandDimX, bandDimY, sampleSize, r, c, prevTotal)
    {
      prevTotal := ColumnAt(mask, rowSums, bandDimX, bandDimY, sampleSize, minNum, minDen, r, c, prevTotal, rs);
      Cell(r, c, bandDimX, bandDimY);
      ColumnStep(mask[..], rs, bandDimX, bandDimY, sampleSize, minNum, minDen, r, c);
      r := r + 1;
    }
    assert rowSums[..] == rs;
    forall p | 0 <= p < bandDimX * bandDimY && p % bandDimX == c
      ensures mask[p] == ColumnResult(rs, bandDimX, bandDimY, sampleSize, minNum, minDen, p)
    {
      Uncell(p, bandDimX, bandDimY);
    }
  }

  /**
   * The second pass of mapgen, column by column: every pixel gets the
   * thresholded window total of the row sums below it, or 0 near the
   * last rows and columns.
   */
  method ColumnPass(mask: array<Byte>, rowSums: array<int>, bandDimX: nat, bandDimY: nat,
                    sampleSize: nat, minNum: int, minDen: nat)
    requires mask.Length == bandDimX * bandDimY && rowSums.Length == bandDimX * bandDimY
    requires sampleSize <= bandDimX && sampleSize <= bandDimY
    modifies mask
    ensures forall p :: 0 <= p < bandDimX * bandDimY ==>
              mask[p] == ColumnResult(rowSums[..], bandDimX, bandDimY, sampleSize, minNum, minDen, p)
  {
    var c := 0;
    while c < bandDimX
      invariant 0 <= c <= bandDimX
      invariant forall p :: 0 <= p < bandDimX * bandDimY && p % bandDimX < c ==>
                  mask[p] == ColumnResult(rowSums[..], bandDimX, bandDimY, sampleSize, minNum, minDen, p)
    {
      ColumnOfPass(mask, rowSums, bandDimX, bandDimY, sampleSize, minNum, minDen, c);
      c := c + 1;
    }
    forall p | 0 <= p < bandDimX * bandDimY
      ensures mask[p] == ColumnResult(rowSums[..], bandDimX, bandDimY, sampleSize, minNum, minDen, p)
    {
      Uncell(p, bandDimX, bandDimY);
    }
  }

  /**
   * mapgen: the mask is replaced in place by its anchor mask. Whatever the
   * input, the result is 0/1 and 0 on the last sampleSize rows and columns;
   * on a 0/1 input it agrees with the brute-force recount of every window.
   */
  method Mapgen(mask: array<Byte>, bandDimX: nat, bandDimY: nat, sampleSize: nat,
                minNum: int, minDen: nat)
    requires mask.Length == bandDimX * bandDimY
    requires sampleSize <= bandDimX && sampleSize <= bandDimY
    modifies mask
    ensures IsBinary(mask[..])
    ensures forall p :: 0 <= p < bandDimX * bandDimY
                        && (p / bandDimX + sampleSize >= bandDimY || p % bandDimX + sampleSize >= bandDimX) ==>
              mask[p] == 0
    ensures IsBinary(old(mask[..])) ==>
              mask[..] == AnchorMask(old(mask[..]), bandDimX, bandDimY, sampleSize, minNum, minDen)
  {
    var rowSums := RowPass(mask, bandDimX, bandDimY, sampleSize);
    ghost var before := mask[..];
    ColumnPass(mask, rowSums, bandDimX, bandDimY, sampleSize, minNum, minDen);
    if IsBinary(before) {
      forall p | 0 <= p < bandDimX * bandDimY
        ensures mask[p] == AnchorMask(before, bandDimX, bandDimY, sampleSize, minNum, minDen)[p]
      {
        Uncell(p, bandDimX, bandDimY);
        if p / bandDimX + sampleSize < bandDimY && p % bandDimX + sampleSize < bandDimX {
          ColumnOfRuns(before, rowSums[..], bandDimX, bandDimY, sampleSize, p, sampleSize);
        }
      }
    }
  }

  /**
   * generateSampleMap: outMask is set to all ones, the detector footprints
   * (bounds [1, 255]), cloud ([0, maxCld]), snow ([0, maxSnw]) and scene
   * class ([4, 6]) are joined into it, and mapgen turns it into the anchor
   * mask of the validity mask.
   */
  method GenerateSampleMap(detfooMasks: array<Byte>, nDetfooMasks: nat,
                           cldMask: array<Byte>, maxCldPercentage: Byte,
                           snwMask: array<Byte>, maxSnwPercentage: Byte,
                           sclMask: array<Byte>, outMask: array<Byte>,
                           bandDimX: nat, bandDimY: nat, sampleSize: nat,
                           minNum: int, minDen: nat)
    requires outMask != detfooMasks && outMask != cldMask && outMask != snwMask && outMask != sclMask
    requires outMask.Length == bandDimX * bandDimY
    requires bandDimX * bandDimY * nDetfooMasks <= detfooMasks.Length
    requires bandDimX * bandDimY <= cldMask.Length
    requires bandDimX * bandDimY <= snwMask.Length
    requires bandDimX * bandDimY <= sclMask.Length
    requires sampleSize <= bandDimX && sampleSize <= bandDimY
    modifies outMask
    ensures outMask[..] == AnchorMask(ValidityMask(detfooMasks[..], nDetfooMasks, cldMask[..], maxCldPercentage,
                                                   snwMask[..], maxSnwPercentage, sclMask[..],
                                                   bandDimX * bandDimY),
                                      bandDimX, bandDimY, sampleSize, minNum, minDen)
  {
    ghost var n := bandDimX * bandDimY;
    forall p | 0 <= p < outMask.Length {
      outMask[p] := 1;
    }
    assert outMask[..] == Ones(n);
    JoinUCharMasks(detfooMasks, outMask, bandDimX, bandDimY, nDetfooMasks, 1, 255);
    JoinUCharMasks(cldMask, outMask, bandDimX, bandDimY, 1, 0, maxCldPercentage);
    JoinUCharMasks(snwMask, outMask, bandDimX, bandDimY, 1, 0, maxSnwPercentage);
    JoinUCharMasks(sclMask, outMask, bandDimX, bandDimY, 1, 4, 6);
    FourJoinsAreValidity(detfooMasks[..], nDetfooMasks, cldMask[..], maxCldPercentage,
                         snwMask[..], maxSnwPercentage, sclMask[..], n);
    Mapgen(outMask, bandDimX, bandDimY, sampleSize, minNum, minDen);
  }
}
