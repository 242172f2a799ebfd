/**
 * The constructor of the Sampler (sampler/src/sampler.cpp): products whose
 * file names matched are filtered by date, their flavours' resolutions are
 * checked to be whole multiples of each other, and one SampleInfo is kept per
 * surviving product. Also the Sampler's cache options and getSampleDim
 * (sampler/src/sampler.h).
 *
 * File-name parsing and the GDAL dimension lookups are inputs here: a
 * Candidate carries the year, month, day and tile name the regular expression
 * extracted, the product name (None when it could not be derived) and, per
 * flavour, the raster dimensions (None when the lookup failed).
 */
module ProductScan {
  import opened Wrappers
  import opened BitWords
  import opened Grid

  // ---------------------------------------------------------------------
  // The date filter
  // ---------------------------------------------------------------------

  datatype Date = Date(year: nat, month: nat, day: nat)

  datatype DateRange = DateRange(minYear: nat, minMonth: nat, minDay: nat,
                                 maxYear: nat, maxMonth: nat, maxDay: nat)
  {
    function Min(): Date { Date(minYear, minMonth, minDay) }
    function Max(): Date { Date(maxYear, maxMonth, maxDay) }
  }

  /** A calendar-shaped date: month 1 to 12 and day 1 to 31. */
  predicate WellFormed(d: Date)
  {
    1 <= d.month <= 12 && 1 <= d.day <= 31
  }

  /** Lexicographic order on (year, month, day). */
  predicate LexLe(a: Date, b: Date)
  {
    a.year < b.year || (a.year == b.year && (a.month < b.month || (a.month == b.month && a.day <= b.day)))
  }

  /**
   * The key dates are compared by: twelve months of 31 days to a year. The
   * well-formed dates of a year take keys 32 to 403 past 372 times the year,
   * so consecutive years never share a key.
   */
  function DateKey(d: Date): (key: nat)
    ensures WellFormed(d) ==> 372 * d.year + 32 <= key <= 372 * d.year + 403
  {
    d.year * 12 * 31 + d.month * 31 + d.day
  }

  /** On well-formed dates the key order is the lexicographic order. */
  lemma DateKeyOrder(a: Date, b: Date)
    requires WellFormed(a) && WellFormed(b)
    ensures DateKey(a) <= DateKey(b) <==> LexLe(a, b)
  {
    if a.year < b.year {
      assert 372 * a.year + 403 < 372 * b.year + 32;
    } else if a.year > b.year {
      assert 372 * b.year + 403 < 372 * a.year + 32;
    }
  }

  /** On well-formed dates the key identifies the date. */
  lemma DateKeyInjective(a: Date, b: Date)
    requires WellFormed(a) && WellFormed(b) && DateKey(a) == DateKey(b)
    ensures a == b
  {
    DateKeyOrder(a, b);
    DateKeyOrder(b, a);
  }

  /** The constructor's date test: without a range every date passes, otherwise its key lies between the range's keys. */
  predicate InDateRange(dateRange: Option<DateRange>, d: Date)
  {
    dateRange.None? ||
    !(DateKey(d) < DateKey(dateRange.value.Min()) || DateKey(d) > DateKey(dateRange.value.Max()))
  }

  /** For well-formed dates the date test is the lexicographic range test. */
  lemma InDateRangeIsLexRange(dateRange: Option<DateRange>, d: Date)
    requires WellFormed(d)
    requires dateRange.Some? ==> WellFormed(dateRange.value.Min()) && WellFormed(dateRange.value.Max())
    ensures InDateRange(dateRange, d) <==>
              dateRange.None? || (LexLe(dateRange.value.Min(), d) && LexLe(d, dateRange.value.Max()))
  {
    if dateRange.Some? {
      DateKeyOrder(dateRange.value.Min(), d);
      DateKeyOrder(d, dateRange.value.Max());
    }
  }

  // ---------------------------------------------------------------------
  // The resolution check
  // ---------------------------------------------------------------------

  /** A flavour whose dimensions were found and are both nonzero. */
  predicate Usable(d: Option<(nat, nat)>)
  {
    d.Some? && d.value.0 > 0 && d.value.1 > 0
  }

  /** The X dimensions of the flavours (0 where the lookup failed). */
  function Xs(dims: seq<Option<(nat, nat)>>): (xs: seq<nat>)
    ensures |xs| == |dims|
    ensures forall i :: 0 <= i < |dims| && dims[i].Some? ==> xs[i] == dims[i].value.0
  {
    seq(|dims|, i requires 0 <= i < |dims| => if dims[i].Some? then dims[i].value.0 else 0)
  }

  /** The Y dimensions of the flavours (0 where the lookup failed). */
  function Ys(dims: seq<Option<(nat, nat)>>): (ys: seq<nat>)
    ensures |ys| == |dims|
    ensures forall i :: 0 <= i < |dims| && dims[i].Some? ==> ys[i] == dims[i].value.1
  {
    seq(|dims|, i requires 0 <= i < |dims| => if dims[i].Some? then dims[i].value.1 else 0)
  }

  /** The largest of the first k values, 0 when k is 0: an upper bound that is attained. */
  function PrefixMax(xs: seq<nat>, k: nat): (m: nat)
    requires k <= |xs|
    ensures forall i :: 0 <= i < k ==> xs[i] <= m
    ensures k == 0 ==> m == 0
    ensures k > 0 ==> exists i :: 0 <= i < k && xs[i] == m
  {
    if k == 0 then 0
    else if PrefixMax(xs, k - 1) < xs[k - 1] then xs[k - 1]
    else PrefixMax(xs, k - 1)
  }

  predicate Divides(a: nat, b: nat)
  {
    a > 0 && b % a == 0
  }

  /** A multiple of a leaves no remainder when divided by a. */
  lemma MultipleMod(a: nat, m: nat)
    requires a > 0
    ensures (m * a) % a == 0
  {
    var d := (m * a) / a;
    var r := (m * a) % a;
    assert d * a + r == m * a;
    if d < m {
      MulLe(d + 1, m, a);
      assert false;
    } else if d > m {
      MulLe(m + 1, d, a);
      assert false;
    }
  }

  /** Divisibility is transitive. */
  lemma DividesTrans(a: nat, b: nat, c: nat)
    requires Divides(a, b) && Divides(b, c)
    ensures Divides(a, c)
  {
    var p := b / a;
    var q := c / b;
    assert c == (p * q) * a by {
      assert b == p * a;
      assert c == q * b;
    }
    MultipleMod(a, p * q);
  }

  /**
   * The scales nest: each of the first n X dimensions divides every running
   * maximum taken from its own position on, in particular the final one.
   */
  ghost predicate ScalesNest(xs: seq<nat>, n: nat)
    requires n <= |xs|
  {
    forall i, k :: 0 <= i < k <= n ==> Divides(xs[i], PrefixMax(xs, k))
  }

  /**
   * The specification of getMaxResolution: no result when some flavour is
   * missing or has a zero dimension, or when the X dimensions do not nest;
   * otherwise the componentwise maximum.
   */
  ghost function MaxResolution(dims: seq<Option<(nat, nat)>>): (res: Option<(nat, nat)>)
  {
    if (forall i :: 0 <= i < |dims| ==> Usable(dims[i])) && ScalesNest(Xs(dims), |dims|)
    then Some((PrefixMax(Xs(dims), |dims|), PrefixMax(Ys(dims), |dims|)))
    else None
  }

  /**
   * A resolution found is the largest of each dimension, every flavour's X
   * dimension divides it, and with no flavour missing or zero, no result
   * means some X dimension does not divide a later running maximum.
   */
  lemma MaxResolutionMeaning(dims: seq<Option<(nat, nat)>>)
    ensures MaxResolution(dims).Some? ==>
              var (maxX, maxY) := MaxResolution(dims).value;
              forall i :: 0 <= i < |dims| ==>
                Usable(dims[i]) && dims[i].value.0 <= maxX && dims[i].value.1 <= maxY
                && maxX % dims[i].value.0 == 0
    ensures MaxResolution(dims).None? && (forall i :: 0 <= i < |dims| ==> Usable(dims[i])) ==>
              exists i, k :: 0 <= i < k <= |dims| && PrefixMax(Xs(dims), k) % dims[i].value.0 != 0
  {
  }

  /** The first X dimension always nests with itself. */
  lemma NestFirst(xs: seq<nat>)
    requires 0 < |xs| && xs[0] > 0
    ensures ScalesNest(xs, 1)
  {
    MultipleMod(xs[0], 1);
    assert PrefixMax(xs, 1) == xs[0];
  }

  /**
   * A new X dimension no larger than the running maximum keeps the scales
   * nested exactly when it divides that maximum.
   */
  lemma NestBelow(xs: seq<nat>, i: nat)
    requires 0 < i < |xs| && ScalesNest(xs, i) && xs[i] > 0 && xs[i] <= PrefixMax(xs, i)
    ensures ScalesNest(xs, i + 1) <==> PrefixMax(xs, i) % xs[i] == 0
  {
    var m := PrefixMax(xs, i);
    assert PrefixMax(xs, i + 1) == m;
    if m % xs[i] == 0 {
      forall j, k | 0 <= j < k <= i + 1 ensures Divides(xs[j], PrefixMax(xs, k)) {
        if k <= i {
          assert Divides(xs[j], PrefixMax(xs, k));
        } else if j < i {
          assert Divides(xs[j], PrefixMax(xs, i));
        }
      }
    } else {
      assert !Divides(xs[i], PrefixMax(xs, i + 1));
    }
  }

  /**
   * A new X dimension above the running maximum keeps the scales nested
   * exactly when the maximum divides it.
   */
  lemma NestAbove(xs: seq<nat>, i: nat)
    requires 0 < i < |xs| && ScalesNest(xs, i) && xs[i] > PrefixMax(xs, i)
    ensures ScalesNest(xs, i + 1) <==> xs[i] % PrefixMax(xs, i) == 0
  {
    var m := PrefixMax(xs, i);
    var x := xs[i];
    assert PrefixMax(xs, i + 1) == x;
    var a :| 0 <= a < i && xs[a] == m;
    if x % m == 0 {
      MultipleMod(x, 1);
      forall j, k | 0 <= j < k <= i + 1 ensures Divides(xs[j], PrefixMax(xs, k)) {
        if k <= i {
          assert Divides(xs[j], PrefixMax(xs, k));
        } else if j < i {
          assert Divides(xs[j], m);
          DividesTrans(xs[j], m, x);
        }
      }
    } else {
      assert !Divides(xs[a], PrefixMax(xs, i + 1));
    }
  }

  /** A missing or zero dimension, or X dimensions that stop nesting, leave no resolution. */
  lemma NoResolution(dims: seq<Option<(nat, nat)>>, i: nat)
    requires i < |dims|
    requires !Usable(dims[i]) || !ScalesNest(Xs(dims), i + 1)
    ensures MaxResolution(dims) == None
  {
  }

  /**
   * The state of getMaxResolution after i flavours: all usable and nested,
   * and the running maxima of both dimensions.
   */
  ghost predicate ResolutionScan(dims: seq<Option<(nat, nat)>>, i: nat, maxDimX: nat, maxDimY: nat)
  {
    && i <= |dims|
    && (forall j :: 0 <= j < i ==> Usable(dims[j]))
    && ScalesNest(Xs(dims), i)
    && maxDimX == PrefixMax(Xs(dims), i) && maxDimY == PrefixMax(Ys(dims), i)
    && (i > 0 ==> maxDimX > 0 && maxDimY > 0)
  }

  /**
   * One flavour of getMaxResolution: a usable flavour that passes the
   * multiple test (made once both maxima are nonzero) extends the scan with
   * the new maxima; one that fails it leaves no resolution.
   */
  lemma ResolutionStep(dims: seq<Option<(nat, nat)>>, i: nat, maxDimX: nat, maxDimY: nat)
    requires i < |dims| && ResolutionScan(dims, i, maxDimX, maxDimY) && Usable(dims[i])
    ensures var dimX := dims[i].value.0;
            var hi := if maxDimX < dimX then dimX else maxDimX;
            var lo := if maxDimX < dimX then maxDimX else dimX;
            if maxDimX != 0 && maxDimY != 0 && hi % lo != 0 then MaxResolution(dims) == None
            else ResolutionScan(dims, i + 1, hi,
                                if maxDimY < dims[i].value.1 then dims[i].value.1 else maxDimY)
  {
    var xs, ys := Xs(dims), Ys(dims);
    var (dimX, dimY) := dims[i].value;
    assert xs[i] == dimX && ys[i] == dimY;
    assert PrefixMax(xs, i + 1) == if maxDimX < dimX then dimX else maxDimX;
    assert PrefixMax(ys, i + 1) == if maxDimY < dimY then dimY else maxDimY;
    if i == 0 {
      NestFirst(xs);
    } else if maxDimX < dimX {
      NestAbove(xs, i);
    } else {
      NestBelow(xs, i);
    }
    if maxDimX != 0 && maxDimY != 0 && !ScalesNest(xs, i + 1) {
      NoResolution(dims, i);
    }
  }

  /**
   * getMaxResolution over the dimensions of every flavour, in order. A
   * failed lookup or a zero dimension ends the scan with no result, and from
   * the second flavour on the larger of the running maximum and the new X
   * dimension must be a multiple of the smaller. Y is not checked.
   */
  method GetMaxResolution(dims: seq<Option<(nat, nat)>>) returns (res: Option<(nat, nat)>)
    ensures res == MaxResolution(dims)
  {
    var maxDimX, maxDimY := 0, 0;
    var i := 0;
    while i < |dims|
      invariant ResolutionScan(dims, i, maxDimX, maxDimY)
    {
      if dims[i].None? {
        NoResolution(dims, i);
        return None;
      }
      var (dimX, dimY) := dims[i].value;
      if dimX == 0 || dimY == 0 {
        NoResolution(dims, i);
        return None;
      }
      ResolutionStep(dims, i, maxDimX, maxDimY);
      if maxDimX != 0 && maxDimY != 0 {
        var hi := if maxDimX < dimX then dimX else maxDimX;
        var lo := if maxDimX < dimX then maxDimX else dimX;
        if hi % lo != 0 {
          return None;
        }
      }
      maxDimX := if maxDimX < dimX then dimX else maxDimX;
      maxDimY := if maxDimY < dimY then dimY else maxDimY;
      i := i + 1;
    }
    return Some((maxDimX, maxDimY));
  }

  // ---------------------------------------------------------------------
  // Scanning the products
  // ---------------------------------------------------------------------

  /** A product file whose name matched, with what was parsed or looked up for it. */
  datatype Candidate = Candidate(date: Date, tileName: string, productName: Option<string>,
                                 dims: seq<Option<(nat, nat)>>)

  /** What the sampler records per product (its path is not modelled). */
  datatype SampleInfo = SampleInfo(year: nat, month: nat, day: nat, productName: string,
                                   tileName: string, maxDimX: nat, maxDimY: nat)

  /** The record the constructor keeps for one candidate, if any. */
  ghost function Scan(dateRange: Option<DateRange>, c: Candidate): (info: Option<SampleInfo>)
  {
    if !InDateRange(dateRange, c.date) || c.productName.None? then None
    else match MaxResolution(c.dims)
      case None => None
      case Some(d) => Some(SampleInfo(c.date.year, c.date.month, c.date.day, c.productName.value,
                                      c.tileName, d.0, d.1))
  }

  /** The records kept for a list of candidates, in order. */
  ghost function Scanned(dateRange: Option<DateRange>, cs: seq<Candidate>): (infos: seq<SampleInfo>)
  {
    if |cs| == 0 then []
    else Scanned(dateRange, cs[..|cs| - 1]) +
         (match Scan(dateRange, cs[|cs| - 1]) case None => [] case Some(info) => [info])
  }

  /**
   * Every record kept comes from a candidate inside the date range, with a
   * product name, whose flavours nest, and carries that candidate's date and
   * maximum resolution; there are no more records than candidates.
   */
  lemma {:induction false} ScannedMeaning(dateRange: Option<DateRange>, cs: seq<Candidate>)
    ensures |Scanned(dateRange, cs)| <= |cs|
    ensures forall info :: info in Scanned(dateRange, cs) ==>
              exists c :: c in cs && InDateRange(dateRange, c.date) && c.productName == Some(info.productName)
                          && c.date == Date(info.year, info.month, info.day) && c.tileName == info.tileName
                          && MaxResolution(c.dims) == Some((info.maxDimX, info.maxDimY))
  {
    if |cs| > 0 {
      var init := cs[..|cs| - 1];
      ScannedMeaning(dateRange, init);
      forall info | info in Scanned(dateRange, cs)
        ensures exists c :: c in cs && InDateRange(dateRange, c.date) && c.productName == Some(info.productName)
                            && c.date == Date(info.year, info.month, info.day) && c.tileName == info.tileName
                            && MaxResolution(c.dims) == Some((info.maxDimX, info.maxDimY))
      {
        if info in Scanned(dateRange, init) {
          var c :| c in init && InDateRange(dateRange, c.date) && c.productName == Some(info.productName)
                   && c.date == Date(info.year, info.month, info.day) && c.tileName == info.tileName
                   && MaxResolution(c.dims) == Some((info.maxDimX, info.maxDimY));
          assert c in cs;
        } else {
          assert cs[|cs| - 1] in cs;
        }
      }
    }
  }

  /**
   * The discovery loop of the Sampler constructor over the matched product
   * files: skip a product outside the date range, one without a product name,
   * and one whose resolutions do not nest; record the others.
   */
  method DiscoverProducts(dateRange: Option<DateRange>, candidates: seq<Candidate>)
    returns (infos: seq<SampleInfo>)
    ensures infos == Scanned(dateRange, candidates)
  {
    infos := [];
    var i := 0;
    while i < |candidates|
      invariant 0 <= i <= |candidates|
      invariant infos == Scanned(dateRange, candidates[..i])
    {
      var c := candidates[i];
      assert candidates[..i + 1][..i] == candidates[..i];
      if dateRange.Some? {
        var dateRangeMin := DateKey(dateRange.value.Min());
        var dateRangeMax := DateKey(dateRange.value.Max());
        var date := DateKey(c.date);
        if date < dateRangeMin || date > dateRangeMax {
          i := i + 1;
          continue;
        }
      }
      if c.productName.None? {
        i := i + 1;
        continue;
      }
      var maxRes := GetMaxResolution(c.dims);
      if maxRes.None? {
        i := i + 1;
        continue;
      }
      infos := infos + [SampleInfo(c.date.year, c.date.month, c.date.day, c.productName.value,
                                   c.tileName, maxRes.value.0, maxRes.value.1)];
      i := i + 1;
    }
    assert candidates[..|candidates|] == candidates;
  }

  // ---------------------------------------------------------------------
  // The sampler object
  // ---------------------------------------------------------------------

  /**
   * SampleCacheGenOptions. The float minOKPercentage is kept as the exact
   * rational minOKNum / minOKDen.
   */
  datatype SampleCacheGenOptions = SampleCacheGenOptions(minOKNum: int, minOKDen: nat, sampleDim: nat,
                                                         cldMax: Byte, snwMax: Byte)

  class Sampler {
    var cacheGenOptions: SampleCacheGenOptions
    var infos: seq<SampleInfo>

    /** The constructor: the options are stored and the matched products are scanned. */
    constructor(candidates: seq<Candidate>, options: SampleCacheGenOptions, dateRange: Option<DateRange>)
      ensures cacheGenOptions == options
      ensures infos == Scanned(dateRange, candidates)
    {
      var found := DiscoverProducts(dateRange, candidates);
      cacheGenOptions := options;
      infos := found;
    }

    /** getSampleDim: the configured sample dimension; nothing changes. */
    method GetSampleDim() returns (dim: nat)
      ensures dim == cacheGenOptions.sampleDim
    {
      dim := cacheGenOptions.sampleDim;
    }
  }
}
