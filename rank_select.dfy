/**
 * Reference definitions of rank and select over a sequence of bits.
 *
 * Rank(bits, p) counts the set bits before p; PositionsBelow lists the
 * indices of the set bits before a bound in increasing order, and Select(k)
 * is the k-th entry of the full list. These are the brute-force definitions
 * the word-skipping selector of the sampler is proved against.
 */
module RankSelect {

  /** Number of set bits strictly before position p. */
  function Rank(bits: seq<bool>, p: nat): (r: nat)
    requires p <= |bits|
    ensures r <= p
  {
    if p == 0 then 0 else Rank(bits, p - 1) + (if bits[p - 1] then 1 else 0)
  }

  /** Number of set bits. */
  function Count(bits: seq<bool>): (c: nat)
  {
    Rank(bits, |bits|)
  }

  /** Rank only looks at the bits before its position. */
  lemma {:induction false} RankOfPrefix(a: seq<bool>, b: seq<bool>, p: nat)
    requires p <= |a| && p <= |b|
    requires forall q :: 0 <= q < p ==> a[q] == b[q]
    ensures Rank(a, p) == Rank(b, p)
  {
    if p > 0 {
      RankOfPrefix(a, b, p - 1);
    }
  }

  /** Indices of the set bits below n, in increasing order. */
  function PositionsBelow(bits: seq<bool>, n: nat): (ps: seq<nat>)
    requires n <= |bits|
    ensures |ps| == Rank(bits, n)
    ensures forall i :: 0 <= i < |ps| ==> ps[i] < n && bits[ps[i]]
    ensures forall i, j :: 0 <= i < j < |ps| ==> ps[i] < ps[j]
  {
    if n == 0 then []
    else PositionsBelow(bits, n - 1) + (if bits[n - 1] then [n - 1] else [])
  }

  /** Position of the k-th set bit (0-indexed). */
  function Select(bits: seq<bool>, k: nat): (p: nat)
    requires k < Count(bits)
  {
    PositionsBelow(bits, |bits|)[k]
  }

  /** The k-th entry below n does not depend on n once it exists. */
  lemma {:induction false} PositionsBelowStable(bits: seq<bool>, n: nat, m: nat, k: nat)
    requires n <= m <= |bits| && k < Rank(bits, n)
    ensures k < Rank(bits, m) && PositionsBelow(bits, m)[k] == PositionsBelow(bits, n)[k]
  {
    if n < m {
      PositionsBelowStable(bits, n, m - 1, k);
    }
  }

  /** Exactly k set bits precede the k-th set bit, and it is set. */
  lemma {:induction false} RankOfSelect(bits: seq<bool>, k: nat)
    requires k < Count(bits)
    ensures Select(bits, k) < |bits| && bits[Select(bits, k)]
    ensures Rank(bits, Select(bits, k)) == k
  {
    RankOfSelectBelow(bits, |bits|, k);
  }

  lemma {:induction false} RankOfSelectBelow(bits: seq<bool>, n: nat, k: nat)
    requires n <= |bits| && k < Rank(bits, n)
    ensures Rank(bits, PositionsBelow(bits, n)[k]) == k
  {
    if k < Rank(bits, n - 1) {
      RankOfSelectBelow(bits, n - 1, k);
    }
  }

  /**
   * Select is characterised by rank: the set bit with exactly k set bits before
   * it is the k-th set bit, and then k is below the total count.
   */
  lemma SelectByRank(bits: seq<bool>, p: nat, k: nat)
    requires p < |bits| && bits[p] && Rank(bits, p) == k
    ensures k < Count(bits) && Select(bits, k) == p
  {
    assert PositionsBelow(bits, p + 1)[k] == p;
    PositionsBelowStable(bits, p + 1, |bits|, k);
  }

  /** Select is strictly increasing in k. */
  lemma SelectIncreasing(bits: seq<bool>, k1: nat, k2: nat)
    requires k1 < k2 < Count(bits)
    ensures Select(bits, k1) < Select(bits, k2)
  {
  }

  /** Round trip: the selected positions are exactly the set bits. */
  lemma SelectRoundTrip(bits: seq<bool>)
    ensures (set k | 0 <= k < Count(bits) :: Select(bits, k))
         == (set p | 0 <= p < |bits| && bits[p])
  {
    forall p | 0 <= p < |bits| && bits[p]
      ensures p in (set k | 0 <= k < Count(bits) :: Select(bits, k))
    {
      SelectByRank(bits, p, Rank(bits, p));
    }
  }

  /** Trailing clear bits change neither the count nor any selected position. */
  lemma PaddingInvisible(a: seq<bool>, pad: nat)
    ensures Count(a + seq(pad, _ => false)) == Count(a)
    ensures forall k :: 0 <= k < Count(a) ==> Select(a + seq(pad, _ => false), k) == Select(a, k)
  {
    var z := a + seq(pad, _ => false);
    RankOfPrefix(a, z, |a|);
    RankOfPadding(z, |a|, |z|);
    forall k | 0 <= k < Count(a)
      ensures Select(z, k) == Select(a, k)
    {
      RankOfSelect(a, k);
      var p := Select(a, k);
      RankOfPrefix(a, z, p);
      SelectByRank(z, p, k);
    }
  }

  lemma {:induction false} RankOfPadding(z: seq<bool>, n: nat, m: nat)
    requires n <= m <= |z|
    requires forall q :: n <= q < m ==> !z[q]
    ensures Rank(z, m) == Rank(z, n)
  {
    if n < m {
      RankOfPadding(z, n, m - 1);
    }
  }
}
