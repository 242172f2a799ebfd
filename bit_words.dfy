/**
 * The explicit byte/word view of the packed sample buffer.
 *
 * The packer writes pixel `i*8 + j` as bit `j` of byte `i`; the selector reads
 * the same buffer as 64-bit words. On a little-endian machine word `w` is the
 * value of bytes `8w .. 8w+7` with byte `8w` least significant, so bit `b` of
 * word `w` is pixel `64w + b`. This module defines both views and proves that
 * they agree (WordBit), together with the word primitives the selector uses:
 * std::popcount and the bit length `64 - __builtin_clzl(w)`.
 */
module BitWords {

  /** An unsigned 8-bit value (uint8_t). */
  type Byte = x: int | 0 <= x < 256

  function Pow2(n: nat): (r: nat)
    ensures r >= 1
  {
    if n == 0 then 1 else 2 * Pow2(n - 1)
  }

  lemma {:induction false} Pow2Add(a: nat, b: nat)
    ensures Pow2(a + b) == Pow2(a) * Pow2(b)
  {
    if a > 0 {
      Pow2Add(a - 1, b);
      assert Pow2(a + b) == 2 * Pow2(a - 1 + b);
    }
  }

  lemma {:induction false} Pow2Monotone(a: nat, b: nat)
    requires a <= b
    ensures Pow2(a) <= Pow2(b)
  {
    if a < b {
      Pow2Monotone(a, b - 1);
    }
  }

  lemma Pow2Byte()
    ensures Pow2(8) == 256
  {
    assert Pow2(1) == 2;
    assert Pow2(2) == 4;
    assert Pow2(4) == Pow2(2) * Pow2(2) by { Pow2Add(2, 2); }
    assert Pow2(8) == Pow2(4) * Pow2(4) by { Pow2Add(4, 4); }
  }

  /** Bit j of x, bit 0 being the least significant. */
  predicate BitSet(x: nat, j: nat)
    decreases j
  {
    if j == 0 then x % 2 == 1 else BitSet(x / 2, j - 1)
  }

  /**
   * Splitting a value at bit m: the bits of `x + 2^m * r` below m are those of
   * x, and the bits from m on are those of r.
   */
  lemma {:induction false} BitsOfSplit(x: nat, r: nat, m: nat, j: nat)
    requires x < Pow2(m)
    ensures j < m ==> BitSet(x + Pow2(m) * r, j) == BitSet(x, j)
    ensures j >= m ==> BitSet(x + Pow2(m) * r, j) == BitSet(r, j - m)
  {
    if m == 0 {
      assert x == 0 && Pow2(m) * r == r;
    } else {
      var p := Pow2(m - 1);
      var y := x + Pow2(m) * r;
      assert y == x + 2 * (p * r);
      if j > 0 {
        assert y / 2 == x / 2 + p * r;
        BitsOfSplit(x / 2, r, m - 1, j - 1);
      }
    }
  }

  lemma {:induction false} BitsOfZero(j: nat)
    ensures !BitSet(0, j)
  {
    if j > 0 {
      BitsOfZero(j - 1);
    }
  }

  /** A value below 2^m has no bit set at m or above. */
  lemma BitsAboveBound(x: nat, m: nat, j: nat)
    requires x < Pow2(m) && m <= j
    ensures !BitSet(x, j)
  {
    BitsOfSplit(x, 0, m, j);
    BitsOfZero(j - m);
  }

  /** Little-endian value of a run of bytes: bytes[0] is least significant. */
  function LittleEndian(bytes: seq<Byte>): (v: nat)
    ensures v < Pow2(8 * |bytes|)
  {
    if bytes == [] then 0
    else
      var rest := LittleEndian(bytes[1..]);
      Pow2Byte();
      Pow2Add(8, 8 * (|bytes| - 1));
      assert 256 * rest + 255 < 256 * Pow2(8 * (|bytes| - 1)) + 1;
      bytes[0] + 256 * rest
  }

  /** Bit b of a little-endian value is bit b % 8 of byte b / 8. */
  lemma {:induction false} LittleEndianBit(bytes: seq<Byte>, b: nat)
    requires b < 8 * |bytes|
    ensures BitSet(LittleEndian(bytes), b) == BitSet(bytes[b / 8], b % 8)
  {
    Pow2Byte();
    BitsOfSplit(bytes[0], LittleEndian(bytes[1..]), 8, b);
    if b >= 8 {
      LittleEndianBit(bytes[1..], b - 8);
      assert (b - 8) / 8 == b / 8 - 1 && (b - 8) % 8 == b % 8;
    }
  }

  /** Bit p of the packed buffer: bit p % 8 of byte p / 8. */
  predicate BufferBit(buf: seq<Byte>, p: nat)
    requires p < 8 * |buf|
  {
    BitSet(buf[p / 8], p % 8)
  }

  /** The buffer as a sequence of pixel bits, in packing order. */
  function Bits(buf: seq<Byte>): (bits: seq<bool>)
  {
    seq(8 * |buf|, p requires 0 <= p < 8 * |buf| => BufferBit(buf, p))
  }

  /** The i-th 64-bit word of the buffer, `((uint64_t *)buf)[i]`. */
  function WordAt(buf: seq<Byte>, i: nat): (w: nat)
    requires 8 * i + 8 <= |buf|
    ensures w < Pow2(64)
  {
    LittleEndian(buf[8 * i .. 8 * i + 8])
  }

  /** The two views agree: bit b of word i is pixel bit 64 i + b. */
  lemma WordBit(buf: seq<Byte>, i: nat, b: nat)
    requires 8 * i + 8 <= |buf| && b < 64
    ensures 64 * i + b < |Bits(buf)|
    ensures BitSet(WordAt(buf, i), b) == Bits(buf)[64 * i + b]
  {
    LittleEndianBit(buf[8 * i .. 8 * i + 8], b);
    assert (64 * i + b) / 8 == 8 * i + b / 8;
    assert (64 * i + b) % 8 == b % 8;
  }

  /** Number of set bits of x among positions 0 .. n-1. */
  function CountBits(x: nat, n: nat): (c: nat)
    ensures c <= n
  {
    if n == 0 then 0 else CountBits(x, n - 1) + (if BitSet(x, n - 1) then 1 else 0)
  }

  /** std::popcount of a 64-bit word. */
  function Popcount(w: nat): (c: nat)
    ensures c <= 64
  {
    CountBits(w, 64)
  }

  /** Number of significant bits of x: one more than the position of its highest set bit. */
  function BitLength(x: nat): (len: nat)
  {
    if x == 0 then 0 else 1 + BitLength(x / 2)
  }

  lemma {:induction false} BitLengthFacts(x: nat, m: nat)
    requires x < Pow2(m)
    ensures BitLength(x) <= m
    ensures x != 0 ==> BitSet(x, BitLength(x) - 1)
    ensures forall j :: BitLength(x) <= j ==> !BitSet(x, j)
  {
    if x == 0 {
      forall j { BitsOfZero(j); }
    } else {
      assert m > 0;
      BitLengthFacts(x / 2, m - 1);
      forall j | BitLength(x) <= j ensures !BitSet(x, j) {
        assert BitSet(x, j) == BitSet(x / 2, j - 1);
      }
    }
  }

  /** `__builtin_clzl`: leading zero bits of a nonzero 64-bit word. */
  function CountLeadingZeros(w: nat): (z: nat)
    requires 0 < w < Pow2(64)
    ensures z < 64 && BitSet(w, 63 - z)
    ensures forall j :: 64 - z <= j ==> !BitSet(w, j)
  {
    BitLengthFacts(w, 64);
    64 - BitLength(w)
  }

  /** Above the highest set bit a word contributes no further set bits. */
  lemma {:induction false} CountBitsPastTop(x: nat, m: nat, n: nat)
    requires forall j :: m <= j ==> !BitSet(x, j)
    requires m <= n
    ensures CountBits(x, n) == CountBits(x, m)
  {
    if m < n {
      CountBitsPastTop(x, m, n - 1);
    }
  }

  lemma PopcountOfZero()
    ensures Popcount(0) == 0
  {
    forall j { BitsOfZero(j); }
    CountBitsPastTop(0, 0, 64);
  }
}
