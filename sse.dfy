/** The SSE intrinsics of fn.cpp, each by what it does to a sequence of 16 byte lanes. */
module Sse {
  import opened EditSpec

  /** `_mm_loadu_si128(s.data() + off)`: the 16 bytes at `off`. The precondition is the
      in-bounds rule every chunk loop must respect. */
  function Load(s: Bytes, off: nat): (r: Bytes)
    requires off + 16 <= |s|
    ensures |r| == 16 && forall j :: 0 <= j < 16 ==> r[j] == s[off + j]
  {
    s[off..off + 16]
  }

  /** `_mm_cmpeq_epi8`: 0xFF in each lane whose bytes are equal, 0x00 in the others. */
  function CmpEq(x: Bytes, y: Bytes): (r: Bytes)
    requires |x| == |y|
    ensures |r| == |x|
    ensures forall j :: 0 <= j < |r| ==> (r[j] == 0xFF || r[j] == 0x00) && (r[j] == 0xFF <==> x[j] == y[j])
  {
    seq(|x|, j requires 0 <= j < |x| => if x[j] == y[j] then 0xFF else 0x00)
  }

  /** `_mm_movemask_epi8`: bit `j` of the result is the top bit of lane `j`, so the mask of
      `n` lanes has `n` bits. */
  function MoveMask(v: Bytes): (m: nat)
    ensures m < Pow2(|v|)
  {
    if |v| == 0 then 0
    else (if v[0] & 0x80 != 0 then 1 else 0) + 2 * MoveMask(v[1..])
  }

  function Pow2(n: nat): (p: nat)
  {
    if n == 0 then 1 else 2 * Pow2(n - 1)
  }

  /** `_mm_set1_epi8(b)`. */
  function Set1(b: Byte): (r: Bytes)
    ensures |r| == 16
  {
    seq(16, _ => b)
  }

  /** `_mm_and_si128`. */
  function And(x: Bytes, y: Bytes): (r: Bytes)
    requires |x| == |y|
    ensures |r| == |x|
  {
    seq(|x|, j requires 0 <= j < |x| => x[j] & y[j])
  }

  /** The low byte of the 16-bit word `hi:lo` shifted right by four bits. */
  function ShiftLowByte4(lo: Byte, hi: Byte): (r: Byte)
  {
    (lo >> 4) | (hi << 4)
  }

  /** The high byte of a 16-bit word shifted right by four bits. */
  function ShiftHighByte4(hi: Byte): (r: Byte)
  {
    hi >> 4
  }

  /** `_mm_srli_epi16(v, 4)`: every little-endian 16-bit lane (two bytes) shifted right by
      four bits, so the low nibble of the high byte moves into the low byte. */
  function ShiftRightWords4(v: Bytes): (r: Bytes)
    requires |v| % 2 == 0
    ensures |r| == |v|
  {
    seq(|v|, j requires 0 <= j < |v| =>
      if j % 2 == 0 then ShiftLowByte4(v[j], v[j + 1]) else ShiftHighByte4(v[j]))
  }

  /** `_mm_shuffle_epi8(table, idx)`: lane `j` is the table entry that the low nibble of
      `idx[j]` selects, or 0 when the top bit of `idx[j]` is set. */
  function Shuffle(table: Bytes, idx: Bytes): (r: Bytes)
    requires |table| == 16
    ensures |r| == |idx|
  {
    seq(|idx|, j requires 0 <= j < |idx| =>
      if idx[j] & 0x80 != 0 then 0 else table[(idx[j] as int) % 16])
  }

  /** `_mm_add_epi8`: lane-wise addition modulo 256. */
  function AddBytes(x: Bytes, y: Bytes): (r: Bytes)
    requires |x| == |y|
    ensures |r| == |x|
  {
    seq(|x|, j requires 0 <= j < |x| => x[j] + y[j])
  }

  /** The sum of the bytes of `v`: what `_mm_sad_epu8(v, 0)` leaves in each 64-bit half for
      that half's eight lanes. */
  function SumBytes(v: Bytes): (n: nat)
  {
    if |v| == 0 then 0 else SumBytes(v[..|v| - 1]) + v[|v| - 1] as nat
  }

  /** The number of set bits of each nibble, the table `popcount` loads. */
  const PopcountLookup: Bytes := [0, 1, 1, 2, 1, 2, 2, 3, 1, 2, 2, 3, 2, 3, 3, 4]

  /** 1 when the bit `m` selects is set in `b`. */
  function Bit(b: Byte, m: Byte): (n: nat)
  {
    if b & m != 0 then 1 else 0
  }

  /** The number of set bits of one byte, bit by bit. */
  function BitsSet(b: Byte): (n: nat)
  {
    Bit(b, 0x01) + Bit(b, 0x02) + Bit(b, 0x04) + Bit(b, 0x08)
    + Bit(b, 0x10) + Bit(b, 0x20) + Bit(b, 0x40) + Bit(b, 0x80)
  }

  /** The number of set bits of a sequence of lanes: what a population count means. */
  function BitCount(v: Bytes): (n: nat)
  {
    if |v| == 0 then 0 else BitCount(v[..|v| - 1]) + BitsSet(v[|v| - 1])
  }

  /** `popcount(__m128i)`: look both nibbles of every lane up in the table, add the two
      counts lane by lane, and sum the lanes of each half. The result is the number of set
      bits of the 128-bit value. */
  function Popcount(v: Bytes): (n: nat)
    requires |v| == 16
    ensures n == BitCount(v)
  {
    var lowMask := Set1(0x0f);
    var lo := And(v, lowMask);
    var hi := And(ShiftRightWords4(v), lowMask);
    var popcnt1 := Shuffle(PopcountLookup, lo);
    var popcnt2 := Shuffle(PopcountLookup, hi);
    var sum := AddBytes(popcnt1, popcnt2);
    LanesCountBits(v, popcnt1, popcnt2, sum);
    HalvesCountBits(sum, v);
    SumBytes(sum[..8]) + SumBytes(sum[8..])
  }

  // ---------------------------------------------------------------------------

  /** The mask of `n` lanes is all ones exactly when every top bit is set. */
  lemma {:induction false} MoveMaskAllSet(v: Bytes)
    ensures MoveMask(v) == Pow2(|v|) - 1 <==> forall j :: 0 <= j < |v| ==> v[j] & 0x80 != 0
  {
    if |v| > 0 {
      var t := v[1..];
      MoveMaskAllSet(t);
      assert forall j :: 0 <= j < |t| ==> t[j] == v[j + 1];
      if forall j :: 0 <= j < |t| ==> t[j] & 0x80 != 0 {
        assert forall j :: 1 <= j < |v| ==> v[j] & 0x80 != 0 by {
          forall j | 1 <= j < |v| ensures v[j] & 0x80 != 0 {
            assert t[j - 1] == v[j];
          }
        }
      }
    }
  }

  lemma Pow2Of16()
    ensures Pow2(16) == 0x10000
  {
    assert Pow2(4) == 16;
    assert Pow2(8) == 256 by { assert Pow2(6) == 64; }
    assert Pow2(12) == 4096 by { assert Pow2(10) == 1024; }
    assert Pow2(14) == 16384;
  }

  /** `_mm_movemask_epi8(_mm_cmpeq_epi8(x, y)) == 0xffff` exactly when all 16 lanes are equal. */
  lemma MoveMaskDetectsMismatch(x: Bytes, y: Bytes)
    requires |x| == |y| == 16
    ensures MoveMask(CmpEq(x, y)) == 0xffff <==> x == y
  {
    var v := CmpEq(x, y);
    MoveMaskAllSet(v);
    Pow2Of16();
    assert forall j :: 0 <= j < 16 ==> ((v[j] & 0x80 != 0) <==> x[j] == y[j]);
  }

  lemma {:induction false} SumBytesAppend(u: Bytes, w: Bytes)
    ensures SumBytes(u + w) == SumBytes(u) + SumBytes(w)
    decreases |w|
  {
    if |w| == 0 {
      assert u + w == u;
    } else {
      assert (u + w)[..|u + w| - 1] == u + w[..|w| - 1];
      SumBytesAppend(u, w[..|w| - 1]);
    }
  }

  /** The table entry of a nibble is its number of set bits, at most 4. */
  lemma NibbleEntry(n: Byte)
    requires n < 16
    ensures PopcountLookup[(n as int) % 16] as nat == BitsSet(n)
    ensures PopcountLookup[(n as int) % 16] <= 4
  {
  }

  /** The set bits of a byte are those of its low nibble plus those of its high nibble. */
  lemma SplitNibbles(b: Byte)
    ensures BitsSet(b) == BitsSet(b & 0x0f) + BitsSet(b >> 4)
  {
  }

  /** Adding two nibble counts does not wrap. */
  lemma AddNoWrap(a: Byte, b: Byte)
    requires a <= 4 && b <= 4
    ensures (a + b) as nat == a as nat + b as nat
  {
  }

  /** Lane `j` of the 16-bit shift right by four, masked to a nibble, is the high nibble
      of `v[j]`: in the low byte of a word the bits shifted in from the high byte are
      masked off. */
  lemma HighNibble(v: Bytes, j: nat)
    requires |v| == 16 && j < 16
    ensures And(ShiftRightWords4(v), Set1(0x0f))[j] == v[j] >> 4
  {
    var w := ShiftRightWords4(v);
    if j % 2 == 0 {
      assert w[j] == ShiftLowByte4(v[j], v[j + 1]);
      assert (ShiftLowByte4(v[j], v[j + 1]) & 0x0f) == v[j] >> 4;
    } else {
      assert w[j] == ShiftHighByte4(v[j]);
    }
  }

  /** A table lookup with a nibble index picks the entry of that nibble. */
  lemma LookupLane(idx: Bytes, j: nat, n: Byte)
    requires j < |idx| && idx[j] == n && n < 16
    ensures Shuffle(PopcountLookup, idx)[j] as nat == BitsSet(n)
    ensures Shuffle(PopcountLookup, idx)[j] <= 4
  {
    assert n & 0x80 == 0;
    NibbleEntry(n);
  }

  /** Lane `j` of the two table lookups counts the set bits of `v[j]`, four at most each. */
  lemma LaneBits(v: Bytes, p1: Bytes, p2: Bytes, j: nat)
    requires |v| == 16 && j < 16
    requires p1 == Shuffle(PopcountLookup, And(v, Set1(0x0f)))
    requires p2 == Shuffle(PopcountLookup, And(ShiftRightWords4(v), Set1(0x0f)))
    ensures p1[j] as nat + p2[j] as nat == BitsSet(v[j]) && p1[j] <= 4 && p2[j] <= 4
  {
    var lo, hi := v[j] & 0x0f, v[j] >> 4;
    HighNibble(v, j);
    LookupLane(And(v, Set1(0x0f)), j, lo);
    LookupLane(And(ShiftRightWords4(v), Set1(0x0f)), j, hi);
    SplitNibbles(v[j]);
  }

  /** The sums of the two 64-bit halves add up to the sum of all lanes. */
  lemma SumHalves(s: Bytes)
    requires |s| == 16
    ensures SumBytes(s[..8]) + SumBytes(s[8..]) == SumBytes(s)
  {
    assert s[..8] + s[8..] == s;
    SumBytesAppend(s[..8], s[8..]);
  }

  /** Lanes that each hold the bit count of the matching lane of `v` sum to `BitCount(v)`. */
  lemma {:induction false} SumOfLaneCounts(s: Bytes, v: Bytes)
    requires |s| == |v|
    requires forall j :: 0 <= j < |s| ==> s[j] as nat == BitsSet(v[j])
    ensures SumBytes(s) == BitCount(v)
    decreases |s|
  {
    if |s| > 0 {
      var n := |s| - 1;
      SumOfLaneCounts(s[..n], v[..n]);
    }
  }

  /** Lane `j` of the added lookups is the bit count of `v[j]`; the addition does not wrap. */
  lemma LaneSum(v: Bytes, p1: Bytes, p2: Bytes, sum: Bytes, j: nat)
    requires |v| == 16 && j < 16
    requires p1 == Shuffle(PopcountLookup, And(v, Set1(0x0f)))
    requires p2 == Shuffle(PopcountLookup, And(ShiftRightWords4(v), Set1(0x0f)))
    requires sum == AddBytes(p1, p2)
    ensures sum[j] as nat == BitsSet(v[j])
  {
    LaneBits(v, p1, p2, j);
    AddNoWrap(p1[j], p2[j]);
  }

  /** Lanes that each hold the bit count of the matching lane of `v`, summed half by half. */
  lemma HalvesCountBits(s: Bytes, v: Bytes)
    requires |s| == |v| == 16
    requires forall j :: 0 <= j < 16 ==> s[j] as nat == BitsSet(v[j])
    ensures SumBytes(s[..8]) + SumBytes(s[8..]) == BitCount(v)
  {
    SumHalves(s);
    SumOfLaneCounts(s, v);
  }

  /** Every lane of the added table lookups holds the bit count of the matching lane of `v`. */
  lemma LanesCountBits(v: Bytes, p1: Bytes, p2: Bytes, sum: Bytes)
    requires |v| == 16
    requires p1 == Shuffle(PopcountLookup, And(v, Set1(0x0f)))
    requires p2 == Shuffle(PopcountLookup, And(ShiftRightWords4(v), Set1(0x0f)))
    requires sum == AddBytes(p1, p2)
    ensures |sum| == 16 && forall j :: 0 <= j < 16 ==> sum[j] as nat == BitsSet(v[j])
  {
    forall j | 0 <= j < 16 ensures sum[j] as nat == BitsSet(v[j]) {
      LaneSum(v, p1, p2, sum, j);
    }
  }

  /** A comparison mask has 8 set bits for every agreeing lane and none for the others. */
  lemma {:induction false} MaskBits(x: Bytes, y: Bytes)
    requires |x| == |y|
    ensures BitCount(CmpEq(x, y)) + 8 * Mismatches(x, y) == 8 * |x|
    decreases |x|
  {
    if |x| > 0 {
      var n := |x| - 1;
      MaskBits(x[..n], y[..n]);
      assert CmpEq(x, y)[..n] == CmpEq(x[..n], y[..n]);
    }
  }

  /** `(128 - popcount(_mm_cmpeq_epi8(x, y))) / 8` is the number of lanes (0 to 16) in which
      `x` and `y` differ; the subtraction never wraps. */
  lemma MismatchingLanes(x: Bytes, y: Bytes)
    requires |x| == |y| == 16
    ensures Popcount(CmpEq(x, y)) <= 128
    ensures (128 - Popcount(CmpEq(x, y))) / 8 == Mismatches(x, y)
  {
    MaskBits(x, y);
  }
}
