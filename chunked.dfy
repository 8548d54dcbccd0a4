/** The chunked comparators of fn.cpp that count the mismatching lanes of every 16-byte
    chunk with `popcount`: `oneChange`, `oneChangeSameSize`, `oneChangeDiffSize` and
    `oneChangeSplit`, together with the corrected forms of the two that realign. */
module Chunked {
  import opened EditSpec
  import opened Sse
  import opened Scalar

  // ---------------------------------------------------------------------------
  // What the realigning chunk loop accepts as written

  /** The number of the 16-byte chunk that byte `x` lies in, that is `x / 16`, counted
      without division. */
  function ChunkIndex(x: nat): (c: nat)
    ensures 16 * c <= x < 16 * c + 16
  {
    if x < 16 then 0 else 1 + ChunkIndex(x - 16)
  }

  /** When the lengths differ and the first mismatch `k` lies in chunk `ChunkIndex(k)`,
      `slow` settles that chunk, `--i` moves the cursor one byte back and the loop goes on
      with shifted chunks 15, 31, ... bytes past its start. The tail starts at the last
      multiple of 16, so when at least one chunk follows the realigned one and the tail is
      shorter than 15 bytes, the byte of the shorter string just before the tail is
      compared by nobody. */
  ghost predicate SkipsByte(n: nat, k: nat)
  {
    ChunkIndex(k) + 2 <= ChunkIndex(n) && n < 16 * ChunkIndex(n) + 15
  }

  /** What the scan of `oneChange` and `oneChangeDiffSize` accepts for a longer operand
      `long` and a shorter one `short`: the shifted comparison from the first mismatch on,
      minus the byte `SkipsByte` describes. */
  ghost predicate RealignedScanAccepts(long: Bytes, short: Bytes)
    requires |long| == |short| + 1
  {
    var n := |short|;
    var k := FirstMismatch(long, short);
    var tail := 16 * ChunkIndex(n);
    if SkipsByte(n, k) then
      Agree(long, short, 1, k, tail - 1) && Agree(long, short, 1, tail, n)
    else
      Agree(long, short, 1, k, n)
  }

  /** What `oneChange` (and `oneChangeSplit`) accept: exactly the single edits on equal
      lengths, the realigned scan on lengths one apart. */
  ghost predicate RealignedAccepts(a: Bytes, b: Bytes)
  {
    if |a| == |b| then Mismatches(a, b) <= 1
    else if |a| == |b| + 1 then RealignedScanAccepts(a, b)
    else if |b| == |a| + 1 then RealignedScanAccepts(b, a)
    else false
  }

  // ---------------------------------------------------------------------------
  // Chunk arithmetic, in terms of chunk numbers: chunk q starts at byte 16 * q

  /** A byte in chunk `q` has chunk number `q`. */
  lemma ChunkOf(q: nat, k: nat)
    requires 16 * q <= k < 16 * q + 16
    ensures ChunkIndex(k) == q
  {
  }

  /** The tail of every chunk loop starts at `n - n % 16`, the start of the last chunk. */
  lemma TailStart(n: nat)
    ensures n - n % 16 == 16 * ChunkIndex(n)
  {
  }

  /** Where the aligned chunk loop stops: at the start of the tail. */
  lemma AlignedStop(n: nat, q: nat)
    requires 16 * q <= n < 16 * q + 16
    ensures ChunkIndex(n) == q && n - n % 16 == 16 * q
  {
    TailStart(n);
  }

  /** Where the shifted chunk loop stops, 16 * q + 15: at `n` itself when the tail is 15
      bytes long, otherwise one byte before the tail. */
  lemma ShiftedStop(n: nat, q: nat)
    requires 16 * q + 15 <= n < 16 * q + 31
    ensures n - n % 16 == 16 * ChunkIndex(n)
    ensures n < 16 * ChunkIndex(n) + 15 ==> ChunkIndex(n) == q + 1
    ensures n >= 16 * ChunkIndex(n) + 15 ==> n == 16 * q + 15 && ChunkIndex(n) == q
  {
    TailStart(n);
  }

  /** Two overlapping agreements make one. */
  lemma AgreeJoin(a: Bytes, b: Bytes, off: nat, lo: nat, mid1: nat, mid2: nat, hi: nat)
    requires lo <= mid1 <= mid2 <= hi <= |b| && hi + off <= |a|
    ensures Agree(a, b, off, lo, mid2) && Agree(a, b, off, mid1, hi) <==> Agree(a, b, off, lo, hi)
  {
  }

  // ---------------------------------------------------------------------------
  // One chunk

  /** The chunk of `rhs` at `i` and the window of `lhs` at `i + off` differ nowhere exactly
      when they agree. */
  lemma ChunkMismatches(lhs: Bytes, rhs: Bytes, i: nat, off: nat)
    requires i + off + 16 <= |lhs| && i + 16 <= |rhs|
    ensures Mismatches(lhs[i + off..i + off + 16], rhs[i..i + 16]) == 0
            <==> Agree(lhs, rhs, off, i, i + 16)
  {
    MismatchesZero(lhs[i + off..i + off + 16], rhs[i..i + 16]);
    AgreeWindow(lhs, rhs, off, i, i + 16);
  }

  /** `(128 - popcount(_mm_cmpeq_epi8(chunk, target))) / 8` for the chunk of `rhs` at `i`
      and the target of `lhs` at `i + off` is the number of bytes in which they differ,
      and it is zero exactly when the two windows agree. */
  lemma ChunkCount(lhs: Bytes, rhs: Bytes, i: nat, off: nat)
    requires i + off + 16 <= |lhs| && i + 16 <= |rhs|
    ensures Popcount(CmpEq(Load(rhs, i), Load(lhs, i + off))) <= 128
    ensures (128 - Popcount(CmpEq(Load(rhs, i), Load(lhs, i + off)))) / 8
            == Mismatches(lhs[i + off..i + off + 16], rhs[i..i + 16])
    ensures Mismatches(lhs[i + off..i + off + 16], rhs[i..i + 16]) == 0
            <==> Agree(lhs, rhs, off, i, i + 16)
  {
    MismatchingLanes(Load(rhs, i), Load(lhs, i + off));
    MismatchesSymmetric(Load(rhs, i), Load(lhs, i + off));
    ChunkMismatches(lhs, rhs, i, off);
  }

  /** The count line of every chunk loop, `(128 - popcount(_mm_cmpeq_epi8(chunk, target))) / 8`,
      for the chunk of `rhs` at `i` and the target of `lhs` at `i + off`. */
  method CountMismatchingLanes(lhs: Bytes, rhs: Bytes, i: nat, off: nat) returns (count: int)
    requires i + off + 16 <= |lhs| && i + 16 <= |rhs|
    ensures count == Mismatches(lhs[i + off..i + off + 16], rhs[i..i + 16])
    ensures count == 0 <==> Agree(lhs, rhs, off, i, i + 16)
  {
    ChunkCount(lhs, rhs, i, off);
    var chunk := Load(rhs, i);
    var target := Load(lhs, i + off);
    var cmpResult := CmpEq(chunk, target);
    count := (128 - Popcount(cmpResult)) / 8;
  }

  /** What `slow` answers, and the flag it leaves, on the chunk window at `i` of the longer
      operand when that chunk holds the first mismatch `k`. */
  lemma SlowOnWindow(lhs: Bytes, rhs: Bytes, i: nat)
    requires |lhs| == |rhs| + 1 && i + 16 <= |rhs|
    requires i <= FirstMismatch(lhs, rhs) < i + 16
    ensures AcceptsRest(lhs[i..i + 17], rhs[i..i + 16], false)
            == Agree(lhs, rhs, 1, FirstMismatch(lhs, rhs), i + 16)
    ensures !Agree(lhs[i..i + 17], rhs[i..i + 16], 0, 0, 16)
  {
    var k := FirstMismatch(lhs, rhs);
    assert lhs[i..i + 17][k - i] != rhs[i..i + 16][k - i];
    DeletionInWindow(lhs, rhs, i, i + 16, k);
  }

  /** What `slow` answers on the tail from `pos` once the shift is taken: the two tails
      have equal length and must be equal. */
  lemma SlowOnShiftedTail(lhs: Bytes, rhs: Bytes, pos: nat)
    requires |lhs| == |rhs| + 1 && pos <= |rhs|
    ensures AcceptsRest(lhs[pos + 1..], rhs[pos..], true) == Agree(lhs, rhs, 1, pos, |rhs|)
  {
    assert lhs[pos + 1..] == lhs[pos + 1..|rhs| + 1] && rhs[pos..] == rhs[pos..|rhs|];
    AgreeWindow(lhs, rhs, 1, pos, |rhs|);
    MismatchesZero(lhs[pos + 1..], rhs[pos..]);
  }

  /** One equal-length chunk: its mismatches add to those before it, and all of them
      together are at most those of the whole strings. */
  lemma SameSizeStep(lhs: Bytes, rhs: Bytes, i: nat)
    requires |lhs| == |rhs| && i + 16 <= |rhs|
    ensures Mismatches(lhs[..i + 16], rhs[..i + 16])
            == Mismatches(lhs[..i], rhs[..i]) + Mismatches(lhs[i..i + 16], rhs[i..i + 16])
    ensures Mismatches(lhs[..i + 16], rhs[..i + 16]) <= Mismatches(lhs, rhs)
  {
    MismatchesSplit(lhs, rhs, i, i + 16);
    MismatchesSplitRest(lhs, rhs, i + 16);
  }

  /** The equal-length tail: the prefix up to `pos` and the tail scan together decide. */
  lemma SameSizeTail(lhs: Bytes, rhs: Bytes, pos: nat, oneError: bool)
    requires |lhs| == |rhs| && pos <= |rhs|
    requires Mismatches(lhs[..pos], rhs[..pos]) == if oneError then 1 else 0
    ensures AcceptsRest(lhs[pos..], rhs[pos..], oneError) == (Mismatches(lhs, rhs) <= 1)
  {
    MismatchesSplitRest(lhs, rhs, pos);
  }

  /** An aligned chunk that agrees, with no mismatch before it, moves the first mismatch
      past it. */
  lemma AlignedChunkAgrees(lhs: Bytes, rhs: Bytes, i: nat)
    requires |rhs| <= |lhs| && i + 16 <= |rhs| && i <= FirstMismatch(lhs, rhs)
    requires Agree(lhs, rhs, 0, i, i + 16)
    ensures i + 16 <= FirstMismatch(lhs, rhs)
  {
  }

  // ---------------------------------------------------------------------------
  // The realigning loop, step by step. The first mismatch lies in chunk `cq`; the
  // shifted chunks after it start at 16 * q + 15.

  /** The chunk `cq` at `i` that holds the first mismatch, handed to `slow` with one byte
      more of the longer operand: `slow` accepts when the shift holds from the mismatch to
      the end of the chunk, and when it rejects the as-written scan accepts nothing. */
  lemma RealignedFirstChunk(long: Bytes, short: Bytes, i: nat, cq: nat)
    requires |long| == |short| + 1 && i == 16 * cq && i + 16 <= |short|
    requires i <= FirstMismatch(long, short) < i + 16
    ensures AcceptsRest(long[i..i + 17], short[i..i + 16], false)
            == Agree(long, short, 1, FirstMismatch(long, short), i + 16)
    ensures !AcceptsRest(long[i..i + 17], short[i..i + 16], false) ==>
              !RealignedScanAccepts(long, short) && !RealignedAccepts(long, short)
    ensures !Agree(long[i..i + 17], short[i..i + 16], 0, 0, 16)
  {
    var n, k := |short|, FirstMismatch(long, short);
    SlowOnWindow(long, short, i);
    ChunkOf(cq, k);
    var hi := if SkipsByte(n, k) then 16 * ChunkIndex(n) - 1 else n;
    AgreeJoin(long, short, 1, k, i + 16, i + 16, hi);
  }

  /** A shifted chunk that disagrees leaves nothing to accept: it lies before the byte
      that `SkipsByte` describes. */
  lemma RealignedChunkRejects(long: Bytes, short: Bytes, cq: nat, q: nat)
    requires |long| == |short| + 1 && cq <= q && 16 * q + 31 <= |short|
    requires 16 * cq <= FirstMismatch(long, short) < 16 * cq + 16
    requires !Agree(long, short, 1, 16 * q + 15, 16 * q + 31)
    ensures !RealignedScanAccepts(long, short)
  {
    var n, k := |short|, FirstMismatch(long, short);
    ChunkOf(cq, k);
    if ChunkIndex(n) == q + 1 {
      assert n == 16 * q + 31;
    }
    var hi := if SkipsByte(n, k) then 16 * ChunkIndex(n) - 1 else n;
    AgreeJoin(long, short, 1, k, 16 * q + 15, 16 * q + 31, hi);
    AgreeJoin(long, short, 1, 16 * q + 15, 16 * q + 31, 16 * q + 31, hi);
  }

  /** After a realignment in chunk `cq`, the shifted chunks up to 16 * q + 15 leave the
      shifted comparison of the tail, from the last multiple of 16, to decide. */
  lemma RealignedTailAgree(long: Bytes, short: Bytes, cq: nat, q: nat, pos: nat)
    requires |long| == |short| + 1 && cq <= q && 16 * cq + 16 <= |short|
    requires 16 * cq <= FirstMismatch(long, short) < 16 * cq + 16
    requires 16 * q + 15 <= |short| < 16 * q + 31 && pos == 16 * ChunkIndex(|short|)
    requires Agree(long, short, 1, FirstMismatch(long, short), 16 * cq + 16)
    requires Agree(long, short, 1, 16 * cq + 15, 16 * q + 15)
    ensures RealignedScanAccepts(long, short) == Agree(long, short, 1, pos, |short|)
  {
    var n, k := |short|, FirstMismatch(long, short);
    var i := 16 * q + 15;
    ChunkOf(cq, k);
    ShiftedStop(n, q);
    if cq < q {
      AgreeJoin(long, short, 1, k, 16 * cq + 15, 16 * cq + 16, i);
    }
    if n >= pos + 15 {
      // a 15-byte tail: the shifted chunks reached the end, nothing is skipped
      assert n == i && cq < q && !SkipsByte(n, k);
      AgreeJoin(long, short, 1, k, pos, pos, n);
    } else if cq < q {
      // the byte just before the tail is skipped
      assert i == pos - 1 && SkipsByte(n, k);
    } else {
      // no shifted chunk followed the realigned one
      assert pos == 16 * cq + 16 && !SkipsByte(n, k);
      AgreeJoin(long, short, 1, k, pos, pos, n);
    }
  }

  /** The same, stated about what `slow` answers on that tail with the flag set. */
  lemma RealignedTail(long: Bytes, short: Bytes, cq: nat, q: nat, pos: nat, lo: nat)
    requires |long| == |short| + 1 && cq <= q && 16 * cq + 16 <= |short|
    requires 16 * cq <= FirstMismatch(long, short) < 16 * cq + 16
    requires 16 * q + 15 <= |short| < 16 * q + 31 && pos == |short| - |short| % 16 && lo == pos + 1
    requires Agree(long, short, 1, FirstMismatch(long, short), 16 * cq + 16)
    requires Agree(long, short, 1, 16 * cq + 15, 16 * q + 15)
    ensures RealignedScanAccepts(long, short) == AcceptsRest(long[lo..], short[pos..], true)
  {
    TailStart(|short|);
    RealignedTailAgree(long, short, cq, q, pos);
    SlowOnShiftedTail(long, short, pos);
  }

  /** Without a realignment the tail scan from chunk `q` decides the as-written scan. */
  lemma AlignedTail(long: Bytes, short: Bytes, q: nat, pos: nat, lo: nat)
    requires |long| == |short| + 1 && 16 * q <= |short| < 16 * q + 16 && lo == pos == 16 * q
    requires pos <= FirstMismatch(long, short)
    ensures RealignedScanAccepts(long, short) == AcceptsRest(long[lo..], short[pos..], false)
  {
    var k := FirstMismatch(long, short);
    ChunkOf(q, |short|);
    ChunkOf(q, k);
    DeletionInSuffix(long, short, pos, k);
  }

  // ---------------------------------------------------------------------------
  // The comparators. The ghost `q` is the number of the chunk the cursor `i` is in.

  /** `oneChangeSameSize`: count the mismatches chunk by chunk, stop at the second one, and
      let `slow` finish the last `size % 16` bytes with the flag the chunks left. */
  method OneChangeSameSize(lhs: Bytes, rhs: Bytes) returns (r: bool)
    requires |lhs| == |rhs|
    ensures r == (Mismatches(lhs, rhs) <= 1)
  {
    var oneError := false;
    var size := |lhs|;
    ghost var q := 0;
    var i := 0;
    while i + 16 <= size
      invariant i == 16 * q <= size
      invariant Mismatches(lhs[..i], rhs[..i]) == if oneError then 1 else 0
    {
      var count := CountMismatchingLanes(lhs, rhs, i, 0);
      SameSizeStep(lhs, rhs, i);
      if count != 0 {
        if count > 1 {
          return false;
        }
        var wasError := oneError;
        oneError := true;
        if wasError {
          return false;
        }
      }
      i, q := i + 16, q + 1;
    }

    AlignedStop(size, q);
    var pos := size - size % 16;
    SameSizeTail(lhs, rhs, pos, oneError);
    r, oneError := Slow(lhs[pos..], rhs[pos..], oneError);
  }

  /** `oneChangeDiffSize` as written: aligned chunks up to the first mismatching one, which
      `slow` settles; then `--i` and shifted chunks; then `slow` on the tail from the last
      multiple of 16. */
  method OneChangeDiffSize(lhs: Bytes, rhs: Bytes) returns (r: bool)
    requires |lhs| > |rhs|
    ensures r == (|lhs| == |rhs| + 1 && RealignedScanAccepts(lhs, rhs))
  {
    if |lhs| - |rhs| != 1 {
      return false;
    }

    var oneError := false;
    var minSize := |rhs|;
    ghost var k := FirstMismatch(lhs, rhs);
    ghost var q, cq := 0, 0;
    var i := 0;
    while i + 16 <= minSize
      invariant i <= minSize
      invariant !oneError ==> i == 16 * q <= k
      invariant oneError ==> i == 16 * q + 15 && cq <= q && 16 * cq <= k < 16 * cq + 16 <= minSize
      invariant oneError ==> Agree(lhs, rhs, 1, k, 16 * cq + 16) && Agree(lhs, rhs, 1, 16 * cq + 15, i)
    {
      var off := if oneError then 1 else 0;
      var count := CountMismatchingLanes(lhs, rhs, i, off);
      if count != 0 {
        if oneError {
          RealignedChunkRejects(lhs, rhs, cq, q);
          return false;
        }
        RealignedFirstChunk(lhs, rhs, i, q);
        var ok;
        ok, oneError := Slow(lhs[i..i + 17], rhs[i..i + 16], oneError);
        if !ok {
          return false;
        }
        cq := q;
        i := i + 15;  // `--i` before the loop's `i += 16`
      } else {
        if oneError {
          AgreeJoin(lhs, rhs, 1, 16 * cq + 15, i, i, i + 16);
        } else {
          AlignedChunkAgrees(lhs, rhs, i);
        }
        i, q := i + 16, q + 1;
      }
    }

    var pos := minSize - minSize % 16;
    var lo := pos + (if oneError then 1 else 0);
    if oneError {
      RealignedTail(lhs, rhs, cq, q, pos, lo);
    } else {
      AlignedStop(minSize, q);
      AlignedTail(lhs, rhs, q, pos, lo);
    }
    r, oneError := Slow(lhs[lo..], rhs[pos..], oneError);
  }

  /** A chunk of `oneChange` that the loop rejects: a second mismatch on equal lengths, or a
      shifted chunk that disagrees after the realignment. */
  lemma OneChangeChunkRejects(lhs: Bytes, rhs: Bytes, oneError: bool, i: int, q: int, cq: int, off: nat, count: nat)
    requires |rhs| <= |lhs| <= |rhs| + 1 && 0 <= i && i + 16 <= |rhs|
    requires off == (if oneError && |lhs| != |rhs| then 1 else 0)
    requires count == Mismatches(lhs[i + off..i + off + 16], rhs[i..i + 16])
    requires count != 0 && (oneError || (|lhs| == |rhs| && count > 1))
    requires |lhs| == |rhs| ==> i == 16 * q && Mismatches(lhs[..i], rhs[..i]) == if oneError then 1 else 0
    requires |lhs| != |rhs| && oneError ==>
               && i == 16 * q + 15 && 0 <= cq <= q
               && 16 * cq <= FirstMismatch(lhs, rhs) < 16 * cq + 16
    ensures !RealignedAccepts(lhs, rhs)
  {
    if |lhs| == |rhs| {
      assert lhs[i + off..i + off + 16] == lhs[i..i + 16];
      SameSizeStep(lhs, rhs, i);
    } else {
      ChunkMismatches(lhs, rhs, i, off);
      assert off == 1 && i + 16 == 16 * q + 31;
      RealignedChunkRejects(lhs, rhs, cq, q);
    }
  }

  /** Where the chunk loop of `oneChange` stops, in either mode, `slow` on the tail from
      `pos` (and `lo` in the longer operand) decides what the whole scan accepts. */
  lemma OneChangeTail(lhs: Bytes, rhs: Bytes, oneError: bool, i: int, q: int, cq: int, pos: nat, lo: nat)
    requires |rhs| <= |lhs| <= |rhs| + 1
    requires i <= |rhs| < i + 16 && pos == |rhs| - |rhs| % 16
    requires lo == pos + (if oneError && |lhs| != |rhs| then 1 else 0)
    requires |lhs| == |rhs| ==> i == 16 * q && Mismatches(lhs[..i], rhs[..i]) == if oneError then 1 else 0
    requires |lhs| != |rhs| && !oneError ==> i == 16 * q <= FirstMismatch(lhs, rhs)
    requires |lhs| != |rhs| && oneError ==>
               && i == 16 * q + 15 && 0 <= cq <= q && 16 * cq + 16 <= |rhs|
               && 16 * cq <= FirstMismatch(lhs, rhs) < 16 * cq + 16
               && Agree(lhs, rhs, 1, FirstMismatch(lhs, rhs), 16 * cq + 16)
               && Agree(lhs, rhs, 1, 16 * cq + 15, i)
    ensures lo <= |lhs| && pos <= |rhs|
    ensures |lhs| - lo == |rhs| - pos || |lhs| - lo == |rhs| - pos + 1
    ensures AcceptsRest(lhs[lo..], rhs[pos..], oneError) == RealignedAccepts(lhs, rhs)
  {
    if |lhs| == |rhs| {
      AlignedStop(|rhs|, q);
      SameSizeTail(lhs, rhs, pos, oneError);
    } else if oneError {
      RealignedTail(lhs, rhs, cq, q, pos, lo);
    } else {
      AlignedStop(|rhs|, q);
      AlignedTail(lhs, rhs, q, pos, lo);
    }
  }

  /** `oneChange`: the longer operand first, the length gap, then one chunk loop for both
      cases (on equal lengths it counts the mismatches, on lengths one apart it realigns
      as `oneChangeDiffSize` does) and `slow` on the tail. It accepts every single edit,
      but also the pairs whose only further difference is the byte it skips. */
  method OneChange(lhs: Bytes, rhs: Bytes) returns (r: bool)
    ensures r == RealignedAccepts(lhs, rhs)
    decreases if |lhs| < |rhs| then 1 else 0
  {
    if |lhs| < |rhs| {
      r := OneChange(rhs, lhs);
      return;
    }

    var maxSize := |lhs|;
    var minSize := |rhs|;
    if maxSize - minSize > 1 {
      return false;
    }

    var oneSize := maxSize == minSize;
    var oneError := false;
    ghost var k := FirstMismatch(lhs, rhs);
    ghost var q, cq := 0, 0;
    var i := 0;
    while i + 16 <= minSize
      invariant i <= minSize
      invariant oneSize ==> i == 16 * q && Mismatches(lhs[..i], rhs[..i]) == if oneError then 1 else 0
      invariant !oneSize && !oneError ==> i == 16 * q <= k
      invariant !oneSize && oneError ==>
                  i == 16 * q + 15 && cq <= q && 16 * cq <= k < 16 * cq + 16 <= minSize
      invariant !oneSize && oneError ==>
                  Agree(lhs, rhs, 1, k, 16 * cq + 16) && Agree(lhs, rhs, 1, 16 * cq + 15, i)
    {
      var off := if oneError && !oneSize then 1 else 0;
      var count := CountMismatchingLanes(lhs, rhs, i, off);
      if oneSize {
        SameSizeStep(lhs, rhs, i);
      }
      var next := i + 16;
      if count != 0 {
        if oneError || (oneSize && count > 1) {
          OneChangeChunkRejects(lhs, rhs, oneError, i, q, cq, off, count);
          return false;
        } else if count == 1 && oneSize {
          oneError := true;
        } else {
          RealignedFirstChunk(lhs, rhs, i, q);
          var ok;
          ok, oneError := Slow(lhs[i..i + 17], rhs[i..i + 16], oneError);
          if !ok {
            return false;
          }
          cq := q;
          q := q - 1;
          next := i + 15;  // `--i` before the loop's `i += 16`
        }
      } else if !oneSize && oneError {
        AgreeJoin(lhs, rhs, 1, 16 * cq + 15, i, i, i + 16);
      } else if !oneSize {
        AlignedChunkAgrees(lhs, rhs, i);
      }
      i, q := next, q + 1;
    }

    var pos := minSize - minSize % 16;
    var lo := pos + (if oneError && !oneSize then 1 else 0);
    OneChangeTail(lhs, rhs, oneError, i, q, cq, pos, lo);
    r, oneError := Slow(lhs[lo..], rhs[pos..], oneError);
  }

  /** `oneChangeSplit`: dispatch on the lengths to `oneChangeSameSize` or, longer operand
      first, to `oneChangeDiffSize` as written. */
  method OneChangeSplit(lhs: Bytes, rhs: Bytes) returns (r: bool)
    ensures r == RealignedAccepts(lhs, rhs)
  {
    if |lhs| == |rhs| {
      r := OneChangeSameSize(lhs, rhs);
    } else if |lhs| < |rhs| {
      r := OneChangeDiffSize(rhs, lhs);
    } else {
      r := OneChangeDiffSize(lhs, rhs);
    }
  }

  // ---------------------------------------------------------------------------
  // The as-written scan against the reference

  /** Whatever the reference accepts, the realigning scan accepts too. */
  lemma RealignedSound(a: Bytes, b: Bytes)
    ensures IsOneEdit(a, b) ==> RealignedAccepts(a, b)
  {
    if |a| == |b| + 1 {
      DeletionAtFirstMismatch(a, b);
    } else if |b| == |a| + 1 {
      DeletionAtFirstMismatch(b, a);
    }
  }

  /** Where no byte is skipped, the realigning scan and the reference agree. */
  lemma RealignedExactUnlessSkipped(a: Bytes, b: Bytes)
    requires |a| == |b| + 1 ==> !SkipsByte(|b|, FirstMismatch(a, b))
    requires |b| == |a| + 1 ==> !SkipsByte(|a|, FirstMismatch(b, a))
    ensures RealignedAccepts(a, b) == IsOneEdit(a, b)
  {
    if |a| == |b| + 1 {
      DeletionAtFirstMismatch(a, b);
    } else if |b| == |a| + 1 {
      DeletionAtFirstMismatch(b, a);
    }
  }

  /** "X" followed by 32 "a", against 31 "a" followed by "b": deleting the "X" leaves 32 "a",
      never the "b", yet the realigning scan accepts the pair, because it never compares
      the last byte of the shorter string (index 31) with index 32 of the longer. */
  lemma SkippedByteAccepted()
    ensures var x: Bytes := [0x58] + seq(32, _ => 0x61);
            var y: Bytes := seq(31, _ => 0x61) + [0x62];
            RealignedAccepts(x, y) && !IsOneEdit(x, y)
  {
    var x: Bytes := [0x58] + seq(32, _ => 0x61);
    var y: Bytes := seq(31, _ => 0x61) + [0x62];
    assert FirstMismatch(x, y) == 0;
    assert x[31 + 1] != y[31];
    DeletionAtFirstMismatch(x, y);
    IsOneEditSymmetric(x, y);
  }

  // ---------------------------------------------------------------------------
  // Corrected forms: without `--i` the shifted chunks start right after the realigned one

  /** A shifted window after the first mismatch that disagrees rules out a single deletion. */
  lemma ShiftedWindowRejects(lhs: Bytes, rhs: Bytes, lo: nat, hi: nat)
    requires |lhs| == |rhs| + 1 && FirstMismatch(lhs, rhs) <= lo <= hi <= |rhs|
    requires !Agree(lhs, rhs, 1, lo, hi)
    ensures !IsOneEdit(lhs, rhs)
  {
    DeletionAtFirstMismatch(lhs, rhs);
    AgreeJoin(lhs, rhs, 1, FirstMismatch(lhs, rhs), lo, hi, |rhs|);
    AgreeJoin(lhs, rhs, 1, lo, hi, hi, |rhs|);
  }

  /** Once the shifted comparison holds up to `pos`, the rest decides. */
  lemma ShiftedTailDecides(lhs: Bytes, rhs: Bytes, pos: nat)
    requires |lhs| == |rhs| + 1 && FirstMismatch(lhs, rhs) <= pos <= |rhs|
    requires Agree(lhs, rhs, 1, FirstMismatch(lhs, rhs), pos)
    ensures IsOneEdit(lhs, rhs) == Agree(lhs, rhs, 1, pos, |rhs|)
  {
    DeletionAtFirstMismatch(lhs, rhs);
    AgreeJoin(lhs, rhs, 1, FirstMismatch(lhs, rhs), pos, pos, |rhs|);
  }

  /** The chunk at `i` that holds the first mismatch, handed to the scalar scan with one
      byte more of the longer operand: the scan accepts when the shift holds from the
      mismatch to the end of the chunk; when it rejects there is no single deletion, and
      when it accepts, the shifted comparison from `i + 16` on decides. */
  lemma FirstMismatchChunk(lhs: Bytes, rhs: Bytes, i: nat)
    requires |lhs| == |rhs| + 1 && i + 16 <= |rhs|
    requires i <= FirstMismatch(lhs, rhs) < i + 16
    ensures AcceptsRest(lhs[i..i + 17], rhs[i..i + 16], false)
            == Agree(lhs, rhs, 1, FirstMismatch(lhs, rhs), i + 16)
    ensures AcceptsRest(lhs[i..i + 17], rhs[i..i + 16], false) ==>
              (IsOneEdit(lhs, rhs) <==> Agree(lhs, rhs, 1, i + 16, |rhs|))
    ensures !AcceptsRest(lhs[i..i + 17], rhs[i..i + 16], false) ==> !IsOneEdit(lhs, rhs)
    ensures !Agree(lhs[i..i + 17], rhs[i..i + 16], 0, 0, 16)
  {
    var k := FirstMismatch(lhs, rhs);
    SlowOnWindow(lhs, rhs, i);
    if AcceptsRest(lhs[i..i + 17], rhs[i..i + 16], false) {
      ShiftedTailDecides(lhs, rhs, i + 16);
    } else {
      ShiftedWindowRejects(lhs, rhs, k, i + 16);
    }
  }

  /** The scalar scan of the tail from `pos`, with no mismatch before it, decides. */
  lemma UnshiftedTail(lhs: Bytes, rhs: Bytes, pos: nat, lo: nat)
    requires |lhs| == |rhs| + 1 && lo == pos <= FirstMismatch(lhs, rhs)
    ensures AcceptsRest(lhs[lo..], rhs[pos..], false) == IsOneEdit(lhs, rhs)
  {
    var k := FirstMismatch(lhs, rhs);
    DeletionInSuffix(lhs, rhs, pos, k);
    ShiftedTailDecides(lhs, rhs, k);
  }

  /** The scalar scan of the tail from `pos`, once the shift holds up to `pos`, decides. */
  lemma ShiftedTail(lhs: Bytes, rhs: Bytes, pos: nat, lo: nat)
    requires |lhs| == |rhs| + 1 && FirstMismatch(lhs, rhs) <= pos <= |rhs| && lo == pos + 1
    requires Agree(lhs, rhs, 1, FirstMismatch(lhs, rhs), pos)
    ensures AcceptsRest(lhs[lo..], rhs[pos..], true) == IsOneEdit(lhs, rhs)
  {
    SlowOnShiftedTail(lhs, rhs, pos);
    ShiftedTailDecides(lhs, rhs, pos);
  }

  /** `oneChangeDiffSize` without the `--i`: it accepts exactly the single deletions. */
  method OneChangeDiffSizeCorrected(lhs: Bytes, rhs: Bytes) returns (r: bool)
    requires |lhs| > |rhs|
    ensures r == IsOneEdit(lhs, rhs)
  {
    if |lhs| - |rhs| != 1 {
      return false;
    }

    var oneError := false;
    var minSize := |rhs|;
    ghost var k := FirstMismatch(lhs, rhs);
    ghost var q := 0;
    var i := 0;
    while i + 16 <= minSize
      invariant i == 16 * q <= minSize
      invariant !oneError ==> i <= k
      invariant oneError ==> k < i && Agree(lhs, rhs, 1, k, i)
    {
      var off := if oneError then 1 else 0;
      var count := CountMismatchingLanes(lhs, rhs, i, off);
      if count != 0 {
        if oneError {
          ShiftedWindowRejects(lhs, rhs, i, i + 16);
          return false;
        }
        FirstMismatchChunk(lhs, rhs, i);
        var ok;
        ok, oneError := Slow(lhs[i..i + 17], rhs[i..i + 16], oneError);
        if !ok {
          return false;
        }
      } else if oneError {
        AgreeJoin(lhs, rhs, 1, k, i, i, i + 16);
      } else {
        AlignedChunkAgrees(lhs, rhs, i);
      }
      i, q := i + 16, q + 1;
    }

    AlignedStop(minSize, q);
    var pos := minSize - minSize % 16;
    var lo := pos + (if oneError then 1 else 0);
    if oneError {
      ShiftedTail(lhs, rhs, pos, lo);
    } else {
      UnshiftedTail(lhs, rhs, pos, lo);
    }
    r, oneError := Slow(lhs[lo..], rhs[pos..], oneError);
  }

  /** A chunk of the corrected `oneChange` that the loop rejects: a second mismatch on
      equal lengths, or a shifted chunk that disagrees. */
  lemma OneChangeCorrectedChunkRejects(lhs: Bytes, rhs: Bytes, oneError: bool, i: nat, off: nat, count: nat)
    requires |rhs| <= |lhs| <= |rhs| + 1 && i + 16 <= |rhs|
    requires off == (if oneError && |lhs| != |rhs| then 1 else 0)
    requires count == Mismatches(lhs[i + off..i + off + 16], rhs[i..i + 16])
    requires count != 0 && (oneError || (|lhs| == |rhs| && count > 1))
    requires |lhs| == |rhs| ==> Mismatches(lhs[..i], rhs[..i]) == if oneError then 1 else 0
    requires |lhs| != |rhs| && oneError ==> FirstMismatch(lhs, rhs) < i
    ensures !IsOneEdit(lhs, rhs)
  {
    if |lhs| == |rhs| {
      assert lhs[i + off..i + off + 16] == lhs[i..i + 16];
      SameSizeStep(lhs, rhs, i);
    } else {
      ChunkMismatches(lhs, rhs, i, off);
      ShiftedWindowRejects(lhs, rhs, i, i + 16);
    }
  }

  /** Where the chunk loop of the corrected `oneChange` stops, in either mode, `slow` on
      the tail decides the reference. */
  lemma OneChangeCorrectedTail(lhs: Bytes, rhs: Bytes, oneError: bool, i: nat, q: nat, pos: nat, lo: nat)
    requires |rhs| <= |lhs| <= |rhs| + 1
    requires i == 16 * q <= |rhs| < i + 16 && pos == |rhs| - |rhs| % 16
    requires lo == pos + (if oneError && |lhs| != |rhs| then 1 else 0)
    requires |lhs| == |rhs| ==> Mismatches(lhs[..i], rhs[..i]) == if oneError then 1 else 0
    requires |lhs| != |rhs| && !oneError ==> i <= FirstMismatch(lhs, rhs)
    requires |lhs| != |rhs| && oneError ==> FirstMismatch(lhs, rhs) < i && Agree(lhs, rhs, 1, FirstMismatch(lhs, rhs), i)
    ensures lo <= |lhs| && pos <= |rhs|
    ensures |lhs| - lo == |rhs| - pos || |lhs| - lo == |rhs| - pos + 1
    ensures AcceptsRest(lhs[lo..], rhs[pos..], oneError) == IsOneEdit(lhs, rhs)
  {
    AlignedStop(|rhs|, q);
    if |lhs| == |rhs| {
      SameSizeTail(lhs, rhs, pos, oneError);
    } else if oneError {
      ShiftedTail(lhs, rhs, pos, lo);
    } else {
      UnshiftedTail(lhs, rhs, pos, lo);
    }
  }

  /** `oneChange` without the `--i`: it agrees with the reference on every input. */
  method OneChangeCorrected(lhs: Bytes, rhs: Bytes) returns (r: bool)
    ensures r == IsOneEdit(lhs, rhs)
    decreases if |lhs| < |rhs| then 1 else 0
  {
    if |lhs| < |rhs| {
      r := OneChangeCorrected(rhs, lhs);
      IsOneEditSymmetric(lhs, rhs);
      return;
    }

    var maxSize := |lhs|;
    var minSize := |rhs|;
    if maxSize - minSize > 1 {
      return false;
    }

    var oneSize := maxSize == minSize;
    var oneError := false;
    ghost var k := FirstMismatch(lhs, rhs);
    ghost var q := 0;
    var i := 0;
    while i + 16 <= minSize
      invariant i == 16 * q <= minSize
      invariant oneSize ==> Mismatches(lhs[..i], rhs[..i]) == if oneError then 1 else 0
      invariant !oneSize && !oneError ==> i <= k
      invariant !oneSize && oneError ==> k < i && Agree(lhs, rhs, 1, k, i)
    {
      var off := if oneError && !oneSize then 1 else 0;
      var count := CountMismatchingLanes(lhs, rhs, i, off);
      if oneSize {
        SameSizeStep(lhs, rhs, i);
      }
      if count != 0 {
        if oneError || (oneSize && count > 1) {
          OneChangeCorrectedChunkRejects(lhs, rhs, oneError, i, off, count);
          return false;
        } else if count == 1 && oneSize {
          oneError := true;
        } else {
          FirstMismatchChunk(lhs, rhs, i);
          var ok;
          ok, oneError := Slow(lhs[i..i + 17], rhs[i..i + 16], oneError);
          if !ok {
            return false;
          }
        }
      } else if !oneSize && oneError {
        AgreeJoin(lhs, rhs, 1, k, i, i, i + 16);
      } else if !oneSize {
        AlignedChunkAgrees(lhs, rhs, i);
      }
      i, q := i + 16, q + 1;
    }

    var pos := minSize - minSize % 16;
    var lo := pos + (if oneError && !oneSize then 1 else 0);
    OneChangeCorrectedTail(lhs, rhs, oneError, i, q, pos, lo);
    r, oneError := Slow(lhs[lo..], rhs[pos..], oneError);
  }
}
