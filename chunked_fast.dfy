/** The comparators of fn.cpp that test each chunk with `_mm_movemask_epi8` first and fall
    back to `slowF`: `oneChangeSameSizeFast`, `oneChangeDiffSizeFast` and `oneChangeFast`. */
module ChunkedFast {
  import opened EditSpec
  import opened Sse
  import opened Scalar
  import opened Chunked

  /** The mask line of the fast chunk loops, `_mm_movemask_epi8(_mm_cmpeq_epi8(chunk, target))`,
      for the chunk of `rhs` at `i` and the target of `lhs` at `i + off`: all sixteen bits are
      set exactly when the two windows agree. */
  method ChunkMask(lhs: Bytes, rhs: Bytes, i: nat, off: nat) returns (mask: nat)
    requires i + off + 16 <= |lhs| && i + 16 <= |rhs|
    ensures mask == 0xffff <==> Agree(lhs, rhs, off, i, i + 16)
  {
    var chunk := Load(rhs, i);
    var target := Load(lhs, i + off);
    MoveMaskDetectsMismatch(chunk, target);
    AgreeWindow(lhs, rhs, off, i, i + 16);
    var cmpResult := CmpEq(chunk, target);
    mask := MoveMask(cmpResult);
  }

  /** `oneChangeSameSizeFast`: skip equal chunks on the mask alone, count the lanes of the
      others, stop at the second mismatch, and let `slowF` finish the tail. */
  method OneChangeSameSizeFast(lhs: Bytes, rhs: Bytes) returns (r: bool)
    requires |lhs| == |rhs|
    ensures r == (Mismatches(lhs, rhs) <= 1)
  {
    var oneError := false;
    var size := |lhs|;
    ghost var q := 0;
    var i := 0;
    while i + 16 <= size
      invariant i == 16 * q <= size
      invariant Mismatches(lhs[..i], rhs[..i]) == if oneError then 1 else 0
    {
      SameSizeStep(lhs, rhs, i);
      ChunkMismatches(lhs, rhs, i, 0);
      var mask := ChunkMask(lhs, rhs, i, 0);
      if mask != 0xffff {
        var count := CountMismatchingLanes(lhs, rhs, i, 0);
        if count > 1 {
          return false;
        }
        var wasError := oneError;
        oneError := true;
        if wasError {
          return false;
        }
      }
      i, q := i + 16, q + 1;
    }

    AlignedStop(size, q);
    var pos := size - size % 16;
    SameSizeTail(lhs, rhs, pos, oneError);
    r, oneError := SlowF(oneError, lhs[pos..], rhs[pos..]);
  }

  /** `fnOneError` of `oneChangeDiffSizeFast`: after the shift is taken, every shifted chunk
      from the cursor `i0` on must pass the mask test, and `slowF` checks the tail with the
      captured flag, which `fnNoError` has always raised when it calls this lambda. */
  method ShiftedChunks(lhs: Bytes, rhs: Bytes, i0: nat, ghost q0: nat, oneError: bool) returns (ok: bool)
    requires |lhs| == |rhs| + 1 && i0 == 16 * q0 <= |rhs|
    requires oneError
    ensures ok == Agree(lhs, rhs, 1, i0, |rhs|)
  {
    var minSize := |rhs|;
    ghost var q := q0;
    var i := i0;
    while i + 16 <= minSize
      invariant i0 <= i == 16 * q <= minSize
      invariant Agree(lhs, rhs, 1, i0, i)
    {
      var mask := ChunkMask(lhs, rhs, i, 1);
      if mask != 0xffff {
        AgreeJoin(lhs, rhs, 1, i0, i, i + 16, minSize);
        AgreeJoin(lhs, rhs, 1, i, i + 16, i + 16, minSize);
        return false;
      }
      AgreeJoin(lhs, rhs, 1, i0, i, i, i + 16);
      i, q := i + 16, q + 1;
    }

    AlignedStop(minSize, q);
    var pos := minSize - minSize % 16;
    var lo := pos + (if oneError then 1 else 0);
    SlowOnShiftedTail(lhs, rhs, pos);
    AgreeJoin(lhs, rhs, 1, i0, pos, pos, minSize);
    var oneErrorOut;
    ok, oneErrorOut := SlowF(oneError, lhs[lo..], rhs[pos..]);
  }

  /** `oneChangeDiffSizeFast`, whose body is its lambda `fnNoError`: aligned chunks on the
      mask alone; the first chunk that fails goes to `slowF` with the window one byte longer
      on the left, and on success the cursor moves past that chunk into `fnOneError`. */
  method OneChangeDiffSizeFast(lhs: Bytes, rhs: Bytes) returns (r: bool)
    requires |lhs| > |rhs|
    ensures r == IsOneEdit(lhs, rhs)
  {
    if |lhs| - |rhs| != 1 {
      return false;
    }

    var oneError := false;
    var minSize := |rhs|;
    ghost var k := FirstMismatch(lhs, rhs);
    ghost var q := 0;
    var i := 0;
    while i + 16 <= minSize
      invariant i == 16 * q <= minSize && i <= k && !oneError
    {
      var mask := ChunkMask(lhs, rhs, i, if oneError then 1 else 0);
      if mask != 0xffff {
        var ok;
        ok, oneError := SlowF(oneError, lhs[i..i + 17], rhs[i..i + 16]);
        FirstMismatchChunk(lhs, rhs, i);
        if ok {
          i := i + 16;
          r := ShiftedChunks(lhs, rhs, i, q + 1, oneError);
          return;
        } else {
          return false;
        }
      }
      AlignedChunkAgrees(lhs, rhs, i);
      i, q := i + 16, q + 1;
    }

    AlignedStop(minSize, q);
    var pos := minSize - minSize % 16;
    var lo := pos + (if oneError then 1 else 0);
    UnshiftedTail(lhs, rhs, pos, lo);
    r, oneError := SlowF(oneError, lhs[lo..], rhs[pos..]);
  }

  /** `oneChangeFast`: dispatch on the lengths, longer operand first. */
  method OneChangeFast(lhs: Bytes, rhs: Bytes) returns (r: bool)
    ensures r == IsOneEdit(lhs, rhs)
  {
    if |lhs| == |rhs| {
      r := OneChangeSameSizeFast(lhs, rhs);
    } else if |lhs| < |rhs| {
      r := OneChangeDiffSizeFast(rhs, lhs);
      IsOneEditSymmetric(lhs, rhs);
    } else {
      r := OneChangeDiffSizeFast(lhs, rhs);
    }
  }
}
