# Single-edit byte-string equality, modelled in Dafny

This project models the C++ file fn.cpp of SingleEditStringEquality. Each of its comparators
takes two byte strings and answers one question: are they equal, different in exactly one
byte, or is one of them the other with a single byte inserted? The variants differ in how
they scan.

- `oneChangeSlow` is the reference. It makes one byte-at-a-time pass, and after the first
  mismatch it shifts when the lengths differ.
- `oneChangeNoSIMDFast` runs the same scan as four chained loops (lambdas) that share a
  cursor.
- `oneChange`, `oneChangeSameSize`, `oneChangeDiffSize` and `oneChangeSplit` compare
  16-byte chunks with SSE. They count the differing lanes of each chunk with a nibble
  lookup `popcount`. On equal lengths that count alone decides each chunk. On lengths one
  apart the first chunk that differs goes to a scalar `slow` lambda (fn.cpp:155, 233). In
  every variant `slow` also finishes the tail.
- `oneChangeSameSizeFast`, `oneChangeDiffSizeFast` and `oneChangeFast` test each chunk with
  `_mm_movemask_epi8` and fall back to the scalar `slowF`.

The module `EditSpec` defines the meaning of "single edit" on `seq<bv8>` (`IsOneEdit`),
independently of any scan:
- `Mismatches` is the Hamming distance.
- `Delete` and `DeletesTo` describe a one-byte deletion.
- `AcceptsRest` states what a scalar scan of two remainders must accept, given whether the
  edit is already spent.

The other modules hold the comparators:
- `Sse` models the intrinsics lane by lane, including the full `popcount`.
- `Scalar` holds the byte-at-a-time scans.
- `Chunked` holds the popcount-counting chunk loops.
- `ChunkedFast` holds the movemask chunk loops.
- `Oracle` states the expectations written in test.cpp as facts about `IsOneEdit`.

Each comparator is a method with the loops of the source and their invariants. Its
postcondition ties the answer to `IsOneEdit` or, for the two realigning loops, to an exact
characterisation of what they accept as written (`RealignedAccepts`). That characterisation
differs from `IsOneEdit`; see "## Findings".

Modelling conventions:
- The `std::string_view` iterator ranges the lambdas receive are slices.
- The `oneError` flag the lambdas capture or receive by reference is threaded in and
  returned.
- The cursor the lambdas capture is passed in as `i0`.
- The `assert`s at fn.cpp:169, 204, 311 and 336 are preconditions.
- Every 16-byte load has the precondition that it lies inside the string
  (`Sse.Load`, `Chunked.CountMismatchingLanes`, `ChunkedFast.ChunkMask`). Verification
  proves every chunk loop respects it, including the loads one byte ahead in the longer
  string.

## Model

| member | source | states |
|---|---|---|
| Scalar.OneChangeSlow | fn.cpp:8-29 | the reference accepts exactly the pairs within one substitution, insertion or deletion (`IsOneEdit`), for either operand order |
| EditSpec.IsOneEditSymmetric | fn.cpp:9-11 | swapping the operands never changes the answer, which is what makes the "longer operand first" recursion and the dispatchers correct |
| EditSpec.LengthGapRejected | fn.cpp:12-14 | operands whose lengths are more than one apart are never one edit apart |
| EditSpec.DeletionAtFirstMismatch | fn.cpp:19-25 | on lengths one apart, a single deletion exists iff taking the shift at the first mismatch makes every later byte of the shorter string match the next byte of the longer; the byte scan loses nothing by shifting there |
| Scalar.SameSizeOneError | fn.cpp:55-62 | `fnOneSizeOneError` accepts iff every byte from the cursor on matches |
| Scalar.SameSizeNoError | fn.cpp:63-72 | `fnOneSizeNoError` accepts iff the remainders differ in at most one byte, and leaves the flag raised iff it was raised or they differ at all |
| Scalar.DiffSizeOneError | fn.cpp:73-80 | `fnDiffSizeOneError` accepts iff every byte of the shorter string from the cursor on matches the next byte of the longer |
| Scalar.DiffSizeNoError | fn.cpp:81-89 | `fnDiffSizeNoError` accepts iff deleting one byte of the longer remainder gives the shorter, and leaves the flag raised iff it was raised or the two differ within the shorter remainder |
| Scalar.OneChangeNoSimdFast | fn.cpp:31-95 | the chained-lambda scan accepts exactly `IsOneEdit`, in either operand order |
| Sse.Popcount | fn.cpp:98-112 | the nibble-table computation (low nibbles by mask, high nibbles by the 16-bit shift, two table lookups, lane sums of the two halves) equals the number of set bits of the 128-bit value, `BitCount` |
| Sse.Load | fn.cpp:145-146 | `_mm_loadu_si128` reads the 16 bytes at the offset; its precondition is that they lie inside the string |
| Sse.CmpEq | fn.cpp:147 | `_mm_cmpeq_epi8` gives 0xFF in exactly the lanes whose bytes are equal and 0x00 in the others |
| Sse.MoveMask | fn.cpp:319 | `_mm_movemask_epi8` gives one bit per lane, so the mask of `n` lanes is below `2^n` |
| Sse.MismatchingLanes | fn.cpp:98-112 | `(128 - popcount(_mm_cmpeq_epi8(x, y))) / 8` never wraps and equals the number of lanes in which `x` and `y` differ |
| Scalar.Slow | fn.cpp:129-141 | the `slow` lambda (three identical copies, fn.cpp:129-141, 172-184 and 211-223) accepts exactly `AcceptsRest` of its ranges given the flag, and leaves the flag raised iff it was raised or the two ranges differ within the first `|rb|` bytes |
| Chunked.CountMismatchingLanes | fn.cpp:144-148 | the `count` of a chunk equals the number of differing bytes between the chunk of `rhs` at `i` and the window of `lhs` at `i + off`; it is zero iff the two agree |
| Chunked.OneChange | fn.cpp:115-165 | `oneChange` as written accepts exactly `RealignedAccepts`: the Hamming condition on equal lengths and the realigned scan `RealignedScanAccepts` on lengths one apart |
| Chunked.RealignedFirstChunk | fn.cpp:155-159 | the call to `slow` on the chunk holding the first mismatch, one byte longer on the longer side, accepts iff the shift holds from that mismatch to the chunk's end; when it rejects, the whole scan rejects too |
| Chunked.RealignedChunkRejects | fn.cpp:150-152 | a shifted chunk that differs after the realignment lies before the skipped byte, so rejecting there agrees with `RealignedScanAccepts` |
| Chunked.RealignedTail | fn.cpp:163-164 | after a realignment, `slow` on the tail from the last multiple of 16 (flag set) decides `RealignedScanAccepts` |
| Chunked.OneChangeSameSize | fn.cpp:168-201 | `oneChangeSameSize` accepts iff the equal-length operands differ in at most one byte |
| Chunked.OneChangeDiffSize | fn.cpp:203-242 | `oneChangeDiffSize` as written accepts iff the lengths are one apart and `RealignedScanAccepts` holds |
| Chunked.AlignedTail | fn.cpp:240-241 | with no mismatching chunk, `slow` on the tail from the last multiple of 16 decides `RealignedScanAccepts` |
| Chunked.OneChangeSplit | fn.cpp:245-253 | `oneChangeSplit` accepts exactly `RealignedAccepts`, so it inherits the realignment gap of `oneChangeDiffSize` |
| Chunked.RealignedSound | fn.cpp:115-165 | every pair within one edit is accepted by `oneChange` and `oneChangeSplit`: those two never reject a single edit |
| Chunked.RealignedExactUnlessSkipped | fn.cpp:155-164 | where the realigned scan skips no byte, `oneChange` and `oneChangeSplit` agree with the reference exactly |
| Chunked.SkippedByteAccepted | fn.cpp:155-164 | a concrete pair (`"X"` plus 32 `"a"` against 31 `"a"` plus `"b"`) that the realigning comparators accept although it is not one edit |
| Chunked.FirstMismatchChunk | fn.cpp:155-159 | in the corrected scan, `slow` on the first mismatching chunk accepts iff the shift holds to the chunk's end; on success, the shifted comparison from the next chunk on decides `IsOneEdit` |
| Chunked.OneChangeDiffSizeCorrected | fn.cpp:203-242 | `oneChangeDiffSize` without the `--i` accepts exactly `IsOneEdit` on a longer first operand |
| Chunked.OneChangeCorrected | fn.cpp:115-165 | `oneChange` without the `--i` accepts exactly `IsOneEdit`, in either operand order |
| Scalar.SlowF | fn.cpp:255-307 | `slowF` accepts exactly `AcceptsRest` given the flag passed by reference; the flag it leaves is raised iff it was raised already or the two ranges differ within the first `|rb|` bytes, so it only ever goes from false to true |
| Sse.MoveMaskDetectsMismatch | fn.cpp:318-321 | `_mm_movemask_epi8(_mm_cmpeq_epi8(x, y)) == 0xffff` iff all 16 lanes are equal |
| ChunkedFast.ChunkMask | fn.cpp:316-321 | the mask of the chunk of `rhs` at `i` against `lhs` at `i + off` is `0xffff` iff the two windows agree |
| ChunkedFast.OneChangeSameSizeFast | fn.cpp:310-332 | `oneChangeSameSizeFast` accepts iff the equal-length operands differ in at most one byte |
| ChunkedFast.ShiftedChunks | fn.cpp:344-357 | called with the captured flag raised, as its only caller leaves it, `fnOneError` accepts iff every byte of the shorter string from its starting cursor on matches the next byte of the longer |
| ChunkedFast.OneChangeDiffSizeFast | fn.cpp:335-381 | `oneChangeDiffSizeFast` accepts exactly `IsOneEdit` on a longer first operand (lengths more than one apart are rejected) |
| ChunkedFast.OneChangeFast | fn.cpp:383-391 | `oneChangeFast` accepts exactly `IsOneEdit`, in either operand order |
| EditSpec.OneEditUnderContext | test.cpp:33-49 | wrapping both operands in the same prefix and suffix, as every test case is wrapped, never changes the answer |
| EditSpec.IsOneEditReflexive | test.cpp:58 | every string is accepted against itself |
| EditSpec.SubstitutionAccepted | test.cpp:59 | replacing one byte gives a single edit |
| EditSpec.InsertionAccepted | test.cpp:60-62 | inserting one byte anywhere, ends included, gives a single edit |
| EditSpec.TwoSubstitutionsRejected | test.cpp:69 | two substitutions at different positions are not a single edit |
| Oracle.AcceptedSameLength | test.cpp:58-63 | the accepted equal-length cases ("abc"/"abc", "abc"/"abb", ""/"") are single edits |
| Oracle.AcceptedDeletions | test.cpp:60-66 | the accepted cases whose lengths differ by one are single edits |
| Oracle.AcceptedLongDeletion | test.cpp:67 | nineteen "a" against twenty is a single edit |
| Oracle.RejectedSameLength | test.cpp:69-74 | "abc"/"bbb" and "acb"/"abc" are not single edits |
| Oracle.RejectedOtherLengths | test.cpp:70-73 | "abc"/"bb", "abc"/"cc", "a"/"aaa" and ""/"aa" are not single edits |
| Oracle.RejectedLongSameLength | test.cpp:75 | the long equal-length case with two substitutions is rejected |
| Oracle.RejectedLongDeletion | test.cpp:76 | the long case one byte apart whose shift fails right after the first mismatch is rejected |
| Oracle.RejectedFirstByte | test.cpp:77 | "c" plus nineteen "a" against "b" plus twenty "a" is rejected |

## Left out

- benchmark.cpp is not part of this model. It times the comparators and does I/O.
- The AVX declarations in fn.h have no definition in fn.cpp and are not modelled.
- The gtest harness of test.cpp (fixtures, `EXPECT_EQ`, source locations) is not modelled.
  Its expectations are stated about `IsOneEdit` (module `Oracle`), and every comparator
  proved equal to `IsOneEdit` inherits them. The cases are not replayed against
  `RealignedAccepts`. For `oneChange` and `oneChangeSplit`, `Chunked.RealignedSound` covers
  the accepted cases, and `Chunked.RealignedExactUnlessSkipped` covers the rejected ones
  where no byte is skipped.
- `size_t` wrap-around is not modelled in general; the integers are unbounded. Its two
  deliberate uses are written out:
  - `i -= !oneSize` at `i == 0`, followed by `++i`, becomes a loop turn that does not advance
    the cursor.
  - `--i` followed by `i += 16` becomes `i + 15`.
- Lengths near `SIZE_MAX` are left out; lengths in the model are unbounded.
- The `assert`s at fn.cpp:169, 204, 311 and 336 are preconditions. The behaviour of a build
  with `NDEBUG` on arguments that violate them is left out.
- SSE registers are modelled as sequences of 16 byte lanes. Register types and alignment are
  left out; every load in the source is unaligned, so alignment does not matter.
- In `popcount`, `_mm_sad_epu8` against zero and the two `_mm_extract_epi64` become sums of
  the two halves of eight lanes; 64-bit lane extraction is not modelled separately.
- The three textual copies of the `slow` lambda are modelled once, as `Scalar.Slow`,
  because their bodies are identical.

## Findings

| source | as written | input that shows it | evidently intended | confidence | as-written member | corrected member |
|---|---|---|---|---|---|---|
| fn.cpp:155-156, 163-164 | after `slow` settles the first differing chunk, `--i` makes the shifted chunks start 15 bytes on. The tail scan starts at the last multiple of 16, so when a shifted chunk follows and the tail is under 15 bytes, the byte of the shorter string just before the tail is never compared | `oneChange("X" + 32×"a", 31×"a" + "b")` returns true; the 32nd byte "b" is never compared | accept exactly the single edits, as `oneChangeSlow` does: continue at the next chunk without `--i` | not executed | Chunked.OneChange, Chunked.SkippedByteAccepted | Chunked.OneChangeCorrected |
| fn.cpp:233-234, 240-241 | the same `--i` in `oneChangeDiffSize`, so `oneChangeSplit` inherits the gap | `oneChangeDiffSize("X" + 32×"a", 31×"a" + "b")` returns true | accept exactly the single deletions | not executed | Chunked.OneChangeDiffSize, Chunked.SkippedByteAccepted | Chunked.OneChangeDiffSizeCorrected |
