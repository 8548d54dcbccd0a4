/** The byte-at-a-time comparators of fn.cpp: the reference `oneChangeSlow`, the `slow`
    lambda the chunked versions fall back to, `slowF` and `oneChangeNoSIMDFast`. */
module Scalar {
  import opened EditSpec

  /** `oneChangeSlow`, the reference: after putting the longer operand first it scans once;
      on the first mismatch it spends the single edit, and when the lengths differ it
      compares the same `rhs[i]` against `lhs[i + 1]` from then on. */
  method OneChangeSlow(lhs: Bytes, rhs: Bytes) returns (r: bool)
    ensures r == IsOneEdit(lhs, rhs)
    decreases if |lhs| < |rhs| then 1 else 0
  {
    if |lhs| < |rhs| {
      r := OneChangeSlow(rhs, lhs);
      IsOneEditSymmetric(rhs, lhs);
      return;
    }
    if |lhs| - |rhs| > 1 {
      return false;
    }

    var minSize := |rhs|;
    var oneSize := |lhs| == minSize;
    var oneError := false;
    ghost var k := FirstMismatch(lhs, rhs);
    var i := 0;
    while i != minSize
      invariant i <= minSize
      invariant oneSize ==> Mismatches(lhs[..i], rhs[..i]) == if oneError then 1 else 0
      invariant !oneSize && !oneError ==> i <= k
      invariant !oneSize && oneError ==> k <= i && k < minSize && Agree(lhs, rhs, 1, k, i)
      decreases minSize - i, if oneError then 0 else 1
    {
      if oneSize {
        MismatchesStep(lhs, rhs, i);
      }
      if lhs[i + (if oneError && !oneSize then 1 else 0)] != rhs[i] {
        var wasError := oneError;
        oneError := true;
        if wasError {
          if oneSize {
            MismatchesSplitRest(lhs, rhs, i + 1);
          } else {
            DeletionAtFirstMismatch(lhs, rhs);
          }
          return false;
        }
        if !oneSize {
          // `i -= !oneSize` undoes the loop's `++i` (at i == 0 through the size_t wrap):
          // the same rhs[i] is compared again, against lhs[i + 1].
          continue;
        }
      } else if !oneSize && oneError {
        AgreeExtend(lhs, rhs, 1, k, i);
      }
      i := i + 1;
    }

    if oneSize {
      assert lhs[..minSize] == lhs && rhs[..minSize] == rhs;
    } else {
      DeletionAtFirstMismatch(lhs, rhs);
    }
    return true;
  }

  /** The `slow` lambda of `oneChange`, `oneChangeSameSize` and `oneChangeDiffSize` (three
      identical copies): the reference loop over the views `lb` and `rb`, starting from the
      `oneError` flag it shares by reference with the chunk loop. */
  method Slow(lb: Bytes, rb: Bytes, oneError: bool) returns (ok: bool, oneErrorOut: bool)
    requires |lb| == |rb| || |lb| == |rb| + 1
    ensures ok == AcceptsRest(lb, rb, oneError)
    ensures oneErrorOut == (oneError || !Agree(lb, rb, 0, 0, |rb|))
  {
    var size := |rb|;
    var oneSizeLocal := |rb| == |lb|;
    oneErrorOut := oneError;
    ghost var k := FirstMismatch(lb, rb);
    var i := 0;
    while i != size
      invariant i <= size
      invariant oneSizeLocal ==> Mismatches(lb[..i], rb[..i]) + (if oneError then 1 else 0)
                                 == if oneErrorOut then 1 else 0
      invariant oneSizeLocal ==> oneErrorOut == (oneError || k < i)
      invariant !oneSizeLocal && oneError ==> oneErrorOut && Agree(lb, rb, 1, 0, i)
      invariant !oneSizeLocal && !oneError && !oneErrorOut ==> i <= k
      invariant !oneSizeLocal && !oneError && oneErrorOut ==> k <= i && k < size && Agree(lb, rb, 1, k, i)
      decreases size - i, if oneErrorOut then 0 else 1
    {
      if oneSizeLocal {
        MismatchesStep(lb, rb, i);
      }
      if lb[i + (if oneErrorOut && !oneSizeLocal then 1 else 0)] != rb[i] {
        var wasError := oneErrorOut;
        oneErrorOut := true;
        if wasError {
          if oneSizeLocal {
            MismatchesSplitRest(lb, rb, i + 1);
          } else if !oneError {
            DeletionAtFirstMismatch(lb, rb);
          }
          return false, oneErrorOut;
        }
        if !oneSizeLocal {
          continue;  // `i -= !oneSizeLocal`: retry rb[i] against lb[i + 1]
        }
      } else if !oneSizeLocal && oneErrorOut {
        AgreeExtend(lb, rb, 1, if oneError then 0 else k, i);
      }
      i := i + 1;
    }

    if oneSizeLocal {
      assert lb[..size] == lb && rb[..size] == rb;
    } else if !oneError {
      DeletionAtFirstMismatch(lb, rb);
    }
    return true, oneErrorOut;
  }

  // ---------------------------------------------------------------------------
  // The four lambdas of `oneChangeNoSIMDFast`, repeated verbatim inside `slowF`. They share
  // the cursor `i` and the flag `oneError` by capture; here the cursor they start from is
  // the parameter `i0` and the flag they leave behind is returned.

  /** `fnOneSizeOneError`: the edit is spent; every byte from `i0` on must match. */
  method SameSizeOneError(lb: Bytes, rb: Bytes, i0: nat) returns (ok: bool)
    requires |lb| == |rb| && i0 <= |rb|
    ensures ok == Agree(lb, rb, 0, i0, |rb|)
  {
    var i := i0;
    while i != |rb|
      invariant i0 <= i <= |rb|
      invariant Agree(lb, rb, 0, i0, i)
    {
      if lb[i] != rb[i] {
        return false;
      }
      i := i + 1;
    }
    return true;
  }

  /** `fnOneSizeNoError`: the first mismatch from `i0` on spends the edit (it raises the
      flag) and hands the rest of the scan to `fnOneSizeOneError`. */
  method SameSizeNoError(lb: Bytes, rb: Bytes, i0: nat, oneError: bool) returns (ok: bool, oneErrorOut: bool)
    requires |lb| == |rb| && i0 <= |rb|
    ensures ok == (Mismatches(lb[i0..], rb[i0..]) <= 1)
    ensures oneErrorOut == (oneError || !Agree(lb, rb, 0, i0, |rb|))
  {
    var i := i0;
    while i != |rb|
      invariant i0 <= i <= |rb|
      invariant Agree(lb, rb, 0, i0, i)
    {
      if lb[i] != rb[i] {
        oneErrorOut := true;
        ok := SameSizeOneError(lb, rb, i + 1);
        MismatchesAfterFirst(lb, rb, i0, i);
        MismatchesZero(lb[i + 1..], rb[i + 1..]);
        return;
      }
      i := i + 1;
    }
    MismatchesZero(lb[i0..], rb[i0..]);
    return true, oneError;
  }

  /** The mismatches from `lo` on, when `i` is the first of them. */
  lemma MismatchesAfterFirst(a: Bytes, b: Bytes, lo: nat, i: nat)
    requires |a| == |b| && lo <= i < |a|
    requires Agree(a, b, 0, lo, i) && a[i] != b[i]
    ensures Mismatches(a[lo..], b[lo..]) == 1 + Mismatches(a[i + 1..], b[i + 1..])
    ensures Agree(a, b, 0, i + 1, |b|) <==> a[i + 1..] == b[i + 1..]
  {
    var a', b' := a[lo..], b[lo..];
    var m := i - lo;
    MismatchesSplitRest(a', b', m + 1);
    MismatchesStep(a', b', m);
    assert a'[..m] == b'[..m];
    MismatchesZero(a'[..m], b'[..m]);
    assert a'[m + 1..] == a[i + 1..] && b'[m + 1..] == b[i + 1..];
    AgreeSuffix(a, b, i + 1);
  }

  /** Agreement from `lo` to the end is equality of the suffixes. */
  lemma AgreeSuffix(a: Bytes, b: Bytes, lo: nat)
    requires |a| == |b| && lo <= |b|
    ensures Agree(a, b, 0, lo, |b|) <==> a[lo..] == b[lo..]
  {
    var ta, tb := a[lo..], b[lo..];
    if Agree(a, b, 0, lo, |b|) {
      forall j | 0 <= j < |tb| ensures ta[j] == tb[j] {
        assert a[j + lo + 0] == b[j + lo];
      }
    }
    if ta == tb {
      forall j | lo <= j < |b| ensures a[j + 0] == b[j] {
        assert ta[j - lo] == tb[j - lo];
      }
    }
  }

  /** `fnDiffSizeOneError`: the shift is taken; from `i0` on every `rb[i]` must match `lb[i + 1]`. */
  method DiffSizeOneError(lb: Bytes, rb: Bytes, i0: nat) returns (ok: bool)
    requires |lb| == |rb| + 1 && i0 <= |rb|
    ensures ok == Agree(lb, rb, 1, i0, |rb|)
  {
    var i := i0;
    while i != |rb|
      invariant i0 <= i <= |rb|
      invariant Agree(lb, rb, 1, i0, i)
    {
      if lb[i + 1] != rb[i] {
        return false;
      }
      i := i + 1;
    }
    return true;
  }

  /** `fnDiffSizeNoError`: the first mismatch from `i0` on raises the flag and the shifted
      scan `fnDiffSizeOneError` resumes at that same position. */
  method DiffSizeNoError(lb: Bytes, rb: Bytes, i0: nat, oneError: bool) returns (ok: bool, oneErrorOut: bool)
    requires |lb| == |rb| + 1 && i0 <= |rb|
    ensures ok == DeletesTo(lb[i0..], rb[i0..])
    ensures oneErrorOut == (oneError || !Agree(lb, rb, 0, i0, |rb|))
  {
    var i := i0;
    while i != |rb|
      invariant i0 <= i <= |rb|
      invariant Agree(lb, rb, 0, i0, i)
    {
      if lb[i] != rb[i] {
        oneErrorOut := true;
        ok := DiffSizeOneError(lb, rb, i);
        DeletionInSuffix(lb, rb, i0, i);
        return;
      }
      i := i + 1;
    }
    DeletionInSuffix(lb, rb, i0, |rb|);
    return true, oneError;
  }

  /** `slowF`: the `slow` lambda restated as the four chained loops; `oneError` is passed by
      reference, so the flag it leaves behind is returned. */
  method SlowF(oneError: bool, lb: Bytes, rb: Bytes) returns (ok: bool, oneErrorOut: bool)
    requires |lb| == |rb| || |lb| == |rb| + 1
    ensures ok == AcceptsRest(lb, rb, oneError)
    ensures oneErrorOut == (oneError || !Agree(lb, rb, 0, 0, |rb|))
  {
    var oneSizeLocal := |rb| == |lb|;
    var i := 0;
    assert lb[i..] == lb && rb[i..] == rb;
    if oneSizeLocal {
      if oneError {
        ok := SameSizeOneError(lb, rb, i);
        MismatchesZero(lb, rb);
        oneErrorOut := oneError;
      } else {
        ok, oneErrorOut := SameSizeNoError(lb, rb, i, oneError);
      }
    } else {
      if oneError {
        ok := DiffSizeOneError(lb, rb, i);
        oneErrorOut := oneError;
      } else {
        ok, oneErrorOut := DiffSizeNoError(lb, rb, i, oneError);
      }
    }
  }

  /** `oneChangeNoSIMDFast`: put the longer view first (on equal lengths, `rhs`), reject a
      length gap above one, and run the chained scan of the right kind from cursor 0. */
  method OneChangeNoSimdFast(lhs: Bytes, rhs: Bytes) returns (r: bool)
    ensures r == IsOneEdit(lhs, rhs)
  {
    var lb, rb;
    if |lhs| > |rhs| {
      if |lhs| - |rhs| > 1 {
        return false;
      }
      lb, rb := lhs, rhs;
    } else {
      if |rhs| - |lhs| > 1 {
        return false;
      }
      lb, rb := rhs, lhs;
    }
    IsOneEditSymmetric(lhs, rhs);

    var oneSizeLocal := |rb| == |lb|;
    var i := 0;
    var oneError := false;
    assert lb[i..] == lb && rb[i..] == rb;
    if oneSizeLocal {
      r, oneError := SameSizeNoError(lb, rb, i, oneError);
    } else {
      r, oneError := DiffSizeNoError(lb, rb, i, oneError);
    }
  }
}
