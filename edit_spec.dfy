/** What every comparator in fn.cpp decides: two byte strings are equal, differ in
    exactly one byte, or one is the other with a single byte inserted. */
module EditSpec {

  /** A byte of a `std::string_view`. */
  type Byte = bv8
  type Bytes = seq<Byte>

  /** The window `[lo, hi)` of `b` matches `a` read `off` bytes further on. */
  ghost predicate Agree(a: Bytes, b: Bytes, off: nat, lo: nat, hi: nat)
    requires hi <= |b| && hi + off <= |a|
  {
    forall j {:trigger b[j]} :: lo <= j < hi ==> a[j + off] == b[j]
  }

  /** The first index at which `a` and `b` differ, or `|b|` when `b` is a prefix of `a`. */
  function FirstMismatch(a: Bytes, b: Bytes): (k: nat)
    requires |b| <= |a|
    ensures k <= |b|
    ensures forall j {:trigger b[j]} :: 0 <= j < k ==> a[j] == b[j]
    ensures k < |b| ==> a[k] != b[k]
  {
    if |b| == 0 || a[0] != b[0] then 0
    else 1 + FirstMismatch(a[1..], b[1..])
  }

  /** The number of positions at which two strings of the same length differ. */
  function Mismatches(a: Bytes, b: Bytes): (n: nat)
    requires |a| == |b|
  {
    if |a| == 0 then 0
    else Mismatches(a[..|a| - 1], b[..|b| - 1]) + (if a[|a| - 1] != b[|b| - 1] then 1 else 0)
  }

  /** `s` without its byte at index `k`. */
  function Delete(s: Bytes, k: nat): (r: Bytes)
    requires k < |s|
    ensures |r| == |s| - 1
    ensures forall j :: 0 <= j < k ==> r[j] == s[j]
    ensures forall j :: k <= j < |r| ==> r[j] == s[j + 1]
  {
    s[..k] + s[k + 1..]
  }

  /** Deleting one byte of `long` gives `short`. */
  ghost predicate DeletesTo(long: Bytes, short: Bytes)
  {
    && |long| == |short| + 1
    && exists k :: 0 <= k < |long| && Delete(long, k) == short
  }

  /** At most one substitution, insertion or deletion turns `a` into `b`. */
  ghost predicate IsOneEdit(a: Bytes, b: Bytes)
  {
    if |a| == |b| then Mismatches(a, b) <= 1
    else DeletesTo(a, b) || DeletesTo(b, a)
  }

  /** What a scan of the remainders `lb` (the not-shorter side) and `rb` must accept when
      `consumed` says whether the single edit was already spent on the bytes before them
      (for remainders whose lengths differ, that the extra byte of `lb` lies before them). */
  ghost predicate AcceptsRest(lb: Bytes, rb: Bytes, consumed: bool)
    requires |lb| == |rb| || |lb| == |rb| + 1
  {
    if |lb| == |rb| then Mismatches(lb, rb) <= (if consumed then 0 else 1)
    else if consumed then Agree(lb, rb, 1, 0, |rb|)
    else DeletesTo(lb, rb)
  }

  // ---------------------------------------------------------------------------
  // Counting mismatches

  lemma {:induction false} MismatchesAppend(a1: Bytes, b1: Bytes, a2: Bytes, b2: Bytes)
    requires |a1| == |b1| && |a2| == |b2|
    ensures Mismatches(a1 + a2, b1 + b2) == Mismatches(a1, b1) + Mismatches(a2, b2)
    decreases |a2|
  {
    if |a2| == 0 {
      assert a1 + a2 == a1 && b1 + b2 == b1;
    } else {
      var a, b, n := a1 + a2, b1 + b2, |a2| - 1;
      assert a[..|a| - 1] == a1 + a2[..n];
      assert b[..|b| - 1] == b1 + b2[..n];
      MismatchesAppend(a1, b1, a2[..n], b2[..n]);
    }
  }

  /** No mismatching position means the strings are equal. */
  lemma {:induction false} MismatchesZero(a: Bytes, b: Bytes)
    requires |a| == |b|
    ensures Mismatches(a, b) == 0 <==> a == b
    decreases |a|
  {
    if |a| > 0 {
      var n := |a| - 1;
      MismatchesZero(a[..n], b[..n]);
      assert a == a[..n] + [a[n]] && b == b[..n] + [b[n]];
    }
  }

  lemma {:induction false} MismatchesSymmetric(a: Bytes, b: Bytes)
    requires |a| == |b|
    ensures Mismatches(a, b) == Mismatches(b, a)
    decreases |a|
  {
    if |a| > 0 {
      MismatchesSymmetric(a[..|a| - 1], b[..|b| - 1]);
    }
  }

  /** One more position of a prefix adds one mismatch exactly when its bytes differ. */
  lemma MismatchesStep(a: Bytes, b: Bytes, i: nat)
    requires |a| == |b| && i < |a|
    ensures Mismatches(a[..i + 1], b[..i + 1]) == Mismatches(a[..i], b[..i]) + (if a[i] != b[i] then 1 else 0)
  {
    assert a[..i + 1][..i] == a[..i] && b[..i + 1][..i] == b[..i];
  }

  /** The mismatches of `[0, h)` are those of `[0, p)` plus those of `[p, h)`. */
  lemma MismatchesSplit(a: Bytes, b: Bytes, p: nat, h: nat)
    requires |a| == |b| && p <= h <= |a|
    ensures Mismatches(a[..h], b[..h]) == Mismatches(a[..p], b[..p]) + Mismatches(a[p..h], b[p..h])
  {
    assert a[..h] == a[..p] + a[p..h] && b[..h] == b[..p] + b[p..h];
    MismatchesAppend(a[..p], b[..p], a[p..h], b[p..h]);
  }

  /** The mismatches of a whole string are those of `[0, p)` plus those of the rest. */
  lemma MismatchesSplitRest(a: Bytes, b: Bytes, p: nat)
    requires |a| == |b| && p <= |a|
    ensures Mismatches(a, b) == Mismatches(a[..p], b[..p]) + Mismatches(a[p..], b[p..])
  {
    assert a == a[..p] + a[p..] && b == b[..p] + b[p..];
    MismatchesAppend(a[..p], b[..p], a[p..], b[p..]);
  }

  /** Two mismatching positions make at least two mismatches. */
  lemma MismatchesAtLeastTwo(a: Bytes, b: Bytes, p: nat, q: nat)
    requires |a| == |b| && p < q < |a|
    requires a[p] != b[p] && a[q] != b[q]
    ensures Mismatches(a, b) >= 2
  {
    MismatchesZero(a[..q], b[..q]);
    assert a[..q][p] != b[..q][p];
    MismatchesStep(a, b, q);
    MismatchesSplitRest(a, b, q + 1);
  }

  // ---------------------------------------------------------------------------
  // Where the deleted byte can be taken

  /** `FirstMismatch` is determined by its postcondition. */
  lemma FirstMismatchUnique(a: Bytes, b: Bytes, k: nat)
    requires |b| <= |a| && k <= |b|
    requires Agree(a, b, 0, 0, k)
    requires k < |b| ==> a[k] != b[k]
    ensures FirstMismatch(a, b) == k
  {
    var m := FirstMismatch(a, b);
  }

  /** A deletion turns `a` into `b` exactly when the one at their first mismatch does:
      taking the shift at the first differing byte loses nothing. */
  lemma DeletionAtFirstMismatch(a: Bytes, b: Bytes)
    requires |a| == |b| + 1
    ensures DeletesTo(a, b) <==> Agree(a, b, 1, FirstMismatch(a, b), |b|)
  {
    var k := FirstMismatch(a, b);
    if Agree(a, b, 1, k, |b|) {
      var c := Delete(a, k);
      assert forall j | 0 <= j < |b| :: c[j] == b[j];
      assert c == b;
    }
    if DeletesTo(a, b) {
      var p :| 0 <= p < |a| && Delete(a, p) == b;
      assert forall j | 0 <= j < p :: a[j] == b[j];
      assert forall j | p <= j < |b| :: a[j + 1] == b[j];
    }
  }

  /** The window form used once the scan reaches `p` with no mismatch left of `k`:
      deleting one byte of `a[p..h+1]` gives `b[p..h]` exactly when every byte of
      `b` in `[k, h)` matches the next byte of `a`. */
  lemma DeletionInWindow(a: Bytes, b: Bytes, p: nat, h: nat, k: nat)
    requires p <= k <= h <= |b| && h + 1 <= |a|
    requires Agree(a, b, 0, p, k)
    requires k < h ==> a[k] != b[k]
    ensures DeletesTo(a[p..h + 1], b[p..h]) <==> Agree(a, b, 1, k, h)
  {
    var a', b' := a[p..h + 1], b[p..h];
    forall j | 0 <= j < k - p ensures a'[j + 0] == b'[j] {
      assert a'[j] == a[p + j] && b'[j] == b[p + j];
    }
    FirstMismatchUnique(a', b', k - p);
    DeletionAtFirstMismatch(a', b');
    if Agree(a, b, 1, k, h) {
      forall j | k - p <= j < |b'| ensures a'[j + 1] == b'[j] {
        assert a'[j + 1] == a[p + j + 1] && b'[j] == b[p + j];
      }
    }
    if Agree(a', b', 1, k - p, |b'|) {
      forall j | k <= j < h ensures a[j + 1] == b[j] {
        assert a'[j - p + 1] == b'[j - p];
      }
    }
  }

  /** `DeletionInWindow` for a window that runs to the end of both strings. */
  lemma DeletionInSuffix(a: Bytes, b: Bytes, p: nat, k: nat)
    requires |a| == |b| + 1 && p <= k <= |b|
    requires Agree(a, b, 0, p, k)
    requires k < |b| ==> a[k] != b[k]
    ensures DeletesTo(a[p..], b[p..]) <==> Agree(a, b, 1, k, |b|)
  {
    assert a[p..] == a[p..|b| + 1] && b[p..] == b[p..|b|];
    DeletionInWindow(a, b, p, |b|, k);
  }

  /** One more matching byte extends an agreement. */
  lemma AgreeExtend(a: Bytes, b: Bytes, off: nat, lo: nat, hi: nat)
    requires lo <= hi < |b| && hi + 1 + off <= |a|
    requires Agree(a, b, off, lo, hi) && a[hi + off] == b[hi]
    ensures Agree(a, b, off, lo, hi + 1)
  {
  }

  /** Agreement on a window is equality of the two slices it compares. */
  lemma AgreeWindow(a: Bytes, b: Bytes, off: nat, lo: nat, hi: nat)
    requires lo <= hi <= |b| && hi + off <= |a|
    ensures a[lo + off..hi + off] == b[lo..hi] <==> Agree(a, b, off, lo, hi)
  {
    var x, y := a[lo + off..hi + off], b[lo..hi];
    if Agree(a, b, off, lo, hi) {
      forall j | 0 <= j < |y| ensures x[j] == y[j] {
        assert a[(j + lo) + off] == b[j + lo];
      }
    }
    if x == y {
      forall j | lo <= j < hi ensures a[j + off] == b[j] {
        assert x[j - lo] == y[j - lo];
      }
    }
  }

  // ---------------------------------------------------------------------------
  // Properties of the specification

  /** Swapping the operands never changes the answer. */
  lemma IsOneEditSymmetric(a: Bytes, b: Bytes)
    ensures IsOneEdit(a, b) == IsOneEdit(b, a)
  {
    if |a| == |b| {
      MismatchesSymmetric(a, b);
    }
  }

  /** Every string is within one edit of itself. */
  lemma IsOneEditReflexive(a: Bytes)
    ensures IsOneEdit(a, a)
  {
    MismatchesZero(a, a);
  }

  /** Lengths more than one apart are never one edit apart. */
  lemma LengthGapRejected(a: Bytes, b: Bytes)
    requires |a| > |b| + 1 || |b| > |a| + 1
    ensures !IsOneEdit(a, b)
  {
  }

  /** Replacing one byte is a single edit. */
  lemma SubstitutionAccepted(a: Bytes, p: nat, c: Byte)
    requires p < |a|
    ensures IsOneEdit(a, a[p := c])
  {
    var b := a[p := c];
    MismatchesSplitRest(a, b, p);
    MismatchesZero(a[..p], b[..p]);
    assert a[p..] == [a[p]] + a[p + 1..] && b[p..] == [c] + a[p + 1..];
    MismatchesAppend([a[p]], [c], a[p + 1..], a[p + 1..]);
    MismatchesZero(a[p + 1..], a[p + 1..]);
    assert [a[p]][..0] == [] && [c][..0] == [];
  }

  /** Inserting one byte anywhere, including both ends, is a single edit. */
  lemma InsertionAccepted(a: Bytes, p: nat, c: Byte)
    requires p <= |a|
    ensures IsOneEdit(a, a[..p] + [c] + a[p..])
  {
    var b := a[..p] + [c] + a[p..];
    assert Delete(b, p) == a;
    assert DeletesTo(b, a);
  }

  /** Two substitutions at different positions are more than one edit. */
  lemma TwoSubstitutionsRejected(a: Bytes, p: nat, q: nat, c: Byte, d: Byte)
    requires p < q < |a| && c != a[p] && d != a[q]
    ensures !IsOneEdit(a, a[p := c][q := d])
  {
    MismatchesAtLeastTwo(a, a[p := c][q := d], p, q);
  }

  /** A deletion inside `a` is still one inside the wrapped string. */
  lemma DeletesToIntoContext(p: Bytes, a: Bytes, b: Bytes, s: Bytes)
    requires DeletesTo(a, b)
    ensures DeletesTo(p + a + s, p + b + s)
  {
    var k :| 0 <= k < |a| && Delete(a, k) == b;
    var A := p + a + s;
    assert Delete(A, |p| + k) == p + b + s;
  }

  /** A deletion in the wrapped string can be taken inside `a`. */
  lemma DeletesToFromContext(p: Bytes, a: Bytes, b: Bytes, s: Bytes)
    requires |a| == |b| + 1
    requires DeletesTo(p + a + s, p + b + s)
    ensures DeletesTo(a, b)
  {
    var A, B := p + a + s, p + b + s;
    var k := FirstMismatch(a, b);
    DeletionAtFirstMismatch(a, b);
    if k < |b| {
      DeletionAtFirstMismatch(A, B);
      forall j | 0 <= j < |p| + k ensures A[j] == B[j] {
        if j >= |p| {
          assert A[j] == a[j - |p|] && B[j] == b[j - |p|];
        }
      }
      assert A[|p| + k] == a[k] && B[|p| + k] == b[k];
      FirstMismatchUnique(A, B, |p| + k);
      forall j | k <= j < |b| ensures a[j + 1] == b[j] {
        assert A[|p| + j + 1] == a[j + 1] && B[|p| + j] == b[j];
      }
    }
  }

  /** Wrapping both operands in the same prefix and suffix never changes the answer. */
  lemma OneEditUnderContext(p: Bytes, a: Bytes, b: Bytes, s: Bytes)
    ensures IsOneEdit(p + a + s, p + b + s) == IsOneEdit(a, b)
  {
    if |a| == |b| {
      MismatchesAppend(p, p, a, b);
      MismatchesAppend(p + a, p + b, s, s);
      MismatchesZero(p, p);
      MismatchesZero(s, s);
    } else if |a| == |b| + 1 {
      if DeletesTo(a, b) {
        DeletesToIntoContext(p, a, b, s);
      }
      if DeletesTo(p + a + s, p + b + s) {
        DeletesToFromContext(p, a, b, s);
      }
    } else if |b| == |a| + 1 {
      if DeletesTo(b, a) {
        DeletesToIntoContext(p, b, a, s);
      }
      if DeletesTo(p + b + s, p + a + s) {
        DeletesToFromContext(p, b, a, s);
      }
    }
  }
}
