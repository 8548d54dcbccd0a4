/** The expectations of test.cpp, stated about the reference predicate `IsOneEdit`. Every
    comparator proved equal to `IsOneEdit` inherits them; the wrapping of each case in a
    common prefix and suffix is `OneEditUnderContext`. */
module Oracle {
  import opened EditSpec

  // The letters the cases are written in.
  const a: Byte := 0x61
  const b: Byte := 0x62
  const c: Byte := 0x63
  const d: Byte := 0x64
  const e: Byte := 0x65

  /** `n` copies of the byte `x`. */
  function Rep(n: nat, x: Byte): (s: Bytes)
    ensures |s| == n && forall j :: 0 <= j < n ==> s[j] == x
  {
    seq(n, _ => x)
  }

  /** The accepted pairs that have equal lengths. */
  lemma AcceptedSameLength()
    ensures IsOneEdit([a, b, c], [a, b, c])
    ensures IsOneEdit([a, b, c], [a, b, b])
    ensures IsOneEdit([], [])
  {
    IsOneEditReflexive([a, b, c]);
    IsOneEditReflexive([]);
    assert [a, b, b] == [a, b, c][2 := b];
    SubstitutionAccepted([a, b, c], 2, b);
  }

  /** The accepted pairs whose lengths differ by one: a witness deletion for each. */
  lemma AcceptedDeletions()
    ensures IsOneEdit([a, b, e, c, d], [a, b, c, d])
    ensures IsOneEdit([a, b, c, d], [a, b, c])
    ensures IsOneEdit([a, b, c], [a, b, c, d])
    ensures IsOneEdit([], [a])
    ensures IsOneEdit([a], [])
    ensures IsOneEdit([a, b, c], [b, c])
  {
    var x: Bytes := [a, b, e, c, d];
    assert Delete(x, 2) == [a, b, c, d];
    var y: Bytes := [a, b, c, d];
    assert Delete(y, 3) == [a, b, c];
    var z: Bytes := [a];
    assert Delete(z, 0) == [];
    var w: Bytes := [a, b, c];
    assert Delete(w, 0) == [b, c];
  }

  /** Nineteen "a" against twenty: deleting any one of the twenty leaves the nineteen. */
  lemma AcceptedLongDeletion()
    ensures IsOneEdit(Rep(19, a), Rep(19, a) + [a])
  {
    var x := Rep(19, a) + [a];
    assert Delete(x, 19) == Rep(19, a);
  }

  /** The rejected pairs of equal length: two substitutions apart. */
  lemma RejectedSameLength()
    ensures !IsOneEdit([a, b, c], [b, b, b])
    ensures !IsOneEdit([a, c, b], [a, b, c])
  {
    assert [b, b, b] == [a, b, c][0 := b][2 := b];
    TwoSubstitutionsRejected([a, b, c], 0, 2, b, b);
    assert [a, b, c] == [a, c, b][1 := b][2 := c];
    TwoSubstitutionsRejected([a, c, b], 1, 2, b, c);
  }

  /** "abc", nineteen "a", "abb" against "abb", nineteen "a", "abc": two substitutions. */
  lemma RejectedLongSameLength()
    ensures !IsOneEdit([a, b, c] + Rep(19, a) + [a, b, b], [a, b, b] + Rep(19, a) + [a, b, c])
  {
    var x := [a, b, c] + Rep(19, a) + [a, b, b];
    assert [a, b, b] + Rep(19, a) + [a, b, c] == x[2 := b][24 := c];
    TwoSubstitutionsRejected(x, 2, 24, b, c);
  }

  /** The rejected pairs whose lengths differ: no deletion works past the first mismatch,
      or the lengths are too far apart. */
  lemma RejectedOtherLengths()
    ensures !IsOneEdit([a, b, c], [b, b])
    ensures !IsOneEdit([a, b, c], [c, c])
    ensures !IsOneEdit([a], [a, a, a])
    ensures !IsOneEdit([], [a, a])
  {
    var x: Bytes := [a, b, c];
    assert FirstMismatch(x, [b, b]) == 0 && x[2] != [b, b][1];
    DeletionAtFirstMismatch(x, [b, b]);
    assert FirstMismatch(x, [c, c]) == 0 && x[1] != [c, c][0];
    DeletionAtFirstMismatch(x, [c, c]);
    LengthGapRejected([a], [a, a, a]);
    LengthGapRejected([], [a, a]);
  }

  /** "abc", nineteen "a", "ab" against "abb", nineteen "a", "abc": after the first mismatch
      at index 2 the shifted bytes disagree at once. */
  lemma RejectedLongDeletion()
    ensures !IsOneEdit([a, b, c] + Rep(19, a) + [a, b], [a, b, b] + Rep(19, a) + [a, b, c])
  {
    var long, short := [a, b, b] + Rep(19, a) + [a, b, c], [a, b, c] + Rep(19, a) + [a, b];
    FirstMismatchUnique(long, short, 2);
    assert long[2 + 1] != short[2];
    DeletionAtFirstMismatch(long, short);
  }

  /** "c" and nineteen "a" against "b" and twenty "a": the first bytes differ, and the
      shifted comparison fails at once. */
  lemma RejectedFirstByte()
    ensures !IsOneEdit([c] + Rep(19, a), [b] + Rep(19, a) + [a])
  {
    var long, short := [b] + Rep(19, a) + [a], [c] + Rep(19, a);
    assert FirstMismatch(long, short) == 0 && long[1] != short[0];
    DeletionAtFirstMismatch(long, short);
  }
}
