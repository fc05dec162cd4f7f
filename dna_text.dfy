/** Character-level operations on DNA text: ASCII upper-casing, which the
    analysis applies to its inputs once, and the position-wise mismatch count
    (Hamming distance over the common prefix of two strings). */
module DnaText {

  /** ASCII upper-casing of one character; every other character is kept. */
  function UpperChar(c: char): char
  {
    if IsLower(c) then UpperOf(c) else c
  }

  predicate IsLower(c: char)
  {
    'a' <= c <= 'z'
  }

  /** The upper-case ASCII letter of a lower-case one. */
  function UpperOf(c: char): char
    requires IsLower(c)
  {
    (c as int - 32) as char
  }

  lemma UpperCharNotLower(c: char)
    ensures !IsLower(UpperChar(c))
  {
  }

  /** ASCII upper-casing of a whole string, character by character. */
  function Upper(s: string): (r: string)
    ensures |r| == |s|
    ensures forall i :: 0 <= i < |s| ==> r[i] == UpperChar(s[i])
  {
    if s == [] then [] else [UpperChar(s[0])] + Upper(s[1..])
  }

  /** Two characters are equal, or are the lower- and upper-case forms of
      the same ASCII letter. */
  predicate SameLetterUpToCase(x: char, y: char)
  {
    x == y || (IsLower(x) && y == UpperOf(x)) || (IsLower(y) && x == UpperOf(y))
  }

  /** Two strings are case variants of each other: same length, and at every
      position the same character or the two cases of one ASCII letter. */
  ghost predicate SameUpToCase(a: string, b: string)
  {
    |a| == |b| && forall i :: 0 <= i < |a| ==> SameLetterUpToCase(a[i], b[i])
  }

  /** Upper-casing makes two characters equal exactly when they differ at
      most in ASCII letter case. */
  lemma UpperCharEqualIff(x: char, y: char)
    ensures UpperChar(x) == UpperChar(y) <==> SameLetterUpToCase(x, y)
  {
    if IsLower(x) && IsLower(y) {
      assert UpperChar(x) == UpperOf(x) && UpperChar(y) == UpperOf(y);
      assert UpperOf(x) == UpperOf(y) ==> x == y;
    } else if IsLower(x) {
      assert UpperChar(x) == UpperOf(x) && UpperChar(y) == y;
    } else if IsLower(y) {
      assert UpperChar(y) == UpperOf(y) && UpperChar(x) == x;
    }
  }

  /** Upper-casing erases exactly the ASCII letter-case differences between
      two strings. */
  lemma UpperEqualIffSameUpToCase(a: string, b: string)
    ensures Upper(a) == Upper(b) <==> SameUpToCase(a, b)
  {
    forall i | 0 <= i < |a| && i < |b|
      ensures UpperChar(a[i]) == UpperChar(b[i]) <==> SameLetterUpToCase(a[i], b[i])
    {
      UpperCharEqualIff(a[i], b[i]);
    }
    if SameUpToCase(a, b) {
      assert forall i :: 0 <= i < |a| ==> Upper(a)[i] == Upper(b)[i];
    }
    if Upper(a) == Upper(b) {
      assert forall i :: 0 <= i < |a| ==> UpperChar(a[i]) == Upper(a)[i] == Upper(b)[i] == UpperChar(b[i]);
    }
  }

  /** An upper-cased string contains no lower-case letter, and upper-casing
      it again changes nothing. */
  lemma UpperNormalizes(s: string)
    ensures forall i :: 0 <= i < |Upper(s)| ==> !IsLower(Upper(s)[i])
    ensures Upper(Upper(s)) == Upper(s)
  {
    assert forall i :: 0 <= i < |s| ==> Upper(Upper(s))[i] == Upper(s)[i];
  }

  /** Number of positions at which `a` and `b` differ, counted over the
      shorter of the two (a zip stops at the shorter string). */
  function Mismatches(a: string, b: string): (d: nat)
    ensures d <= |a| && d <= |b|
  {
    if a == [] || b == [] then 0
    else (if a[0] != b[0] then 1 else 0) + Mismatches(a[1..], b[1..])
  }

  /** The positions where two strings differ, over their common length. */
  ghost function DiffPositions(a: string, b: string): set<int>
  {
    set i | 0 <= i < |a| && i < |b| && a[i] != b[i]
  }

  /** Appending one more pair of characters adds one mismatch exactly when
      they differ. */
  lemma {:induction false} MismatchesSnoc(a: string, b: string, x: char, y: char)
    requires |a| == |b|
    ensures Mismatches(a + [x], b + [y]) == Mismatches(a, b) + (if x != y then 1 else 0)
  {
    if a != [] {
      assert (a + [x])[1..] == a[1..] + [x] && (b + [y])[1..] == b[1..] + [y];
      MismatchesSnoc(a[1..], b[1..], x, y);
    }
  }

  /** Only the common prefix of the two strings is compared. */
  lemma {:induction false} MismatchesTruncate(a: string, b: string)
    ensures var m := if |a| < |b| then |a| else |b|;
            Mismatches(a, b) == Mismatches(a[..m], b[..m])
  {
    var m := if |a| < |b| then |a| else |b|;
    if a != [] && b != [] {
      MismatchesTruncate(a[1..], b[1..]);
      assert a[..m][1..] == a[1..][..m - 1] && b[..m][1..] == b[1..][..m - 1];
    }
  }

  lemma {:induction false} MismatchesIsDiffCountEqualLength(a: string, b: string)
    requires |a| == |b|
    ensures Mismatches(a, b) == |DiffPositions(a, b)|
    decreases |a|
  {
    if a == [] {
      assert DiffPositions(a, b) == {};
    } else {
      var n := |a| - 1;
      var a', b' := a[..n], b[..n];
      assert a == a' + [a[n]] && b == b' + [b[n]];
      MismatchesSnoc(a', b', a[n], b[n]);
      MismatchesIsDiffCountEqualLength(a', b');
      var last: set<int> := if a[n] != b[n] then {n} else {};
      assert DiffPositions(a, b) == DiffPositions(a', b') + last;
      assert n !in DiffPositions(a', b');
    }
  }

  /** The recursive mismatch count is the Hamming distance: the number of
      differing positions over the common length. */
  lemma MismatchesIsDiffCount(a: string, b: string)
    ensures Mismatches(a, b) == |DiffPositions(a, b)|
  {
    var m := if |a| < |b| then |a| else |b|;
    MismatchesTruncate(a, b);
    MismatchesIsDiffCountEqualLength(a[..m], b[..m]);
    assert DiffPositions(a, b) == DiffPositions(a[..m], b[..m]);
  }

  /** Zero mismatches between strings of equal length means equality. */
  lemma {:induction false} MismatchesZeroIff(a: string, b: string)
    requires |a| == |b|
    ensures Mismatches(a, b) == 0 <==> a == b
  {
    if a != [] {
      MismatchesZeroIff(a[1..], b[1..]);
      if a[0] == b[0] && a[1..] == b[1..] {
        assert a == [a[0]] + a[1..] && b == [b[0]] + b[1..];
      }
    }
  }
}
