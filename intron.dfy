/** The fixed intron motif: "GT", then 1 to 10 bases, then "TACTAAC", then
    1 to 10 bases, then "AC". The finder reports the start of the leftmost
    occurrence, which is the least start from which some choice of the two
    gap lengths fits; it does not depend on how a matcher orders its choice
    of gap lengths. */
module Intron {
  import opened Wrappers
  import Scan

  const Donor: string := "GT"
  const Branch: string := "TACTAAC"
  const Acceptor: string := "AC"
  const MinGap: nat := 1
  const MaxGap: nat := 10

  /** One of the four bases A, T, C, G (the character class `[ATCG]`). */
  predicate IsBase(c: char)
  {
    c == 'A' || c == 'T' || c == 'C' || c == 'G'
  }

  predicate AllBases(s: string)
  {
    forall i :: 0 <= i < |s| ==> IsBase(s[i])
  }

  /** The motif laid out from `i` with gap lengths `g1` and `g2`. */
  predicate IntronShape(s: string, i: nat, g1: nat, g2: nat)
  {
    var b := i + 2 + g1;   // start of the branch site
    var a := b + 7 + g2;   // start of the acceptor
    a + 2 <= |s|
    && s[i..i + 2] == Donor
    && AllBases(s[i + 2..b])
    && s[b..b + 7] == Branch
    && AllBases(s[b + 7..a])
    && s[a..a + 2] == Acceptor
  }

  /** Some instance of the motif starts at `i`. */
  predicate IntronAt(s: string, i: nat)
  {
    exists g1: nat, g2: nat | MinGap <= g1 <= MaxGap && MinGap <= g2 <= MaxGap :: IntronShape(s, i, g1, g2)
  }

  /** The shortest instance of the motif has 13 characters. */
  lemma IntronNeedsThirteen(s: string, i: nat)
    requires IntronAt(s, i)
    ensures i + 13 <= |s|
  {
  }

  /** Left-to-right search for the first start at or after `i`. */
  function FindIntronFrom(s: string, i: nat): (r: Option<nat>)
    requires i <= |s|
    ensures r.Some? ==> i <= r.value && IntronAt(s, r.value)
    ensures r.Some? ==> forall j: nat :: i <= j < r.value ==> !IntronAt(s, j)
    ensures r.None? ==> forall j: nat :: i <= j ==> !IntronAt(s, j)
    decreases |s| - i
  {
    if IntronAt(s, i) then Some(i)
    else if i == |s| then None
    else FindIntronFrom(s, i + 1)
  }

  /** The leftmost intron of `s`, or "none". */
  function FindIntron(s: string): (r: Option<nat>)
    ensures r.Some? ==> IntronAt(s, r.value) && forall j: nat :: j < r.value ==> !IntronAt(s, j)
    ensures r.None? <==> forall j: nat :: !IntronAt(s, j)
  {
    FindIntronFrom(s, 0)
  }

  /** A sequence shorter than 13 characters contains no intron. */
  lemma ShortSequenceHasNoIntron(s: string)
    requires |s| < 13
    ensures FindIntron(s) == None
  {
    forall j: nat ensures !IntronAt(s, j) {
      if IntronAt(s, j) { IntronNeedsThirteen(s, j); }
    }
  }

  /** The minimal motif "GTATACTAACGAC", placed anywhere, is an intron at its
      offset; the finder reports that offset unless an earlier one exists. */
  lemma MinimalMotifFound(pre: string, post: string)
    ensures IntronAt(pre + "GTATACTAACGAC" + post, |pre|)
    ensures FindIntron(pre + "GTATACTAACGAC" + post).Some?
    ensures FindIntron(pre + "GTATACTAACGAC" + post).value <= |pre|
    ensures (forall j: nat :: j < |pre| ==> !IntronAt(pre + "GTATACTAACGAC" + post, j)) ==>
            FindIntron(pre + "GTATACTAACGAC" + post) == Some(|pre|)
  {
    var s := pre + "GTATACTAACGAC" + post;
    var i := |pre|;
    assert s[i..i + 13] == "GTATACTAACGAC";
    assert s[i..i + 2] == s[i..i + 13][0..2];
    assert s[i + 2..i + 3] == s[i..i + 13][2..3];
    assert s[i + 3..i + 10] == s[i..i + 13][3..10];
    assert s[i + 10..i + 11] == s[i..i + 13][10..11];
    assert s[i + 11..i + 13] == s[i..i + 13][11..13];
    assert IntronShape(s, i, 1, 1);
  }

  /** Without the branch site "TACTAAC" anywhere there is no intron. */
  lemma NoBranchSiteNoIntron(s: string)
    requires forall b :: !Scan.OccursAt(s, Branch, b)
    ensures FindIntron(s) == None
  {
    forall i: nat, g1: nat, g2: nat
      ensures !IntronShape(s, i, g1, g2)
    {
      assert !Scan.OccursAt(s, Branch, i + 2 + g1);
    }
  }
}
