/** Window scans over a sequence: the specification of the approximate
    matcher, the exact occurrence finder and the k-mer counter. A window is
    a substring `s[i..i + L]` that lies wholly inside `s`; a scan visits the
    starts 0, 1, … in order, one step at a time, so windows may overlap. */
module Scan {
  import opened Wrappers
  import opened DnaText

  /** Number of windows of length `len` in a string of length `n`: the
      length of Python's `range(n - len + 1)`, which is empty when
      `len > n`. */
  function WindowCount(n: nat, len: nat): nat
  {
    if len <= n then n - len + 1 else 0
  }

  /** `w` occurs at start `i` of `s`. */
  predicate OccursAt(s: string, w: string, i: int)
  {
    0 <= i && i + |w| <= |s| && s[i..i + |w|] == w
  }

  /** The window of `s` at `i` of the pattern's length is within `t`
      mismatches of the pattern `p`. */
  predicate ApproxAt(s: string, p: string, t: int, i: int)
  {
    0 <= i && i + |p| <= |s| && Mismatches(s[i..i + |p|], p) <= t
  }

  /** Strictly ascending positions. */
  predicate Ascending(xs: seq<nat>)
  {
    forall a, b :: 0 <= a < b < |xs| ==> xs[a] < xs[b]
  }

  /** An empty list is reported as "no matches". */
  function NonEmpty(xs: seq<nat>): (r: Option<seq<nat>>)
    ensures r.None? <==> xs == []
    ensures r.Some? ==> r.value == xs
  {
    if xs == [] then None else Some(xs)
  }

  /** The starts below `n` of windows within tolerance, in scan order. */
  ghost function ApproxStarts(s: string, p: string, t: int, n: nat): seq<nat>
  {
    if n == 0 then []
    else ApproxStarts(s, p, t, n - 1) + (if ApproxAt(s, p, t, n - 1) then [n - 1] else [])
  }

  /** The starts below `n` at which `w` occurs, in scan order. */
  ghost function ExactStarts(s: string, w: string, n: nat): seq<nat>
  {
    if n == 0 then []
    else ExactStarts(s, w, n - 1) + (if OccursAt(s, w, n - 1) then [n - 1] else [])
  }

  /** The number of starts below `n` at which `w` occurs. */
  ghost function Occurrences(s: string, w: string, n: nat): nat
  {
    if n == 0 then 0
    else Occurrences(s, w, n - 1) + (if OccursAt(s, w, n - 1) then 1 else 0)
  }

  /** What the approximate matcher reports for sequence `s`, pattern `p`
      and tolerance `t`. */
  ghost function ApproxMatchResult(s: string, p: string, t: int): Option<seq<nat>>
  {
    NonEmpty(ApproxStarts(s, p, t, WindowCount(|s|, |p|)))
  }

  /** What the exact occurrence finder reports for sequence `s` and
      pattern `p`. */
  ghost function ExactMatchResult(s: string, p: string): Option<seq<nat>>
  {
    NonEmpty(ExactStarts(s, p, WindowCount(|s|, |p|)))
  }

  /** The scan lists exactly the qualifying starts below `n`, each once,
      in ascending order. */
  lemma {:induction false} ApproxStartsCharacterized(s: string, p: string, t: int, n: nat)
    ensures Ascending(ApproxStarts(s, p, t, n))
    ensures forall i :: i in ApproxStarts(s, p, t, n) <==> 0 <= i < n && ApproxAt(s, p, t, i)
  {
    if n > 0 {
      var prev := ApproxStarts(s, p, t, n - 1);
      ApproxStartsCharacterized(s, p, t, n - 1);
      assert forall a :: 0 <= a < |prev| ==> prev[a] in prev && prev[a] < n - 1;
    }
  }

  /** The approximate matcher reports exactly the windows within tolerance,
      ascending, and "no matches" (never an empty list) when there is none,
      which includes every pattern longer than the sequence. */
  lemma ApproxMatchResultCharacterized(s: string, p: string, t: int)
    ensures ApproxMatchResult(s, p, t).None? <==> forall i :: !ApproxAt(s, p, t, i)
    ensures ApproxMatchResult(s, p, t).Some? ==>
              var xs := ApproxMatchResult(s, p, t).value;
              xs != [] && Ascending(xs) && forall i :: i in xs <==> ApproxAt(s, p, t, i)
    ensures |p| > |s| ==> ApproxMatchResult(s, p, t).None?
  {
    var n := WindowCount(|s|, |p|);
    ApproxStartsCharacterized(s, p, t, n);
    forall i | ApproxAt(s, p, t, i)
      ensures i in ApproxStarts(s, p, t, n)
    {
      assert i < n;
    }
    var xs := ApproxStarts(s, p, t, n);
    if xs != [] {
      assert xs[0] in xs && ApproxAt(s, p, t, xs[0]);
    }
  }

  /** Raising the tolerance never loses a reported position. */
  lemma ToleranceMonotone(s: string, p: string, t: int, t': int, i: nat)
    requires t <= t'
    requires ApproxMatchResult(s, p, t).Some? && i in ApproxMatchResult(s, p, t).value
    ensures ApproxMatchResult(s, p, t').Some? && i in ApproxMatchResult(s, p, t').value
  {
    ApproxMatchResultCharacterized(s, p, t);
    ApproxMatchResultCharacterized(s, p, t');
    assert ApproxAt(s, p, t, i);
    assert ApproxAt(s, p, t', i);
  }

  lemma {:induction false} ExactStartsAreZeroTolerance(s: string, w: string, n: nat)
    ensures ExactStarts(s, w, n) == ApproxStarts(s, w, 0, n)
  {
    if n > 0 {
      ExactStartsAreZeroTolerance(s, w, n - 1);
      var i := n - 1;
      if i + |w| <= |s| {
        MismatchesZeroIff(s[i..i + |w|], w);
      }
      assert OccursAt(s, w, i) <==> ApproxAt(s, w, 0, i);
    }
  }

  /** Exact matching is approximate matching with tolerance 0. */
  lemma ExactIsApproxZero(s: string, p: string)
    ensures ExactMatchResult(s, p) == ApproxMatchResult(s, p, 0)
  {
    ExactStartsAreZeroTolerance(s, p, WindowCount(|s|, |p|));
  }

  /** The exact occurrence finder reports every occurrence, overlapping ones
      included, ascending, and "no matches" when there is none. */
  lemma ExactMatchResultCharacterized(s: string, p: string)
    ensures ExactMatchResult(s, p).None? <==> forall i :: !OccursAt(s, p, i)
    ensures ExactMatchResult(s, p).Some? ==>
              var xs := ExactMatchResult(s, p).value;
              xs != [] && Ascending(xs) && forall i :: i in xs <==> OccursAt(s, p, i)
  {
    ExactIsApproxZero(s, p);
    ApproxMatchResultCharacterized(s, p, 0);
    forall i ensures OccursAt(s, p, i) <==> ApproxAt(s, p, 0, i) {
      if 0 <= i && i + |p| <= |s| {
        MismatchesZeroIff(s[i..i + |p|], p);
      }
    }
  }

  /** Counting occurrences and listing them agree. */
  lemma {:induction false} OccurrencesIsLength(s: string, w: string, n: nat)
    ensures Occurrences(s, w, n) == |ExactStarts(s, w, n)|
  {
    if n > 0 {
      OccurrencesIsLength(s, w, n - 1);
    }
  }

  /** Every start at which `w` occurs in `s`. */
  ghost function OccurrenceSet(s: string, w: string): set<int>
  {
    set i | 0 <= i <= |s| && OccursAt(s, w, i)
  }

  ghost function StartsBelow(s: string, w: string, n: nat): set<int>
  {
    set i | 0 <= i < n && OccursAt(s, w, i)
  }

  lemma {:induction false} OccurrencesBelowIsCardinality(s: string, w: string, n: nat)
    ensures Occurrences(s, w, n) == |StartsBelow(s, w, n)|
  {
    if n > 0 {
      OccurrencesBelowIsCardinality(s, w, n - 1);
      var here: set<int> := if OccursAt(s, w, n - 1) then {n - 1} else {};
      assert StartsBelow(s, w, n) == StartsBelow(s, w, n - 1) + here;
      assert n - 1 !in StartsBelow(s, w, n - 1);
    }
  }

  /** Counting over all windows gives the number of starts at which `w`
      occurs. */
  lemma OccurrencesIsCardinality(s: string, w: string)
    ensures Occurrences(s, w, WindowCount(|s|, |w|)) == |OccurrenceSet(s, w)|
  {
    var n := WindowCount(|s|, |w|);
    OccurrencesBelowIsCardinality(s, w, n);
    forall i | i in OccurrenceSet(s, w) ensures i in StartsBelow(s, w, n) {
      assert i + |w| <= |s| && n == |s| - |w| + 1;
    }
    assert OccurrenceSet(s, w) == StartsBelow(s, w, n);
  }

  /** No occurrence below `n` means a zero count, and conversely. */
  lemma {:induction false} OccurrencesZeroIff(s: string, w: string, n: nat)
    ensures Occurrences(s, w, n) == 0 <==> forall i :: 0 <= i < n ==> !OccursAt(s, w, i)
  {
    if n > 0 {
      OccurrencesZeroIff(s, w, n - 1);
    }
  }

  /** Counting the query pattern gives the length of the exact occurrence
      list, or 0 when that is "no matches". */
  lemma CountIsOccurrenceListLength(s: string, p: string)
    ensures Occurrences(s, p, WindowCount(|s|, |p|)) ==
            match ExactMatchResult(s, p) case None => 0 case Some(xs) => |xs|
  {
    OccurrencesIsLength(s, p, WindowCount(|s|, |p|));
  }

  /** Overlapping occurrences are all reported: "AA" occurs at 0 and 1 in
      "AAA". */
  lemma OverlapExample()
    ensures ExactMatchResult("AAA", "AA") == Some([0, 1])
    ensures Occurrences("AAA", "AA", WindowCount(3, 2)) == 2
  {
    assert OccursAt("AAA", "AA", 0) && OccursAt("AAA", "AA", 1);
    assert ExactStarts("AAA", "AA", 1) == [0];
    assert ExactStarts("AAA", "AA", 2) == [0, 1];
  }
}
