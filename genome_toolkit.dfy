/** The analysis session: a DNA sequence, a query pattern and a mismatch
    tolerance, fixed at construction, and the read-only scans over them. */
module GenomeToolkit {
  import opened Wrappers
  import opened DnaText
  import opened Scan
  import Intron
  import opened Kmers

  class DnaPatternAnalysis {
    /** The upper-cased sequence. */
    const sequence: string
    /** The upper-cased query pattern. */
    const findPattern: string
    /** The largest number of mismatches an approximate match may have. */
    const tolerance: int

    /** Both strings are upper-cased; nothing is validated. */
    constructor (rawSequence: string := "ATCG", rawPattern: string := "AT", hammingDistance: int := 2)
      ensures sequence == Upper(rawSequence)
      ensures findPattern == Upper(rawPattern)
      ensures tolerance == hammingDistance
    {
      sequence := Upper(rawSequence);
      findPattern := Upper(rawPattern);
      tolerance := hammingDistance;
    }

    /** Whether `substring` differs from the pattern in at most `tolerance`
        positions, compared position by position over the shorter of the two. */
    predicate WithinTolerance(substring: string)
      ensures WithinTolerance(substring) <==> |DiffPositions(substring, findPattern)| <= tolerance
    {
      MismatchesIsDiffCount(substring, findPattern);
      Mismatches(substring, findPattern) <= tolerance
    }

    /** The starts of all windows within tolerance of the pattern, ascending,
        or `None` when there is none. */
    method ApproxMatches() returns (r: Option<seq<nat>>)
      ensures r == ApproxMatchResult(sequence, findPattern, tolerance)
      ensures r.None? <==> forall i :: !ApproxAt(sequence, findPattern, tolerance, i)
      ensures r.Some? ==> r.value != [] && Ascending(r.value)
      ensures r.Some? ==> forall i :: i in r.value <==> ApproxAt(sequence, findPattern, tolerance, i)
    {
      var matches: seq<nat> := [];
      var patternLength := |findPattern|;
      for i := 0 to WindowCount(|sequence|, patternLength)
        invariant matches == ApproxStarts(sequence, findPattern, tolerance, i)
      {
        var substring := sequence[i..i + patternLength];
        if WithinTolerance(substring) {
          matches := matches + [i];
        }
      }
      ApproxMatchResultCharacterized(sequence, findPattern, tolerance);
      if matches == [] {
        return None;
      }
      return Some(matches);
    }

    /** The starts of all exact occurrences of the pattern, overlapping ones
        included, ascending, or `None` when there is none. */
    method FindAllOccurrences() returns (r: Option<seq<nat>>)
      ensures r == ExactMatchResult(sequence, findPattern)
      ensures r == ApproxMatchResult(sequence, findPattern, 0)
      ensures r.None? <==> forall i :: !OccursAt(sequence, findPattern, i)
      ensures r.Some? ==> r.value != [] && Ascending(r.value)
      ensures r.Some? ==> forall i :: i in r.value <==> OccursAt(sequence, findPattern, i)
    {
      var results: seq<nat> := [];
      for i := 0 to WindowCount(|sequence|, |findPattern|)
        invariant results == ExactStarts(sequence, findPattern, i)
      {
        if sequence[i..i + |findPattern|] == findPattern {
          results := results + [i];
        }
      }
      ExactMatchResultCharacterized(sequence, findPattern);
      ExactIsApproxZero(sequence, findPattern);
      if |results| > 0 {
        return Some(results);
      }
      return None;
    }

    /** The start of the leftmost intron motif, or `None`. */
    function FindIntron(): (r: Option<nat>)
      ensures r.Some? ==> Intron.IntronAt(sequence, r.value)
      ensures r.Some? ==> forall j: nat :: j < r.value ==> !Intron.IntronAt(sequence, j)
      ensures r.None? <==> forall j: nat :: !Intron.IntronAt(sequence, j)
    {
      Intron.FindIntron(sequence)
    }

    /** The number of starts at which `kmer` occurs, overlaps counted; the
        argument is compared as given, without upper-casing. */
    method CountKmer(kmer: string) returns (kmerCount: nat)
      ensures kmerCount == Occurrences(sequence, kmer, WindowCount(|sequence|, |kmer|))
      ensures kmerCount == |OccurrenceSet(sequence, kmer)|
      ensures |kmer| > |sequence| ==> kmerCount == 0
    {
      kmerCount := 0;
      for position := 0 to WindowCount(|sequence|, |kmer|)
        invariant kmerCount == Occurrences(sequence, kmer, position)
      {
        if sequence[position..position + |kmer|] == kmer {
          kmerCount := kmerCount + 1;
        }
      }
      OccurrencesIsCardinality(sequence, kmer);
    }

    /** The k-mers of length `kLen` with the highest count, in order of first
        appearance; fails when there is no window of that length, where
        taking the maximum of the empty table raises. */
    method FrequentKmers(kLen: nat) returns (r: Result<seq<string>, KmerError>)
      ensures r.Failure? <==> kLen > |sequence|
      ensures r.Failure? ==> r.error == MaxOfEmptyTable
      ensures r.Success? ==> r.value == MostFrequent(sequence, kLen)
      ensures r.Success? ==> r.value != [] && NoDuplicates(r.value)
      ensures r.Success? ==> forall w :: w in r.value <==> IsMostFrequent(sequence, kLen, w)
      ensures r.Success? ==> InFirstSeenOrder(sequence, r.value)
    {
      var order: seq<string> := [];
      var kmerFrequencies: map<string, nat> := map[];
      for i := 0 to WindowCount(|sequence|, kLen)
        invariant order == FirstAppearance(sequence, kLen, i)
        invariant kmerFrequencies == PartialTable(sequence, kLen, i)
        invariant forall w :: w in kmerFrequencies <==> w in order
      {
        PartialTableCharacterized(sequence, kLen, i);
        var kmer := sequence[i..i + kLen];
        if kmer in kmerFrequencies {
          kmerFrequencies := kmerFrequencies[kmer := kmerFrequencies[kmer] + 1];
        } else {
          kmerFrequencies := kmerFrequencies[kmer := 1];
          order := order + [kmer];
        }
      }
      if order == [] {
        return Failure(MaxOfEmptyTable);
      }
      var highestFrequency := MaxValue(order, kmerFrequencies);
      r := Success(KeepFrequency(order, kmerFrequencies, highestFrequency));
      MostFrequentCharacterized(sequence, kLen);
      MostFrequentOrdered(sequence, kLen);
    }
  }

  /** Every scan of a session depends on its raw inputs only up to case:
      sessions built from case variants of the same sequence and pattern
      report the same results. */
  lemma ResultsIgnoreCase(rawSequence: string, rawPattern: string,
                          otherSequence: string, otherPattern: string, t: int, k: nat)
    requires SameUpToCase(rawSequence, otherSequence)
    requires SameUpToCase(rawPattern, otherPattern)
    ensures ApproxMatchResult(Upper(rawSequence), Upper(rawPattern), t) ==
            ApproxMatchResult(Upper(otherSequence), Upper(otherPattern), t)
    ensures ExactMatchResult(Upper(rawSequence), Upper(rawPattern)) ==
            ExactMatchResult(Upper(otherSequence), Upper(otherPattern))
    ensures Intron.FindIntron(Upper(rawSequence)) == Intron.FindIntron(Upper(otherSequence))
    ensures |Upper(rawSequence)| == |Upper(otherSequence)|
    ensures k <= |rawSequence| ==> MostFrequent(Upper(rawSequence), k) == MostFrequent(Upper(otherSequence), k)
  {
    UpperEqualIffSameUpToCase(rawSequence, otherSequence);
    UpperEqualIffSameUpToCase(rawPattern, otherPattern);
    var s, p := Upper(rawSequence), Upper(rawPattern);
    assert s == Upper(otherSequence) && p == Upper(otherPattern);
  }

  /** The k-mer counter does not upper-case its argument, so a k-mer with a
      lower-case letter is never found in the upper-cased sequence. */
  lemma LowerCaseKmerNeverCounted(rawSequence: string, kmer: string, j: nat)
    requires j < |kmer| && IsLower(kmer[j])
    ensures Occurrences(Upper(rawSequence), kmer, WindowCount(|rawSequence|, |kmer|)) == 0
  {
    var s := Upper(rawSequence);
    forall i ensures !OccursAt(s, kmer, i) {
      if 0 <= i && i + |kmer| <= |s| {
        var window := s[i..i + |kmer|];
        assert window[j] == s[i + j] == UpperChar(rawSequence[i + j]);
        UpperCharNotLower(rawSequence[i + j]);
        assert window[j] != kmer[j];
      }
    }
    OccurrencesZeroIff(s, kmer, WindowCount(|s|, |kmer|));
  }
}
