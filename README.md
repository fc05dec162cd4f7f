# DNA pattern analysis, modelled in Dafny

This project models the analysis session `DNAPatternAnalysis` of
`genome_tookit.py`. A session holds a DNA sequence, a query pattern and
a mismatch tolerance (a Hamming distance). All three are fixed when the
session is built: both strings are upper-cased then, and nothing else is
changed. Five read-only scans run over the session:

- approximate matching of the pattern, up to the tolerance;
- exact matching, which reports overlapping occurrences too;
- a search for a fixed intron motif;
- counting the occurrences of one k-mer;
- the most frequent k-mers of a given length.

Layout:

- `wrappers.dfy` (`Wrappers`): `Option` and `Result`.
- `dna_text.dfy` (`DnaText`):
  - ASCII upper-casing;
  - the zip-style mismatch count (`Mismatches`) and its link to the set of differing positions.
- `scan.dfy` (`Scan`): the window scans as ghost specification functions, with their characterisations:
  - `ApproxStarts` and `ApproxMatchResult`;
  - `ExactStarts` and `ExactMatchResult`;
  - `Occurrences`.
- `intron.dfy` (`Intron`): the intron motif as an existential predicate over the two gap lengths, and the leftmost search over it.
- `kmers.dfy` (`Kmers`):
  - the frequency table, built the way the source builds its dictionary;
  - its key order, which follows first appearance (Python's dict order);
  - the maximum count and the selection of the most frequent k-mers.
- `genome_toolkit.dfy` (`GenomeToolkit`):
  - the class `DnaPatternAnalysis`, with `const` fields and the imperative scan loops;
  - each loop is proved equal to the specification functions above;
  - lemmas showing that the results do not depend on the case of the inputs.

Edge cases of `frequent_kmers` (genome_tookit.py:96-108), as the source behaves and the model follows:

- **`k` larger than the sequence length.** The loop reads no window, so the table stays empty, and `max` of its values raises `ValueError` at genome_tookit.py:103. The model returns `Failure(MaxOfEmptyTable)`.
- **`k = 0`.** The empty k-mer is read at each of the `N + 1` starts, so the result is `[""]`. The model does the same.
- **Order of the result.** The comprehension walks the dictionary in insertion order, so the most frequent k-mers come in the order of their first appearance. The model proves this as `InFirstSeenOrder`.

## Model

| member | source | states |
|---|---|---|
| DnaText.UpperChar | genome_tookit.py:17-18 | Definition: `str.upper()` on one character, restricted to ASCII: `a`-`z` become `A`-`Z`, every other character is kept. |
| DnaText.UpperOf | genome_tookit.py:17-18 | Definition: the upper-case letter of a lower-case ASCII letter, 32 code points lower. |
| DnaText.SameLetterUpToCase | genome_tookit.py:17-18 | Definition: two characters are equal, or are the lower- and upper-case forms of one ASCII letter. |
| DnaText.SameUpToCase | genome_tookit.py:17-18 | Definition: two strings of the same length that differ at most in ASCII letter case, position by position. |
| GenomeToolkit.DnaPatternAnalysis.constructor | genome_tookit.py:15-19 | The sequence and the pattern are stored upper-cased, and the tolerance is stored as given; nothing is validated. |
| DnaText.Upper | genome_tookit.py:17-18 | Upper-casing keeps the length and maps each character through ASCII upper-casing. |
| DnaText.UpperCharEqualIff | genome_tookit.py:17-18 | Two characters upper-case to the same character exactly when they are equal or are the two cases of one ASCII letter. |
| DnaText.UpperEqualIffSameUpToCase | genome_tookit.py:17-18 | Two raw strings upper-case to the same string exactly when they have the same length and differ at most in ASCII letter case at each position. |
| DnaText.UpperNormalizes | genome_tookit.py:17-18 | An upper-cased string has no lower-case letter, and upper-casing it again changes nothing. |
| DnaText.UpperCharNotLower | genome_tookit.py:17-18 | No upper-cased character is a lower-case letter. |
| DnaText.Mismatches | genome_tookit.py:28-29 | The zipped mismatch count is at most the length of either string. |
| DnaText.MismatchesSnoc | genome_tookit.py:28-29 | Extending two equal-length strings by one character each adds one mismatch exactly when the two characters differ. |
| DnaText.MismatchesTruncate | genome_tookit.py:28 | Only the common prefix is compared: characters past the shorter string do not matter, as with `zip`. |
| DnaText.MismatchesIsDiffCountEqualLength | genome_tookit.py:28-29 | For equal lengths, the count is the number of differing positions. |
| DnaText.MismatchesIsDiffCount | genome_tookit.py:28-29 | The count is the Hamming distance over the common length: the number of positions where the two strings differ. |
| DnaText.MismatchesZeroIff | genome_tookit.py:28-29 | Two strings of equal length have no mismatch exactly when they are equal. |
| GenomeToolkit.DnaPatternAnalysis.WithinTolerance | genome_tookit.py:22-32 | True exactly when the substring differs from the pattern in at most the tolerance positions, over their common length. |
| Scan.WindowCount | genome_tookit.py:42 | Definition: the number of loop steps `range(N - L + 1)` takes, `N - L + 1`, or none when `L > N`. The same bound serves lines 81 and 96. |
| Scan.OccursAt | genome_tookit.py:82 | Definition: the window of the k-mer's length at `i` lies inside the sequence and equals the k-mer. |
| Scan.ApproxAt | genome_tookit.py:43-44 | Definition: the window of the pattern's length at `i` lies inside the sequence and passes the mismatch test. |
| Scan.ApproxStarts | genome_tookit.py:39-45 | Definition: the starts the approximate loop appends in its first `n` steps, in order. |
| Scan.ApproxMatchResult | genome_tookit.py:39-48 | Definition: the approximate matcher's result, the full list of starts, or `None` when it is empty. |
| Scan.NonEmpty | genome_tookit.py:46-48 | An empty list becomes "no matches"; any other list is reported as it is. |
| Scan.ApproxStartsCharacterized | genome_tookit.py:39-45 | The scan lists each start below `n` whose window is within tolerance, exactly once, strictly ascending, and nothing else. |
| Scan.ApproxMatchResultCharacterized | genome_tookit.py:39-48 | "No matches" exactly when no window is within tolerance, never an empty list. Otherwise the list is non-empty, ascending, and holds exactly the starts within tolerance. A pattern longer than the sequence gives "no matches". |
| GenomeToolkit.DnaPatternAnalysis.ApproxMatches | genome_tookit.py:34-48 | The loop returns the specified result: "no matches" exactly when no window qualifies, otherwise exactly the qualifying starts, ascending. |
| Scan.ToleranceMonotone | genome_tookit.py:42-45 | A start reported at tolerance `t` is also reported at any larger tolerance. |
| Scan.ExactStarts | genome_tookit.py:56-60 | Definition: the starts of the look-ahead matches among the first `n` positions, in order. |
| Scan.ExactMatchResult | genome_tookit.py:56-64 | Definition: the exact finder's result, the full list of starts, or `None` when it is empty. |
| Scan.ExactStartsAreZeroTolerance | genome_tookit.py:56-60 | The exact scan lists the same starts as the approximate scan with tolerance 0. |
| Scan.ExactIsApproxZero | genome_tookit.py:51-64 | Exact matching gives the same result as approximate matching with tolerance 0. |
| Scan.ExactMatchResultCharacterized | genome_tookit.py:56-64 | "No matches" exactly when the pattern does not occur. Otherwise the result lists every occurrence, overlapping ones included, once each and ascending. |
| GenomeToolkit.DnaPatternAnalysis.FindAllOccurrences | genome_tookit.py:51-64 | The loop returns the exact-match result. That result equals approximate matching at tolerance 0, and holds exactly the occurrences, ascending, or "no matches". |
| Scan.OverlapExample | genome_tookit.py:56-64 | "AA" in "AAA" is reported at 0 and at 1 and counted twice. |
| Intron.IntronShape | genome_tookit.py:67 | Definition: the motif laid out from `i` with gap lengths `g1`, `g2`: `GT`, `g1` bases, `TACTAAC`, `g2` bases, `AC`, all inside the sequence. |
| Intron.IntronAt | genome_tookit.py:67-68 | Definition: a match of the motif starts at `i` for some gap lengths from 1 to 10. |
| Intron.IntronNeedsThirteen | genome_tookit.py:67 | Any instance of the motif spans at least 13 characters. |
| Intron.FindIntronFrom | genome_tookit.py:68-72 | Returns the least start at or after `i` where the motif fits, or "none" when it fits nowhere from `i` on. |
| Intron.FindIntron | genome_tookit.py:66-72 | Returns the leftmost start of the motif: `GT`, 1 to 10 bases, `TACTAAC`, 1 to 10 bases, `AC`. Returns "none" exactly when there is no such start. |
| GenomeToolkit.DnaPatternAnalysis.FindIntron | genome_tookit.py:66-72 | The session's intron search reports the leftmost motif start in its sequence, or "none" exactly when there is none. |
| Intron.ShortSequenceHasNoIntron | genome_tookit.py:67-72 | A sequence shorter than 13 characters has no intron. |
| Intron.MinimalMotifFound | genome_tookit.py:67-72 | The minimal motif `GTATACTAACGAC`, inserted at some offset, is an intron there. The reported start is at most that offset, and equals it when no earlier intron exists. |
| Intron.NoBranchSiteNoIntron | genome_tookit.py:67-72 | A sequence without the branch site `TACTAAC` has no intron. |
| Scan.Occurrences | genome_tookit.py:80-84 | Definition: the counter after the first `n` steps of the loop. |
| Scan.OccurrencesIsLength | genome_tookit.py:80-84 | Counting occurrences below `n` gives the length of the list of those occurrences. |
| Scan.OccurrencesBelowIsCardinality | genome_tookit.py:81-83 | The count below `n` is the number of starts below `n` where the k-mer occurs. |
| Scan.OccurrencesIsCardinality | genome_tookit.py:80-84 | Counting over all windows gives the number of starts where the k-mer occurs, overlaps included. |
| Scan.OccurrencesZeroIff | genome_tookit.py:80-84 | The count is 0 exactly when the k-mer does not occur. |
| GenomeToolkit.DnaPatternAnalysis.CountKmer | genome_tookit.py:75-84 | The loop counts the starts where the k-mer occurs (the size of the occurrence set). The count is 0 when the k-mer is longer than the sequence. |
| Scan.CountIsOccurrenceListLength | genome_tookit.py:80-84 | Counting the pattern gives the length of the exact occurrence list, or 0 when that is "no matches". |
| GenomeToolkit.LowerCaseKmerNeverCounted | genome_tookit.py:81-83 | The k-mer argument is not upper-cased, so a k-mer with a lower-case letter is counted 0 times. |
| Kmers.FirstAppearance | genome_tookit.py:96-101 | The key order after `n` windows is empty exactly when `n` is 0. |
| Kmers.FirstAppearanceNoDuplicates | genome_tookit.py:98-101 | No k-mer is entered into the key order twice. |
| Kmers.FirstAppearanceWindows | genome_tookit.py:96-97 | Every key has length `k`. |
| Kmers.WindowIsSeen | genome_tookit.py:96-101 | Every window read so far is a key. |
| Kmers.SeenOccurs | genome_tookit.py:96-101 | Every key has length `k` and occurs among the windows read so far. |
| Kmers.FirstAppearanceCharacterized | genome_tookit.py:96-101 | The keys so far are exactly the distinct k-mers among the windows read, each once. |
| Kmers.UnseenHasNoOccurrences | genome_tookit.py:98-101 | A k-mer that is not yet a key has not occurred yet. |
| Kmers.FirstAppearanceOrdered | genome_tookit.py:98-101 | Keys are ordered by first occurrence. |
| Kmers.PartialTable | genome_tookit.py:93-101 | Definition: the dictionary after the first `n` windows, with each count bumped or entered as 1. |
| Kmers.FrequencyTable | genome_tookit.py:93-101 | Definition: the dictionary after the whole loop. |
| Kmers.PartialTableCharacterized | genome_tookit.py:93-101 | After `n` windows, the table's keys are the k-mers seen so far, and each maps to its number of occurrences so far. |
| Kmers.SumValuesAppend | genome_tookit.py:101 | A proof step for `PartialTableSum`: entering a new key adds its count to the sum of counts. |
| Kmers.SumValuesAgree | genome_tookit.py:99-101 | A proof step for `PartialTableSum`: two tables that agree on the keys have the same sum of counts. |
| Kmers.SumValuesBump | genome_tookit.py:99 | A proof step for `PartialTableSum`: bumping one key's count raises the sum of counts by 1. |
| Kmers.SumAfterStep | genome_tookit.py:97-101 | Reading one more window, bumped or newly entered, keeps every key in the table and raises the sum of counts by 1. |
| Kmers.PartialTableSum | genome_tookit.py:93-101 | After `n` windows, the counts add up to `n`. |
| Kmers.FrequencyTableCharacterized | genome_tookit.py:93-101 | The finished table's keys are exactly the distinct k-mers of the sequence. Each maps to its occurrence count, which is what `count_kmer` returns. The counts add up to the number of windows. |
| Kmers.MaxValue | genome_tookit.py:103 | The result is the count of some key and no key's count exceeds it. |
| Kmers.KeepFrequency | genome_tookit.py:105-108 | The result holds exactly the keys whose count is `h`, and no duplicate when the keys have none. |
| Kmers.MostFrequent | genome_tookit.py:103-108 | Definition: the keys in insertion order whose count equals the maximum, when `k` does not exceed the sequence length. |
| Kmers.NoKmerOutnumbersMaximum | genome_tookit.py:103 | No k-mer of length `k` occurs more often than the table maximum. |
| Kmers.ReportedIsMostFrequent | genome_tookit.py:103-108 | Every reported k-mer occurs, and no k-mer of its length occurs more often. |
| Kmers.MostFrequentIsReported | genome_tookit.py:103-108 | Every k-mer that occurs and that no other k-mer outnumbers is reported. |
| Kmers.MostFrequentCharacterized | genome_tookit.py:103-108 | The result is non-empty and has no duplicate. A k-mer is in it exactly when it occurs and no k-mer of the same length occurs more often. |
| Kmers.KeepFrequencyOrdered | genome_tookit.py:105-108 | Selecting keys by count keeps first-seen order. |
| Kmers.MostFrequentOrdered | genome_tookit.py:105-108 | The most frequent k-mers come in the order of their first occurrence. |
| GenomeToolkit.DnaPatternAnalysis.FrequentKmers | genome_tookit.py:86-108 | Fails (the `max` of an empty table) exactly when `k` exceeds the sequence length. Otherwise the result is non-empty, has no duplicate, lists exactly the most frequent k-mers, and is in first-seen order. |
| GenomeToolkit.ResultsIgnoreCase | genome_tookit.py:15-19 | Case variants of the raw sequence and pattern give the same results for approximate matching, exact matching, the intron search and the most frequent k-mers. |

## Left out

- `application.py`, the demo driver: it only feeds fixed inputs and prints, so it is I/O and is not part of this model.
- The regular-expression engine (`finditer`, `search`): the model states what those calls return and follows no backtracking steps. That is the overlapping look-ahead starts for the pattern, and the leftmost start of the intron motif. The leftmost start does not depend on how the engine orders its gap lengths.
- Patterns with regular-expression metacharacters: the source puts the pattern into the look-ahead unescaped. The model treats every pattern as literal characters.
- Unicode `str.upper()`, which can change a string's length: the model upper-cases ASCII letters only and keeps every other character.
- `frequent_kmers` with a negative `k_len`: Python's negative slicing then gives windows of other lengths. `kLen` is a `nat` in the model.
- Python's dictionary: it is modelled as a `map` with a separate `seq` for insertion order, which is what `items()` iterates over.
- The reverse-complement and plotting goals in the file's header comment are not implemented in the source, so the model has nothing to cover there.
- Object identity and dynamic attribute changes: the three fields are `const` because nothing in the class assigns them after construction.
