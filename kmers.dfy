/** K-mer frequency analysis: the frequency table of all length-k windows,
    kept in order of first appearance (the insertion order of the table),
    its maximum, and the k-mers that reach it. */
module Kmers {
  import opened Scan

  /** Raised when the maximum of an empty frequency table is asked for,
      which happens exactly when k exceeds the sequence length. */
  datatype KmerError = MaxOfEmptyTable

  predicate NoDuplicates(xs: seq<string>)
  {
    forall a, b :: 0 <= a < b < |xs| ==> xs[a] != xs[b]
  }

  /** The distinct windows of length `k` among the first `n`, each listed
      where it is first seen. */
  ghost function FirstAppearance(s: string, k: nat, n: nat): (r: seq<string>)
    requires n <= WindowCount(|s|, k)
    ensures r == [] <==> n == 0
  {
    if n == 0 then []
    else
      var prev := FirstAppearance(s, k, n - 1);
      var w := s[n - 1..n - 1 + k];
      if w in prev then prev else prev + [w]
  }

  lemma {:induction false} FirstAppearanceNoDuplicates(s: string, k: nat, n: nat)
    requires n <= WindowCount(|s|, k)
    ensures NoDuplicates(FirstAppearance(s, k, n))
  {
    if n > 0 {
      FirstAppearanceNoDuplicates(s, k, n - 1);
    }
  }

  lemma {:induction false} FirstAppearanceWindows(s: string, k: nat, n: nat)
    requires n <= WindowCount(|s|, k)
    ensures forall w :: w in FirstAppearance(s, k, n) ==> |w| == k
  {
    if n > 0 {
      FirstAppearanceWindows(s, k, n - 1);
    }
  }

  /** Every window read so far is in the first-appearance list. */
  lemma {:induction false} WindowIsSeen(s: string, k: nat, n: nat, i: nat)
    requires n <= WindowCount(|s|, k)
    requires i < n
    ensures s[i..i + k] in FirstAppearance(s, k, n)
  {
    if i < n - 1 {
      WindowIsSeen(s, k, n - 1, i);
    }
  }

  /** Everything in the first-appearance list is a window read so far. */
  lemma {:induction false} SeenOccurs(s: string, k: nat, n: nat, w: string)
    requires n <= WindowCount(|s|, k)
    requires w in FirstAppearance(s, k, n)
    ensures |w| == k && exists i :: 0 <= i < n && OccursAt(s, w, i)
  {
    if w in FirstAppearance(s, k, n - 1) {
      SeenOccurs(s, k, n - 1, w);
    } else {
      assert OccursAt(s, w, n - 1);
    }
  }

  /** The first-appearance list holds each window of length `k` among the
      first `n` exactly once, and nothing else. */
  lemma FirstAppearanceCharacterized(s: string, k: nat, n: nat)
    requires n <= WindowCount(|s|, k)
    ensures NoDuplicates(FirstAppearance(s, k, n))
    ensures forall w :: w in FirstAppearance(s, k, n) <==>
                        |w| == k && exists i :: 0 <= i < n && OccursAt(s, w, i)
  {
    FirstAppearanceNoDuplicates(s, k, n);
    forall w
      ensures w in FirstAppearance(s, k, n) <==>
              |w| == k && exists i :: 0 <= i < n && OccursAt(s, w, i)
    {
      if w in FirstAppearance(s, k, n) {
        SeenOccurs(s, k, n, w);
      }
      if |w| == k && exists i :: 0 <= i < n && OccursAt(s, w, i) {
        var i :| 0 <= i < n && OccursAt(s, w, i);
        WindowIsSeen(s, k, n, i);
      }
    }
  }

  /** A k-mer not yet in the first-appearance list has not occurred yet. */
  lemma UnseenHasNoOccurrences(s: string, k: nat, n: nat, w: string)
    requires n <= WindowCount(|s|, k)
    requires |w| == k && w !in FirstAppearance(s, k, n)
    ensures Occurrences(s, w, n) == 0
  {
    FirstAppearanceCharacterized(s, k, n);
    OccurrencesZeroIff(s, w, n);
  }

  /** Some occurrence of `u` comes before every occurrence of `v`. */
  ghost predicate SeenBefore(s: string, u: string, v: string)
  {
    exists i :: OccursAt(s, u, i) && forall j :: 0 <= j <= i ==> !OccursAt(s, v, j)
  }

  /** Each k-mer of `xs` is first seen in `s` before the ones after it. */
  ghost predicate InFirstSeenOrder(s: string, xs: seq<string>)
  {
    forall a, b :: 0 <= a < b < |xs| ==> SeenBefore(s, xs[a], xs[b])
  }

  /** The first-appearance list is ordered by first occurrence. */
  lemma {:induction false} FirstAppearanceOrdered(s: string, k: nat, n: nat)
    requires n <= WindowCount(|s|, k)
    ensures InFirstSeenOrder(s, FirstAppearance(s, k, n))
  {
    if n > 0 {
      var prev := FirstAppearance(s, k, n - 1);
      var w := s[n - 1..n - 1 + k];
      FirstAppearanceOrdered(s, k, n - 1);
      if w !in prev {
        var r := prev + [w];
        UnseenHasNoOccurrences(s, k, n - 1, w);
        OccurrencesZeroIff(s, w, n - 1);
        forall a | 0 <= a < |prev|
          ensures SeenBefore(s, r[a], w)
        {
          assert prev[a] in prev;
          SeenOccurs(s, k, n - 1, prev[a]);
          var i :| 0 <= i < n - 1 && OccursAt(s, prev[a], i);
          assert forall j :: 0 <= j <= i ==> !OccursAt(s, w, j);
        }
        assert forall a, b :: 0 <= a < b < |prev| ==> r[a] == prev[a] && r[b] == prev[b];
      }
    }
  }

  /** The frequency table after the first `n` windows, built as the
      analysis builds it: the next window's count is bumped if it is
      already a key and entered with count 1 otherwise. */
  ghost function PartialTable(s: string, k: nat, n: nat): map<string, nat>
    requires n <= WindowCount(|s|, k)
  {
    if n == 0 then map[]
    else
      var m := PartialTable(s, k, n - 1);
      var w := s[n - 1..n - 1 + k];
      if w in m then m[w := m[w] + 1] else m[w := 1]
  }

  /** The complete frequency table of the windows of length `k`. */
  ghost function FrequencyTable(s: string, k: nat): map<string, nat>
  {
    PartialTable(s, k, WindowCount(|s|, k))
  }

  /** The table after `n` windows has the k-mers seen so far as keys and
      maps each to its number of occurrences so far. */
  lemma {:induction false} PartialTableCharacterized(s: string, k: nat, n: nat)
    requires n <= WindowCount(|s|, k)
    ensures forall v :: v in PartialTable(s, k, n) <==> v in FirstAppearance(s, k, n)
    ensures forall v :: v in PartialTable(s, k, n) ==> PartialTable(s, k, n)[v] == Occurrences(s, v, n)
  {
    if n > 0 {
      var m := PartialTable(s, k, n - 1);
      var prev := FirstAppearance(s, k, n - 1);
      var w := s[n - 1..n - 1 + k];
      PartialTableCharacterized(s, k, n - 1);
      FirstAppearanceWindows(s, k, n);
      if w !in prev {
        UnseenHasNoOccurrences(s, k, n - 1, w);
      }
      forall v | v in PartialTable(s, k, n)
        ensures PartialTable(s, k, n)[v] == Occurrences(s, v, n)
      {
        assert OccursAt(s, v, n - 1) <==> v == w;
      }
    }
  }

  /** Sum of the counts of `keys` in `m`. */
  function SumValues(keys: seq<string>, m: map<string, nat>): nat
    requires forall w :: w in keys ==> w in m
  {
    if keys == [] then 0 else m[keys[0]] + SumValues(keys[1..], m)
  }

  lemma {:induction false} SumValuesAppend(keys: seq<string>, m: map<string, nat>, x: string)
    requires forall w :: w in keys ==> w in m
    requires x in m
    ensures SumValues(keys + [x], m) == SumValues(keys, m) + m[x]
  {
    if keys != [] {
      assert (keys + [x])[1..] == keys[1..] + [x];
      SumValuesAppend(keys[1..], m, x);
    }
  }

  lemma {:induction false} SumValuesAgree(keys: seq<string>, m: map<string, nat>, m': map<string, nat>)
    requires forall w :: w in keys ==> w in m && w in m' && m[w] == m'[w]
    ensures SumValues(keys, m) == SumValues(keys, m')
  {
    if keys != [] {
      SumValuesAgree(keys[1..], m, m');
    }
  }

  lemma {:induction false} SumValuesBump(keys: seq<string>, m: map<string, nat>, x: string)
    requires NoDuplicates(keys)
    requires forall w :: w in keys ==> w in m
    requires x in keys
    ensures SumValues(keys, m[x := m[x] + 1]) == SumValues(keys, m) + 1
  {
    if keys[0] == x {
      assert x !in keys[1..];
      SumValuesAgree(keys[1..], m[x := m[x] + 1], m);
    } else {
      SumValuesBump(keys[1..], m, x);
    }
  }

  /** Reading one more k-mer `w` into a table `m` with the key order `keys`
      gives the order `keys'` and the table `m'`, whose counts add up to one
      more than before. */
  lemma SumAfterStep(keys: seq<string>, m: map<string, nat>, w: string,
                     keys': seq<string>, m': map<string, nat>)
    requires NoDuplicates(keys)
    requires forall v :: v in m <==> v in keys
    requires keys' == if w in m then keys else keys + [w]
    requires m' == if w in m then m[w := m[w] + 1] else m[w := 1]
    ensures forall v :: v in keys' ==> v in m'
    ensures SumValues(keys', m') == SumValues(keys, m) + 1
  {
    if w in m {
      SumValuesBump(keys, m, w);
    } else {
      SumValuesAppend(keys, m[w := 1], w);
      SumValuesAgree(keys, m[w := 1], m);
    }
  }

  /** The counts of the partial table add up to the number of windows
      read so far. */
  lemma {:induction false} PartialTableSum(s: string, k: nat, n: nat)
    requires n <= WindowCount(|s|, k)
    ensures forall v :: v in FirstAppearance(s, k, n) ==> v in PartialTable(s, k, n)
    ensures SumValues(FirstAppearance(s, k, n), PartialTable(s, k, n)) == n
  {
    if n > 0 {
      PartialTableSum(s, k, n - 1);
      PartialTableCharacterized(s, k, n - 1);
      FirstAppearanceNoDuplicates(s, k, n - 1);
      SumAfterStep(FirstAppearance(s, k, n - 1), PartialTable(s, k, n - 1), s[n - 1..n - 1 + k],
                   FirstAppearance(s, k, n), PartialTable(s, k, n));
    }
  }

  /** The frequency table has exactly the distinct windows of length `k` as
      keys, maps each to its number of occurrences, and its counts add up
      to the number of windows. */
  lemma FrequencyTableCharacterized(s: string, k: nat)
    ensures var table := FrequencyTable(s, k);
            forall w :: w in table <==> |w| == k && exists i :: OccursAt(s, w, i)
    ensures var table := FrequencyTable(s, k);
            forall w :: w in table ==> table[w] == Occurrences(s, w, WindowCount(|s|, |w|))
    ensures var keys := FirstAppearance(s, k, WindowCount(|s|, k));
            && (forall w :: w in keys ==> w in FrequencyTable(s, k))
            && SumValues(keys, FrequencyTable(s, k)) == WindowCount(|s|, k)
  {
    var n := WindowCount(|s|, k);
    FirstAppearanceCharacterized(s, k, n);
    PartialTableCharacterized(s, k, n);
    PartialTableSum(s, k, n);
    forall w | |w| == k && exists i :: OccursAt(s, w, i)
      ensures w in FrequencyTable(s, k)
    {
      var i :| OccursAt(s, w, i);
      assert 0 <= i < n;
    }
  }

  /** The largest count in `m` among `keys` (Python's `max` of the
      table's values). */
  function MaxValue(keys: seq<string>, m: map<string, nat>): (h: nat)
    requires keys != []
    requires forall w :: w in keys ==> w in m
    ensures exists w :: w in keys && m[w] == h
    ensures forall w :: w in keys ==> m[w] <= h
  {
    if |keys| == 1 then m[keys[0]]
    else
      var rest := MaxValue(keys[1..], m);
      if m[keys[0]] >= rest then m[keys[0]] else rest
  }

  /** The keys whose count is `h`, in the order of `keys`. */
  function KeepFrequency(keys: seq<string>, m: map<string, nat>, h: nat): (r: seq<string>)
    requires forall w :: w in keys ==> w in m
    ensures forall w :: w in r <==> w in keys && m[w] == h
    ensures NoDuplicates(keys) ==> NoDuplicates(r)
  {
    if keys == [] then []
    else
      var rest := KeepFrequency(keys[1..], m, h);
      assert NoDuplicates(keys) ==> NoDuplicates(keys[1..]) && keys[0] !in keys[1..];
      if m[keys[0]] == h then [keys[0]] + rest else rest
  }

  /** What the most-frequent k-mer search returns when `k` does not exceed
      the sequence length. */
  ghost function MostFrequent(s: string, k: nat): seq<string>
    requires k <= |s|
  {
    var keys := FirstAppearance(s, k, WindowCount(|s|, k));
    var table := FrequencyTable(s, k);
    PartialTableCharacterized(s, k, WindowCount(|s|, k));
    KeepFrequency(keys, table, MaxValue(keys, table))
  }

  /** The table maximum bounds the count of every k-mer. */
  lemma NoKmerOutnumbersMaximum(s: string, k: nat, v: string)
    requires k <= |s| && |v| == k
    ensures var n := WindowCount(|s|, k);
            var keys := FirstAppearance(s, k, n);
            && (forall w :: w in keys ==> w in FrequencyTable(s, k))
            && Occurrences(s, v, n) <= MaxValue(keys, FrequencyTable(s, k))
  {
    var n := WindowCount(|s|, k);
    PartialTableCharacterized(s, k, n);
    if v !in FirstAppearance(s, k, n) {
      UnseenHasNoOccurrences(s, k, n, v);
    }
  }

  /** `w` is a k-mer of `s` that occurs and that no k-mer of length `k`
      outnumbers. */
  ghost predicate IsMostFrequent(s: string, k: nat, w: string)
  {
    var n := WindowCount(|s|, k);
    |w| == k && Occurrences(s, w, n) > 0
    && forall v :: |v| == k ==> Occurrences(s, v, n) <= Occurrences(s, w, n)
  }

  lemma ReportedIsMostFrequent(s: string, k: nat, w: string)
    requires k <= |s|
    requires w in MostFrequent(s, k)
    ensures IsMostFrequent(s, k, w)
  {
    var n := WindowCount(|s|, k);
    PartialTableCharacterized(s, k, n);
    SeenOccurs(s, k, n, w);
    OccurrencesZeroIff(s, w, n);
    forall v | |v| == k ensures Occurrences(s, v, n) <= Occurrences(s, w, n) {
      NoKmerOutnumbersMaximum(s, k, v);
    }
  }

  lemma MostFrequentIsReported(s: string, k: nat, w: string)
    requires k <= |s|
    requires IsMostFrequent(s, k, w)
    ensures w in MostFrequent(s, k)
  {
    var n := WindowCount(|s|, k);
    var keys := FirstAppearance(s, k, n);
    var table := FrequencyTable(s, k);
    PartialTableCharacterized(s, k, n);
    var h := MaxValue(keys, table);
    var top :| top in keys && table[top] == h;
    SeenOccurs(s, k, n, top);
    assert h <= Occurrences(s, w, n) by {
      assert table[top] == Occurrences(s, top, n);
    }
    OccurrencesZeroIff(s, w, n);
    var i :| 0 <= i < n && OccursAt(s, w, i);
    WindowIsSeen(s, k, n, i);
    assert w in keys;
    NoKmerOutnumbersMaximum(s, k, w);
    assert table[w] == h;
  }

  /** The most frequent k-mers are, without duplicates, exactly the k-mers
      that occur and that no k-mer outnumbers; there is at least one. */
  lemma MostFrequentCharacterized(s: string, k: nat)
    requires k <= |s|
    ensures MostFrequent(s, k) != []
    ensures NoDuplicates(MostFrequent(s, k))
    ensures forall w :: w in MostFrequent(s, k) <==> IsMostFrequent(s, k, w)
  {
    var n := WindowCount(|s|, k);
    var keys := FirstAppearance(s, k, n);
    var table := FrequencyTable(s, k);
    PartialTableCharacterized(s, k, n);
    FirstAppearanceNoDuplicates(s, k, n);
    var h := MaxValue(keys, table);
    var top :| top in keys && table[top] == h;
    assert top in MostFrequent(s, k);
    forall w ensures w in MostFrequent(s, k) <==> IsMostFrequent(s, k, w) {
      if w in MostFrequent(s, k) {
        ReportedIsMostFrequent(s, k, w);
      }
      if IsMostFrequent(s, k, w) {
        MostFrequentIsReported(s, k, w);
      }
    }
  }

  /** Keeping the keys of one count preserves their relative order. */
  lemma {:induction false} KeepFrequencyOrdered(s: string, keys: seq<string>, m: map<string, nat>, h: nat)
    requires forall w :: w in keys ==> w in m
    requires InFirstSeenOrder(s, keys)
    ensures InFirstSeenOrder(s, KeepFrequency(keys, m, h))
  {
    if keys != [] {
      var tail := keys[1..];
      var rest := KeepFrequency(tail, m, h);
      KeepFrequencyOrdered(s, tail, m, h);
      if m[keys[0]] == h {
        var r := [keys[0]] + rest;
        forall b | 0 < b < |r|
          ensures SeenBefore(s, keys[0], r[b])
        {
          assert r[b] == rest[b - 1] && rest[b - 1] in rest;
          var c :| 0 <= c < |tail| && tail[c] == r[b];
          assert keys[c + 1] == r[b];
        }
        assert forall a, b :: 0 < a < b < |r| ==> r[a] == rest[a - 1] && r[b] == rest[b - 1];
        assert KeepFrequency(keys, m, h) == r;
      } else {
        assert KeepFrequency(keys, m, h) == rest;
      }
    }
  }

  /** The most frequent k-mers are listed in the order of their first
      occurrence in the sequence. */
  lemma MostFrequentOrdered(s: string, k: nat)
    requires k <= |s|
    ensures InFirstSeenOrder(s, MostFrequent(s, k))
  {
    var n := WindowCount(|s|, k);
    var keys := FirstAppearance(s, k, n);
    var table := FrequencyTable(s, k);
    PartialTableCharacterized(s, k, n);
    FirstAppearanceOrdered(s, k, n);
    KeepFrequencyOrdered(s, keys, table, MaxValue(keys, table));
  }
}
