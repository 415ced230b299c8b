/**
 * The character-distribution test of the approximate word search: two words
 * are similar when the letters they share, counted with multiplicity, make up
 * at least 70% of the letters either of them has. Counting uses 30 buckets,
 * one for each character from 'a' to '~'; other characters are ignored.
 */
module Similarity {
  const Buckets := 30

  /** The bucket of `c`, when it has one. */
  predicate InRange(c: char) {
    0 <= c as int - 'a' as int < Buckets
  }

  /** How many characters of `w` fall into bucket `b`. */
  function Freq(w: string, b: int): (n: nat)
    ensures n <= |w|
    decreases |w|
  {
    if w == [] then 0
    else Freq(w[..|w| - 1], b) + (if w[|w| - 1] as int - 'a' as int == b then 1 else 0)
  }

  function Min(a: int, b: int): int { if a < b then a else b }

  function Max(a: int, b: int): int { if a < b then b else a }

  /** The shared count over buckets `0 .. i-1`. */
  function SumMin(v: string, w: string, i: int): (r: int)
    requires 0 <= i <= Buckets
  {
    if i == 0 then 0 else SumMin(v, w, i - 1) + Min(Freq(v, i - 1), Freq(w, i - 1))
  }

  /** The total count over buckets `0 .. i-1`. */
  function SumMax(v: string, w: string, i: int): (r: int)
    requires 0 <= i <= Buckets
  {
    if i == 0 then 0 else SumMax(v, w, i - 1) + Max(Freq(v, i - 1), Freq(w, i - 1))
  }

  /** shared / total >= 0.7 in exact arithmetic; a total of 0 makes the
      quotient NaN, which compares false. */
  predicate Similar(v: string, w: string) {
    var shared, total := SumMin(v, w, Buckets), SumMax(v, w, Buckets);
    total > 0 && 10 * shared >= 7 * total
  }

  /** Builds both histograms and compares the sums, as the approximate
      search does for every candidate word. */
  method AreCharactersSimilar(v: string, w: string) returns (r: bool)
    ensures r == Similar(v, w)
  {
    var freqV := Histogram(v);
    var freqW := Histogram(w);
    var shared, total := 0, 0;
    var i := 0;
    while i < Buckets
      invariant 0 <= i <= Buckets
      invariant shared == SumMin(v, w, i) && total == SumMax(v, w, i)
    {
      shared := shared + Min(freqV[i], freqW[i]);
      total := total + Max(freqV[i], freqW[i]);
      i := i + 1;
    }
    r := total > 0 && 10 * shared >= 7 * total;
  }

  /** The 30-bucket histogram of `w`. */
  method Histogram(w: string) returns (freq: array<int>)
    ensures fresh(freq) && freq.Length == Buckets
    ensures forall b :: 0 <= b < Buckets ==> freq[b] == Freq(w, b)
  {
    freq := new int[Buckets](_ => 0);
    var i := 0;
    while i < |w|
      invariant 0 <= i <= |w|
      invariant forall b :: 0 <= b < Buckets ==> freq[b] == Freq(w[..i], b)
    {
      assert w[..i + 1][..i] == w[..i];
      var b := w[i] as int - 'a' as int;
      if 0 <= b < Buckets {
        freq[b] := freq[b] + 1;
      }
      i := i + 1;
    }
    assert w[..i] == w;
  }

  /** The shared count never exceeds the total, so the ratio is at most 1. */
  lemma {:induction false} SharedAtMostTotal(v: string, w: string, i: int)
    requires 0 <= i <= Buckets
    ensures 0 <= SumMin(v, w, i) <= SumMax(v, w, i)
  {
    if i > 0 {
      SharedAtMostTotal(v, w, i - 1);
    }
  }

  lemma {:induction false} SumsSymmetric(v: string, w: string, i: int)
    requires 0 <= i <= Buckets
    ensures SumMin(v, w, i) == SumMin(w, v, i) && SumMax(v, w, i) == SumMax(w, v, i)
  {
    if i > 0 {
      SumsSymmetric(v, w, i - 1);
    }
  }

  /** The test does not depend on the order of its arguments. */
  lemma SimilarSymmetric(v: string, w: string)
    ensures Similar(v, w) <==> Similar(w, v)
  {
    SumsSymmetric(v, w, Buckets);
  }

  /** A bucket counts the occurrences of its character. */
  lemma {:induction false} FreqIsMultiplicity(w: string, b: int)
    requires 0 <= b < Buckets
    ensures Freq(w, b) == multiset(w)[(b + 'a' as int) as char]
    decreases |w|
  {
    if w != [] {
      var u := w[..|w| - 1];
      assert w == u + [w[|w| - 1]];
      assert multiset(w) == multiset(u) + multiset{w[|w| - 1]};
      FreqIsMultiplicity(u, b);
    }
  }

  /** Words with equal histograms share everything they have. */
  lemma {:induction false} EqualHistograms(v: string, w: string, i: int)
    requires 0 <= i <= Buckets
    requires forall b :: 0 <= b < Buckets ==> Freq(v, b) == Freq(w, b)
    ensures SumMin(v, w, i) == SumMax(v, w, i)
  {
    if i > 0 {
      EqualHistograms(v, w, i - 1);
    }
  }

  /** Anagrams are similar, provided they have a counted character at all. */
  lemma AnagramsSimilar(v: string, w: string)
    requires multiset(v) == multiset(w)
    ensures Similar(v, w) <==> SumMax(v, w, Buckets) > 0
  {
    forall b | 0 <= b < Buckets ensures Freq(v, b) == Freq(w, b) {
      FreqIsMultiplicity(v, b);
      FreqIsMultiplicity(w, b);
    }
    EqualHistograms(v, w, Buckets);
  }

  /** A word with no character in 'a'..'~' is similar to nothing. */
  lemma {:induction false} NoCountedCharacters(v: string, w: string)
    requires forall k :: 0 <= k < |v| ==> !InRange(v[k])
    requires forall k :: 0 <= k < |w| ==> !InRange(w[k])
    ensures !Similar(v, w)
  {
    forall b | 0 <= b < Buckets ensures Freq(v, b) == 0 && Freq(w, b) == 0 {
      FreqIsMultiplicity(v, b);
      FreqIsMultiplicity(w, b);
      var c := (b + 'a' as int) as char;
      assert c !in multiset(v) && c !in multiset(w) by {
        if c in multiset(v) {
          var k :| 0 <= k < |v| && v[k] == c;
          assert InRange(v[k]);
        }
        if c in multiset(w) {
          var k :| 0 <= k < |w| && w[k] == c;
          assert InRange(w[k]);
        }
      }
    }
    ZeroHistograms(v, w, Buckets);
  }

  lemma {:induction false} ZeroHistograms(v: string, w: string, i: int)
    requires 0 <= i <= Buckets
    requires forall b :: 0 <= b < Buckets ==> Freq(v, b) == 0 && Freq(w, b) == 0
    ensures SumMax(v, w, i) == 0
  {
    if i > 0 {
      ZeroHistograms(v, w, i - 1);
    }
  }
}
