/**
 * Phrase counting for `StenographicProcessor.analyze_corpus`
 * (steno-processor.py): the lower-cased word n-grams of a corpus, their
 * `Counter`, `most_common`, the frequency cut and the symbols handed out.
 */
module Corpus {
  import opened Text
  import opened Dicts

  /** `text.lower().split()`. */
  function Words(text: string): (ws: seq<string>)
    ensures forall k :: 0 <= k < |ws| ==> |ws[k]| > 0 && HasNoSpace(ws[k])
  {
    Split(Lower(text))
  }

  /** The `n`-word phrases of `words`, left to right: `" ".join(words[i:i+n])`. */
  function Ngrams(words: seq<string>, n: nat): (gs: seq<string>)
    requires n > 0
    ensures |gs| == if |words| >= n then |words| - n + 1 else 0
  {
    var count := if |words| >= n then |words| - n + 1 else 0;
    seq(count, i requires 0 <= i < count => Join(words[i..i + n]))
  }

  /** The phrases of 2 up to `hi - 1` words: all 2-word ones, then all 3-word ones, and so on. */
  function GramsBelow(words: seq<string>, hi: nat): (gs: seq<string>)
    decreases hi
  {
    if hi <= 2 then [] else GramsBelow(words, hi - 1) + Ngrams(words, hi - 1)
  }

  /** Every phrase of 2 to 6 words of every text, in the order `analyze_corpus` visits them. */
  function CorpusGrams(texts: seq<string>): (gs: seq<string>)
    decreases |texts|
  {
    if texts == [] then [] else CorpusGrams(texts[..|texts| - 1]) + GramsBelow(Words(texts[|texts| - 1]), 7)
  }

  /** A phrase of non-empty words is never empty. */
  lemma {:induction false} GramsBelowNonEmpty(words: seq<string>, hi: nat)
    requires forall k :: 0 <= k < |words| ==> |words[k]| > 0
    ensures forall g :: g in GramsBelow(words, hi) ==> |g| > 0
    decreases hi
  {
    if hi > 2 {
      GramsBelowNonEmpty(words, hi - 1);
      var ng := Ngrams(words, hi - 1);
      forall i | 0 <= i < |ng| ensures |ng[i]| > 0 {
        assert words[i..i + hi - 1][0] == words[i];
      }
    }
  }

  lemma {:induction false} CorpusGramsNonEmpty(texts: seq<string>)
    ensures forall g :: g in CorpusGrams(texts) ==> |g| > 0
    decreases |texts|
  {
    if texts != [] {
      CorpusGramsNonEmpty(texts[..|texts| - 1]);
      GramsBelowNonEmpty(Words(texts[|texts| - 1]), 7);
    }
  }

  /** `counter[k]`: 0 for a key the counter has not seen. */
  function CountOf(counts: Dict<nat>, k: string): (n: nat)
    ensures !HasKey(counts, k) ==> n == 0
  {
    match Get(counts, k)
    case None => 0
    case Some(c) => c
  }

  /** `counter[g] += 1`, unless `g` is a key of `skip`. */
  function Count(counts: Dict<nat>, g: string, skip: Dict<string>): (r: Dict<nat>)
  {
    if HasKey(skip, g) then counts else Put(counts, g, CountOf(counts, g) + 1)
  }

  /** `counts` after counting every phrase of `grams` in turn. */
  function Counted(counts: Dict<nat>, grams: seq<string>, skip: Dict<string>): (r: Dict<nat>)
    decreases |grams|
  {
    if grams == [] then counts else Count(Counted(counts, grams[..|grams| - 1], skip), grams[|grams| - 1], skip)
  }

  /** Counting `a` and then `b` is counting `a + b`. */
  lemma {:induction false} CountedConcat(counts: Dict<nat>, a: seq<string>, b: seq<string>, skip: Dict<string>)
    ensures Counted(counts, a + b, skip) == Counted(Counted(counts, a, skip), b, skip)
    decreases |b|
  {
    if b == [] {
      assert a + b == a;
    } else {
      var ab := a + b;
      assert ab[..|ab| - 1] == a + b[..|b| - 1];
      assert ab[|ab| - 1] == b[|b| - 1];
      CountedConcat(counts, a, b[..|b| - 1], skip);
    }
  }

  /** Counting one phrase. */
  lemma CountedOne(counts: Dict<nat>, g: string, skip: Dict<string>)
    ensures Counted(counts, [g], skip) == Count(counts, g, skip)
  {
    assert [g][..0] == [];
  }

  /** The `Counter` of `analyze_corpus` after counting every phrase of `grams`. */
  function Tally(grams: seq<string>, skip: Dict<string>): (counts: Dict<nat>)
  {
    Counted([], grams, skip)
  }

  /** Reading the counter after one more phrase. */
  lemma CountGet(c: Dict<nat>, g: string, skip: Dict<string>, k: string)
    requires DistinctKeys(c)
    ensures DistinctKeys(Count(c, g, skip))
    ensures HasKey(Count(c, g, skip), k) <==> HasKey(c, k) || (k == g && !HasKey(skip, g))
    ensures CountOf(Count(c, g, skip), k) == CountOf(c, k) + (if k == g && !HasKey(skip, g) then 1 else 0)
  {
    if !HasKey(skip, g) {
      var c' := Put(c, g, CountOf(c, g) + 1);
      PutGet(c, g, CountOf(c, g) + 1, k);
      assert HasKey(c', k) <==> Get(c', k).Some?;
    }
  }

  /** Counting adds each phrase that is not skipped once, with the number of times it occurs. */
  lemma {:induction false} CountedCounts(counts: Dict<nat>, grams: seq<string>, skip: Dict<string>, k: string)
    requires DistinctKeys(counts)
    ensures DistinctKeys(Counted(counts, grams, skip))
    ensures HasKey(Counted(counts, grams, skip), k) <==> HasKey(counts, k) || (k in grams && !HasKey(skip, k))
    ensures CountOf(Counted(counts, grams, skip), k) == CountOf(counts, k) + if HasKey(skip, k) then 0 else multiset(grams)[k]
    decreases |grams|
  {
    if grams != [] {
      var init, g := grams[..|grams| - 1], grams[|grams| - 1];
      assert grams == init + [g];
      CountedCounts(counts, init, skip, k);
      CountGet(Counted(counts, init, skip), g, skip, k);
      assert multiset(grams)[k] == multiset(init)[k] + (if g == k then 1 else 0);
    }
  }

  /**
   * The counter holds each phrase that is not skipped once, in the order it
   * was first seen, with the number of times it occurs.
   */
  lemma TallyCounts(grams: seq<string>, skip: Dict<string>, k: string)
    ensures DistinctKeys(Tally(grams, skip))
    ensures HasKey(Tally(grams, skip), k) <==> k in grams && !HasKey(skip, k)
    ensures CountOf(Tally(grams, skip), k) == if HasKey(skip, k) then 0 else multiset(grams)[k]
  {
    CountedCounts([], grams, skip, k);
  }

  function CountRank(e: (string, nat)): int { e.1 }

  /** `counter.most_common(n)`: highest count first, ties in first-seen order, at most `n` of them. */
  function MostCommon(counts: Dict<nat>, n: nat): (top: Dict<nat>)
    ensures |top| == if |counts| < n then |counts| else n
  {
    var sorted := SortDesc(counts, CountRank);
    sorted[..if |sorted| < n then |sorted| else n]
  }

  /** The most common phrases, highest count first, and nothing the counter does not hold. */
  lemma MostCommonSpec(counts: Dict<nat>, n: nat)
    requires DistinctKeys(counts)
    ensures DistinctKeys(MostCommon(counts, n))
    ensures Descending(MostCommon(counts, n), CountRank)
    ensures forall x :: x in MostCommon(counts, n) ==> x in counts
    ensures forall x, y :: x in counts && x !in MostCommon(counts, n) && y in MostCommon(counts, n) ==> y.1 >= x.1
    ensures forall r :: Having(MostCommon(counts, n), CountRank, r) <= Having(counts, CountRank, r)
  {
    var sorted := SortDesc(counts, CountRank);
    var m := if |sorted| < n then |sorted| else n;
    var top := MostCommon(counts, n);
    assert top == sorted[..m];
    SortDescDistinct(counts, CountRank);
    SortDescSpec(counts, CountRank, 0);
    forall x | x in top ensures x in counts {
      SortDescMembers(counts, CountRank, x);
    }
    DescendingPrefixAbove(sorted, CountRank, m);
    forall x, y | x in counts && x !in top && y in top ensures y.1 >= x.1 {
      SortDescMembers(counts, CountRank, x);
      assert CountRank(y) >= CountRank(x);
    }
    forall r ensures Having<(string, nat)>(top, CountRank, r) <= Having<(string, nat)>(counts, CountRank, r) {
      HavingPrefix(sorted, CountRank, m, r);
      SortDescSpec(counts, CountRank, r);
    }
  }

  /** The entries counted at least `minFreq` times, in order. */
  function Frequent(top: Dict<nat>, minFreq: int): (kept: Dict<nat>)
    ensures |kept| <= |top|
    ensures forall x :: x in kept ==> x in top && x.1 >= minFreq
    decreases |top|
  {
    if top == [] then []
    else
      var last := top[|top| - 1];
      Frequent(top[..|top| - 1], minFreq) + (if last.1 >= minFreq then [last] else [])
  }

  /** Keeping the entries of a prefix one at a time. */
  lemma FrequentStep(top: Dict<nat>, k: nat, minFreq: int)
    requires k < |top|
    ensures Frequent(top[..k + 1], minFreq)
         == Frequent(top[..k], minFreq) + (if top[k].1 >= minFreq then [top[k]] else [])
  {
    assert top[..k + 1][..k] == top[..k];
  }

  /** An entry is kept exactly when its count reaches `minFreq`. */
  lemma {:induction false} FrequentMembers(top: Dict<nat>, minFreq: int, x: (string, nat))
    ensures x in Frequent(top, minFreq) <==> x in top && x.1 >= minFreq
    decreases |top|
  {
    if top != [] {
      FrequentMembers(top[..|top| - 1], minFreq, x);
      assert top == top[..|top| - 1] + [top[|top| - 1]];
    }
  }

  /** Among distinct keys, the entry at `k` is not among those kept before it. */
  lemma FrequentFresh(top: Dict<nat>, k: nat, minFreq: int)
    requires DistinctKeys(top) && k < |top|
    ensures !HasKey(Frequent(top[..k], minFreq), top[k].0)
  {
    forall x | x in Frequent(top[..k], minFreq) ensures x.0 != top[k].0 {
      FrequentMembers(top[..k], minFreq, x);
      var j :| 0 <= j < k && top[j] == x;
    }
  }

  /** `f"[C{n}]"`. */
  function Symbol(n: int): (sym: string)
    ensures |sym| >= 4 && sym[..2] == "[C" && sym[|sym| - 1] == ']'
  {
    "[C" + Decimal(n) + "]"
  }

  /** Different numbers give different symbols. */
  lemma SymbolInjective(m: int, n: int)
    requires m != n
    ensures Symbol(m) != Symbol(n)
  {
    DecimalInjective(m, n);
    var a, b := Symbol(m), Symbol(n);
    assert a[2..|a| - 1] == Decimal(m);
    assert b[2..|b| - 1] == Decimal(n);
  }

  /** The learned table after the phrases of `stats`, in order, get the symbols `counter`, `counter + 1`, .... */
  function Learn(learned: Dict<string>, stats: Dict<nat>, counter: int): (r: Dict<string>)
    decreases |stats|
  {
    if stats == [] then learned
    else Put(Learn(learned, stats[..|stats| - 1], counter), stats[|stats| - 1].0, Symbol(counter + |stats| - 1))
  }

  /** Learning one more phrase. */
  lemma LearnStep(learned: Dict<string>, stats: Dict<nat>, x: (string, nat), counter: int)
    requires !HasKey(stats, x.0)
    ensures Learn(learned, Put(stats, x.0, x.1), counter) == Put(Learn(learned, stats, counter), x.0, Symbol(counter + |stats|))
  {
    assert (stats + [x])[..|stats|] == stats;
  }

  /**
   * The phrase at position `i` of `stats` reads `[C<counter + i>]`; every other
   * key keeps its old symbol, so an existing learned key is overwritten.
   */
  lemma {:induction false} LearnGet(learned: Dict<string>, stats: Dict<nat>, counter: int, k: string)
    requires DistinctKeys(learned) && DistinctKeys(stats)
    ensures DistinctKeys(Learn(learned, stats, counter))
    ensures Get(Learn(learned, stats, counter), k) == LearnedValue(learned, stats, counter, k)
    decreases |stats|
  {
    if stats != [] {
      var init, last := stats[..|stats| - 1], stats[|stats| - 1];
      assert DistinctKeys(init);
      LearnGet(learned, init, counter, k);
      PutGet(Learn(learned, init, counter), last.0, Symbol(counter + |stats| - 1), k);
      LearnedValueLast(learned, stats, counter, k);
    }
  }

  /** What `LearnGet` reads for `k`: the symbol of its position in `stats`, or its old symbol. */
  function LearnedValue(learned: Dict<string>, stats: Dict<nat>, counter: int, k: string): Option<string>
  {
    match Find(stats, k)
    case Some(i) => Some(Symbol(counter + i))
    case None => Get(learned, k)
  }

  lemma LearnedValueLast(learned: Dict<string>, stats: Dict<nat>, counter: int, k: string)
    requires stats != [] && DistinctKeys(stats)
    ensures LearnedValue(learned, stats, counter, k)
         == if k == stats[|stats| - 1].0 then Some(Symbol(counter + |stats| - 1))
            else LearnedValue(learned, stats[..|stats| - 1], counter, k)
  {
    var init, last := stats[..|stats| - 1], stats[|stats| - 1];
    FindAppend(init, last, k);
    assert stats == init + [last];
    if k == last.0 {
      assert !HasKey(init, k);
    }
  }

  /** What `analyze_corpus(texts, min_freq)` returns when `skip` is the built-in phrase table. */
  function CorpusStats(texts: seq<string>, skip: Dict<string>, minFreq: int): (stats: Dict<nat>)
    ensures |stats| <= 1000
  {
    Frequent(MostCommon(Tally(CorpusGrams(texts), skip), 1000), minFreq)
  }

  /**
   * Every returned phrase is a non-empty phrase of the corpus that is not a
   * key of `skip`, listed once, with its exact number of occurrences, which
   * is at least `minFreq`; the counts never increase down the list.
   */
  lemma CorpusStatsSound(texts: seq<string>, skip: Dict<string>, minFreq: int)
    ensures DistinctKeys(CorpusStats(texts, skip, minFreq))
    ensures Descending(CorpusStats(texts, skip, minFreq), CountRank)
    ensures forall x :: x in CorpusStats(texts, skip, minFreq) ==>
              |x.0| > 0 && x.0 in CorpusGrams(texts) && !HasKey(skip, x.0)
              && x.1 == multiset(CorpusGrams(texts))[x.0] && x.1 >= minFreq
  {
    var grams := CorpusGrams(texts);
    var counts := Tally(grams, skip);
    var top := MostCommon(counts, 1000);
    var stats := CorpusStats(texts, skip, minFreq);
    TallyCounts(grams, skip, "");
    MostCommonSpec(counts, 1000);
    CorpusGramsNonEmpty(texts);
    FrequentDistinct(top, minFreq);
    FrequentDescending(top, minFreq);
    forall x | x in stats
      ensures |x.0| > 0 && x.0 in grams && !HasKey(skip, x.0) && x.1 == multiset(grams)[x.0] && x.1 >= minFreq
    {
      FrequentMembers(top, minFreq, x);
      EntryCount(counts, x);
      TallyCounts(grams, skip, x.0);
    }
  }

  /**
   * When the corpus has at most 1000 distinct counted phrases, every phrase
   * that is not a key of `skip` and occurs at least `minFreq` times is
   * returned with its count.
   */
  lemma CorpusStatsComplete(texts: seq<string>, skip: Dict<string>, minFreq: int, g: string)
    requires |Tally(CorpusGrams(texts), skip)| <= 1000
    requires g in CorpusGrams(texts) && !HasKey(skip, g) && multiset(CorpusGrams(texts))[g] >= minFreq
    ensures (g, multiset(CorpusGrams(texts))[g]) in CorpusStats(texts, skip, minFreq)
  {
    var grams := CorpusGrams(texts);
    var counts := Tally(grams, skip);
    TallyCounts(grams, skip, g);
    var i :| 0 <= i < |counts| && counts[i].0 == g;
    EntryCount(counts, counts[i]);
    MostCommonAll(counts, 1000, counts[i]);
    FrequentMembers(MostCommon(counts, 1000), minFreq, counts[i]);
  }

  /** A counter with at most `n` entries loses none of them to `most_common(n)`. */
  lemma MostCommonAll(counts: Dict<nat>, n: nat, x: (string, nat))
    requires |counts| <= n
    ensures x in MostCommon(counts, n) <==> x in counts
  {
    var sorted := SortDesc(counts, CountRank);
    assert MostCommon(counts, n) == sorted;
    SortDescMembers(counts, CountRank, x);
  }

  /** The most common phrases of a corpus are distinct and non-empty. */
  lemma MostCommonPhrases(texts: seq<string>, skip: Dict<string>)
    ensures DistinctKeys(MostCommon(Tally(CorpusGrams(texts), skip), 1000))
    ensures forall x :: x in MostCommon(Tally(CorpusGrams(texts), skip), 1000) ==> |x.0| > 0
  {
    var grams := CorpusGrams(texts);
    var counts := Tally(grams, skip);
    TallyCounts(grams, skip, "");
    MostCommonSpec(counts, 1000);
    CorpusGramsNonEmpty(texts);
    forall x | x in MostCommon(counts, 1000) ensures |x.0| > 0 {
      TallyCounts(grams, skip, x.0);
    }
  }

  /** In a dict with distinct keys, an entry's value is what `counter[k]` reads. */
  lemma EntryCount(counts: Dict<nat>, x: (string, nat))
    requires DistinctKeys(counts) && x in counts
    ensures CountOf(counts, x.0) == x.1
  {
    var i :| 0 <= i < |counts| && counts[i] == x;
    FindDistinct(counts, i);
  }

  lemma {:induction false} FrequentDistinct(top: Dict<nat>, minFreq: int)
    requires DistinctKeys(top)
    ensures DistinctKeys(Frequent(top, minFreq))
    decreases |top|
  {
    if top != [] {
      var init, last := top[..|top| - 1], top[|top| - 1];
      FrequentDistinct(init, minFreq);
      forall x | x in Frequent(init, minFreq) ensures x.0 != last.0 {
        var j :| 0 <= j < |init| && init[j] == x;
        assert top[j] == x;
      }
    }
  }

  lemma {:induction false} FrequentDescending(top: Dict<nat>, minFreq: int)
    requires Descending(top, CountRank)
    ensures Descending(Frequent(top, minFreq), CountRank)
    decreases |top|
  {
    if top != [] {
      var init, last := top[..|top| - 1], top[|top| - 1];
      assert Descending(init, CountRank);
      FrequentDescending(init, minFreq);
      forall x | x in Frequent(init, minFreq) ensures x.1 >= last.1 {
        var j :| 0 <= j < |init| && init[j] == x;
        assert top[j] == x;
      }
    }
  }
}
