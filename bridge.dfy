/**
 * `StenogressiveBridge` and its subclass `ProductionBridge`
 * (weekend-prototype.py): one table of phrases and bracketed symbols,
 * applied with plain `str.replace` (no word boundaries), longest phrase
 * first; token statistics; an online phrase learner whose frequency table
 * persists across calls; and a cache of compression results.
 */
module Bridge {
  import opened Text
  import opened Dicts
  import opened Rewrite
  import opened Ratios
  import opened Corpus
  import opened BridgeTables

  function KeyLength(e: (string, string)): int { |e.0| }

  /** `sorted(compressions.items(), key=lambda x: len(x[0]), reverse=True)`. */
  function SortByLength(d: Dict<string>): (sorted: Dict<string>)
    ensures multiset(sorted) == multiset(d)
    ensures Descending(sorted, KeyLength)
    ensures NonEmptyEntries(d) ==> NonEmptyEntries(sorted)
  {
    SortDescSpec(d, KeyLength, 0);
    var sorted := SortDesc(d, KeyLength);
    assert forall x :: x in sorted ==> x in d by {
      forall x | x in sorted ensures x in d {
        SortDescMembers(d, KeyLength, x);
      }
    }
    sorted
  }

  /** The inverse table keeps every entry non-empty. */
  lemma InvertNonEmpty(d: Dict<string>)
    requires NonEmptyEntries(d)
    ensures NonEmptyEntries(Invert(d))
  {
    forall x | x in Invert(d) ensures |x.0| > 0 && |x.1| > 0 {
      InvertMembers(d, x);
    }
  }

  /** The three passes of `compress` for one pattern: as written, `capitalize()`d and `upper()`ed. */
  function PatternRules(e: (string, string)): (rules: seq<Rule>)
    requires |e.0| > 0
    ensures AllWellFormed(rules)
  {
    [Literal(e.0, e.1), Literal(Capitalize(e.0), e.1), Literal(Upper(e.0), e.1)]
  }

  /** Every pass of `compress`, pattern by pattern in the sorted order. */
  function CompressRules(sorted: Dict<string>): (rules: seq<Rule>)
    requires NonEmptyEntries(sorted)
    ensures AllWellFormed(rules) && |rules| == 3 * |sorted|
    decreases |sorted|
  {
    if sorted == [] then []
    else
      var init, last := sorted[..|sorted| - 1], sorted[|sorted| - 1];
      assert forall x :: x in init ==> x in sorted;
      assert last in sorted;
      ApplyAllConcat([], CompressRules(init), PatternRules(last));
      CompressRules(init) + PatternRules(last)
  }

  lemma {:induction false} CompressRulesNonEmpty(sorted: Dict<string>)
    requires NonEmptyEntries(sorted)
    ensures NonEmptyTokens(CompressRules(sorted))
    decreases |sorted|
  {
    if sorted != [] {
      var init, last := sorted[..|sorted| - 1], sorted[|sorted| - 1];
      assert forall x :: x in init ==> x in sorted;
      assert last in sorted;
      CompressRulesNonEmpty(init);
    }
  }

  /** Each symbol shorter than its pattern makes every pass of `compress` shorten what it replaces. */
  lemma {:induction false} CompressRulesShrinking(sorted: Dict<string>)
    requires NonEmptyEntries(sorted) && Abbreviating(sorted)
    ensures Shrinking(CompressRules(sorted))
    decreases |sorted|
  {
    if sorted != [] {
      var init, last := sorted[..|sorted| - 1], sorted[|sorted| - 1];
      assert forall x :: x in init ==> x in sorted;
      assert last in sorted;
      CompressRulesShrinking(init);
    }
  }

  /** The text `compress` returns. */
  function CompressText(sorted: Dict<string>, text: string): (compressed: string)
    requires NonEmptyEntries(sorted)
    ensures compressed == [] <==> text == []
  {
    CompressRulesNonEmpty(sorted);
    ApplyAllEmpty(text, CompressRules(sorted));
    ApplyAll(text, CompressRules(sorted))
  }

  /** The passes of `decompress`: each symbol back to its pattern, in the order of `decompressions`. */
  function DecompressRules(decomp: Dict<string>): (rules: seq<Rule>)
    requires NonEmptyEntries(decomp)
    ensures AllWellFormed(rules) && NonEmptyTokens(rules) && |rules| == |decomp|
    ensures forall i :: 0 <= i < |decomp| ==> rules[i] == Literal(decomp[i].0, decomp[i].1)
  {
    assert forall i :: 0 <= i < |decomp| ==> decomp[i] in decomp;
    seq(|decomp|, i requires 0 <= i < |decomp| => Literal(decomp[i].0, decomp[i].1))
  }

  /** The text `decompress` returns. */
  function DecompressText(decomp: Dict<string>, text: string): (r: string)
    requires NonEmptyEntries(decomp)
    ensures r == [] <==> text == []
  {
    ApplyAllEmpty(text, DecompressRules(decomp));
    ApplyAll(text, DecompressRules(decomp))
  }

  /** No phrase of the built-in table appears twice. */
  lemma BridgeKeysDistinct()
    ensures forall i, j | 0 <= i < j < |BridgeDict| :: BridgeDict[i].0 != BridgeDict[j].0
  {
    KeysDistinctBelow4();
    KeysDistinctBelow8();
    KeysDistinctBelow18();
    KeysDistinctFrom18();
  }

  /** The phrases before position 4 differ from every later one. */
  lemma KeysDistinctBelow4()
    ensures forall i, j | 0 <= i < 4 && i < j < |BridgeDict| :: BridgeDict[i].0 != BridgeDict[j].0
  {
  }

  /** The phrases in positions 4 to 7 differ from every later one. */
  lemma KeysDistinctBelow8()
    ensures forall i, j | 4 <= i < 8 && i < j < |BridgeDict| :: BridgeDict[i].0 != BridgeDict[j].0
  {
  }

  /** The phrases in positions 8 to 17 differ from every later one. */
  lemma KeysDistinctBelow18()
    ensures forall i, j | 8 <= i < 18 && i < j < |BridgeDict| :: BridgeDict[i].0 != BridgeDict[j].0
  {
  }

  /** The phrases from position 18 on differ from every later one. */
  lemma KeysDistinctFrom18()
    ensures forall i, j | 18 <= i && i < j < |BridgeDict| :: BridgeDict[i].0 != BridgeDict[j].0
  {
  }

  /** No symbol of the built-in table appears twice. */
  lemma BridgeSymbolsDistinct()
    ensures forall i, j | 0 <= i < j < |BridgeDict| :: BridgeDict[i].1 != BridgeDict[j].1
  {
    SymbolsDistinctBelow4();
    SymbolsDistinctBelow8();
    SymbolsDistinctBelow18();
    SymbolsDistinctFrom18();
  }

  /** The symbols before position 4 differ from every later one. */
  lemma SymbolsDistinctBelow4()
    ensures forall i, j | 0 <= i < 4 && i < j < |BridgeDict| :: BridgeDict[i].1 != BridgeDict[j].1
  {
  }

  /** The symbols in positions 4 to 7 differ from every later one. */
  lemma SymbolsDistinctBelow8()
    ensures forall i, j | 4 <= i < 8 && i < j < |BridgeDict| :: BridgeDict[i].1 != BridgeDict[j].1
  {
  }

  /** The symbols in positions 8 to 17 differ from every later one. */
  lemma SymbolsDistinctBelow18()
    ensures forall i, j | 8 <= i < 18 && i < j < |BridgeDict| :: BridgeDict[i].1 != BridgeDict[j].1
  {
  }

  /** The symbols from position 18 on differ from every later one. */
  lemma SymbolsDistinctFrom18()
    ensures forall i, j | 18 <= i && i < j < |BridgeDict| :: BridgeDict[i].1 != BridgeDict[j].1
  {
  }

  /** The built-in table: no empty entry, no phrase or symbol twice, every symbol shorter than its phrase. */
  lemma BridgeDictValid()
    ensures NonEmptyEntries(BridgeDict) && Abbreviating(BridgeDict)
    ensures DistinctKeys(BridgeDict) && DistinctValues(BridgeDict)
  {
    forall i | 0 <= i < |BridgeDict|
      ensures |BridgeDict[i].0| > 0 && |BridgeDict[i].1| > 0 && |BridgeDict[i].1| < |BridgeDict[i].0|
    {
    }
    BridgeKeysDistinct();
    BridgeSymbolsDistinct();
  }

  /** With the built-in table, `decompressions` lists every symbol and its phrase in table order. */
  lemma BuiltinDecompressions()
    ensures Invert(BridgeDict) == Swapped(BridgeDict)
    ensures DistinctKeys(Invert(BridgeDict))
  {
    BridgeDictValid();
    InvertDistinct(BridgeDict);
  }

  /** When every symbol is shorter than its phrase, `compress` never lengthens the text. */
  lemma CompressNotLonger(sorted: Dict<string>, text: string)
    requires NonEmptyEntries(sorted) && Abbreviating(sorted)
    ensures |CompressText(sorted, text)| <= |text|
    ensures |CompressText(sorted, text)| == |text| ==> CompressText(sorted, text) == text
    ensures Ratio(|text|, |CompressText(sorted, text)|) >= 1.0
  {
    CompressRulesShrinking(sorted);
    ApplyAllShrinking(text, CompressRules(sorted));
  }

  /**
   * Sorting keeps the table's pairs, so a bridge whose every symbol is
   * shorter than its phrase (the built-in one among them, by
   * `BridgeDictValid`) never lengthens a text.
   */
  lemma SortedCompressNotLonger(d: Dict<string>, text: string)
    requires NonEmptyEntries(d) && Abbreviating(d)
    ensures NonEmptyEntries(SortByLength(d))
    ensures |CompressText(SortByLength(d), text)| <= |text|
    ensures Ratio(|text|, |CompressText(SortByLength(d), text)|) >= 1.0
  {
    var sorted := SortByLength(d);
    assert forall x :: x in sorted ==> x in multiset(d);
    CompressNotLonger(sorted, text);
  }

  /** `f"[L{n}]"`, the symbol `learn_from_text` gives its `n`-th table entry. */
  function LearnedSymbol(n: int): (sym: string)
    ensures |sym| >= 4 && sym[..2] == "[L" && sym[|sym| - 1] == ']'
    ensures '0' <= sym[2] <= '9' || sym[2] == '-'
  {
    "[L" + Decimal(n) + "]"
  }

  /** Different table sizes give different symbols. */
  lemma LearnedSymbolInjective(m: int, n: int)
    requires m != n
    ensures LearnedSymbol(m) != LearnedSymbol(n)
  {
    DecimalInjective(m, n);
    var a, b := LearnedSymbol(m), LearnedSymbol(n);
    assert a[2..|a| - 1] == Decimal(m);
    assert b[2..|b| - 1] == Decimal(n);
  }

  /** The learner's two tables: `compressions` and `pattern_frequency`. */
  datatype Learner = Learner(compressions: Dict<string>, frequency: Dict<nat>)

  /**
   * One phrase seen by `learn_from_text`: a phrase already in the table is
   * skipped; otherwise its count goes up by one and, once the count reaches
   * `minFreq`, it joins the table with the next `[L<n>]` symbol.
   */
  function Observe(st: Learner, phrase: string, minFreq: int): (r: Learner)
  {
    if HasKey(st.compressions, phrase) then st
    else
      var count := CountOf(st.frequency, phrase) + 1;
      var frequency := Put(st.frequency, phrase, count);
      if count >= minFreq then Learner(Put(st.compressions, phrase, LearnedSymbol(|st.compressions|)), frequency)
      else Learner(st.compressions, frequency)
  }

  /** The learner after seeing `phrases` in turn. */
  function ObserveAll(st: Learner, phrases: seq<string>, minFreq: int): (r: Learner)
    decreases |phrases|
  {
    if phrases == [] then st
    else Observe(ObserveAll(st, phrases[..|phrases| - 1], minFreq), phrases[|phrases| - 1], minFreq)
  }

  /** Seeing `a` and then `b` is seeing `a + b`. */
  lemma {:induction false} ObserveAllConcat(st: Learner, a: seq<string>, b: seq<string>, minFreq: int)
    ensures ObserveAll(st, a + b, minFreq) == ObserveAll(ObserveAll(st, a, minFreq), b, minFreq)
    decreases |b|
  {
    if b == [] {
      assert a + b == a;
    } else {
      var ab := a + b;
      assert ab[..|ab| - 1] == a + b[..|b| - 1];
      assert ab[|ab| - 1] == b[|b| - 1];
      ObserveAllConcat(st, a, b[..|b| - 1], minFreq);
    }
  }

  /** Seeing one more phrase. */
  lemma ObserveAllSnoc(st: Learner, a: seq<string>, x: string, minFreq: int)
    ensures ObserveAll(st, a + [x], minFreq) == Observe(ObserveAll(st, a, minFreq), x, minFreq)
  {
    assert (a + [x])[..|a|] == a;
  }

  /** The phrases `learn_from_text` looks at: every 2- to 5-word phrase of the lower-cased words, shortest first. */
  function LearnPhrases(text: string): (phrases: seq<string>)
    ensures forall k :: 0 <= k < |phrases| ==> |phrases[k]| > 0
  {
    GramsBelowNonEmpty(Words(text), 6);
    GramsBelow(Words(text), 6)
  }

  /** The learner's tables are dicts, and every entry of the phrase table is non-empty. */
  predicate LearnerValid(st: Learner) {
    DistinctKeys(st.compressions) && DistinctKeys(st.frequency) && NonEmptyEntries(st.compressions)
  }

  /** One phrase: the table grows by at most that phrase, with the symbol `[L<its position>]`. */
  lemma ObserveGrows(st: Learner, g: string, minFreq: int)
    requires LearnerValid(st) && |g| > 0
    ensures LearnerValid(Observe(st, g, minFreq))
    ensures Observe(st, g, minFreq).compressions == st.compressions
         || Observe(st, g, minFreq).compressions == st.compressions + [(g, LearnedSymbol(|st.compressions|))]
  {
    if !HasKey(st.compressions, g) {
      var count := CountOf(st.frequency, g) + 1;
      PutDistinct(st.frequency, g, count);
      if count >= minFreq {
        AppendValid(st.compressions, g, LearnedSymbol(|st.compressions|));
      }
    }
  }

  /** Appending a new non-empty phrase with a non-empty symbol keeps a table valid. */
  lemma AppendValid(d: Dict<string>, g: string, sym: string)
    requires NonEmptyEntries(d) && DistinctKeys(d) && !HasKey(d, g) && |g| > 0 && |sym| > 0
    ensures NonEmptyEntries(d + [(g, sym)]) && DistinctKeys(d + [(g, sym)])
    ensures Put(d, g, sym) == d + [(g, sym)]
  {
    PutDistinct(d, g, sym);
  }

  /**
   * The phrase table only grows: old entries keep their place, and each new
   * entry is a phrase that was seen, with the symbol `[L<its position>]`.
   */
  lemma {:induction false} LearnGrows(st: Learner, phrases: seq<string>, minFreq: int)
    requires LearnerValid(st)
    requires forall k :: 0 <= k < |phrases| ==> |phrases[k]| > 0
    ensures LearnerValid(ObserveAll(st, phrases, minFreq))
    ensures |ObserveAll(st, phrases, minFreq).compressions| >= |st.compressions|
    ensures ObserveAll(st, phrases, minFreq).compressions[..|st.compressions|] == st.compressions
    ensures forall j :: |st.compressions| <= j < |ObserveAll(st, phrases, minFreq).compressions| ==>
              ObserveAll(st, phrases, minFreq).compressions[j].0 in phrases
              && ObserveAll(st, phrases, minFreq).compressions[j].1 == LearnedSymbol(j)
    decreases |phrases|
  {
    if phrases != [] {
      var init, g := phrases[..|phrases| - 1], phrases[|phrases| - 1];
      LearnGrows(st, init, minFreq);
      var mid := ObserveAll(st, init, minFreq);
      ObserveGrows(mid, g, minFreq);
      assert phrases == init + [g];
      GrowsStep(st.compressions, mid.compressions, Observe(mid, g, minFreq).compressions, init, g);
    }
  }

  /** A table that grew from `c0` by learned phrases of `init` grows by at most `g` more. */
  lemma GrowsStep(c0: Dict<string>, c1: Dict<string>, c2: Dict<string>, init: seq<string>, g: string)
    requires |c1| >= |c0| && c1[..|c0|] == c0
    requires forall j :: |c0| <= j < |c1| ==> c1[j].0 in init && c1[j].1 == LearnedSymbol(j)
    requires c2 == c1 || c2 == c1 + [(g, LearnedSymbol(|c1|))]
    ensures |c2| >= |c0| && c2[..|c0|] == c0
    ensures forall j :: |c0| <= j < |c2| ==> c2[j].0 in init + [g] && c2[j].1 == LearnedSymbol(j)
  {
    assert c2[..|c1|] == c1;
    assert c2[..|c0|] == c1[..|c0|];
    forall j | |c0| <= j < |c2| ensures c2[j].0 in init + [g] && c2[j].1 == LearnedSymbol(j) {
      if j < |c1| {
        assert c2[j] == c1[j];
      }
    }
  }

  /**
   * Learned symbols are new: when no symbol of the table reads `[L<n>]` for
   * a position `n` past its end, every symbol stays distinct after learning.
   */
  lemma LearnTokensDistinct(st: Learner, phrases: seq<string>, minFreq: int)
    requires LearnerValid(st) && DistinctValues(st.compressions)
    requires forall k :: 0 <= k < |phrases| ==> |phrases[k]| > 0
    requires forall i, n :: 0 <= i < |st.compressions| <= n ==> st.compressions[i].1 != LearnedSymbol(n)
    ensures DistinctValues(ObserveAll(st, phrases, minFreq).compressions)
  {
    LearnGrows(st, phrases, minFreq);
    var c := ObserveAll(st, phrases, minFreq).compressions;
    var base := |st.compressions|;
    forall i, j | 0 <= i < j < |c| ensures c[i].1 != c[j].1 {
      if j < base {
        assert c[i] == st.compressions[i] && c[j] == st.compressions[j];
      } else if i < base {
        assert c[i] == st.compressions[i];
      } else {
        LearnedSymbolInjective(i, j);
      }
    }
  }

  /** Every built-in symbol is short, does not open with `[L`, or (as `[LLM]`) has no digit after it. */
  lemma BuiltinSymbolShapes()
    ensures forall i :: 0 <= i < |BridgeDict| ==>
              |BridgeDict[i].1| < 4 || BridgeDict[i].1[1] != 'L' || BridgeDict[i].1[2] == 'L'
  {
  }

  /** No built-in symbol has the shape `[L<n>]`. */
  lemma BuiltinNotLearnedSymbols()
    ensures forall i, n :: 0 <= i < |BridgeDict| ==> BridgeDict[i].1 != LearnedSymbol(n)
  {
    BuiltinSymbolShapes();
    forall i, n | 0 <= i < |BridgeDict| ensures BridgeDict[i].1 != LearnedSymbol(n) {
      var sym := LearnedSymbol(n);
      assert sym[1] == sym[..2][1] == 'L';
    }
  }

  function Max(a: int, b: int): int { if a >= b then a else b }

  /**
   * Where phrase `g` stands after `seen` sightings on top of an old count
   * `c0`: in the table with its count frozen at the larger of `minFreq` and
   * `c0 + 1` once it has been seen and `c0 + seen` reached `minFreq`, and
   * otherwise outside the table with count `c0 + seen`.
   */
  predicate Standing(r: Learner, g: string, c0: nat, seen: nat, minFreq: int) {
    if seen > 0 && c0 + seen >= minFreq
    then HasKey(r.compressions, g) && CountOf(r.frequency, g) == Max(minFreq, c0 + 1)
    else !HasKey(r.compressions, g) && CountOf(r.frequency, g) == c0 + seen
  }

  lemma ObserveStanding(r: Learner, x: string, minFreq: int, g: string, c0: nat, seen: nat)
    requires LearnerValid(r) && Standing(r, g, c0, seen, minFreq)
    ensures Standing(Observe(r, x, minFreq), g, c0, seen + if x == g then 1 else 0, minFreq)
  {
    if HasKey(r.compressions, x) {
      assert Observe(r, x, minFreq) == r;
      if x == g {
        assert seen > 0 && c0 + seen >= minFreq;
      }
    } else if x != g {
      ObserveOther(r, x, minFreq, g);
    } else {
      ObserveSame(r, g, minFreq);
    }
  }

  /** Seeing another phrase leaves `g`'s standing alone. */
  lemma ObserveOther(r: Learner, x: string, minFreq: int, g: string)
    requires LearnerValid(r) && !HasKey(r.compressions, x) && x != g
    ensures HasKey(Observe(r, x, minFreq).compressions, g) == HasKey(r.compressions, g)
    ensures CountOf(Observe(r, x, minFreq).frequency, g) == CountOf(r.frequency, g)
  {
    assert Observe(r, x, minFreq).frequency == Count(r.frequency, x, []);
    CountGet(r.frequency, x, [], g);
    PutHasKey(r.compressions, x, LearnedSymbol(|r.compressions|), g);
  }

  /** Seeing `g` outside the table counts it once, and it joins once the count reaches `minFreq`. */
  lemma ObserveSame(r: Learner, g: string, minFreq: int)
    requires LearnerValid(r) && !HasKey(r.compressions, g)
    ensures HasKey(Observe(r, g, minFreq).compressions, g) == (CountOf(r.frequency, g) + 1 >= minFreq)
    ensures CountOf(Observe(r, g, minFreq).frequency, g) == CountOf(r.frequency, g) + 1
  {
    var after := Observe(r, g, minFreq);
    assert after.frequency == Count(r.frequency, g, []);
    CountGet(r.frequency, g, [], g);
    if CountOf(r.frequency, g) + 1 >= minFreq {
      PutHasKey(r.compressions, g, LearnedSymbol(|r.compressions|), g);
    } else {
      assert after.compressions == r.compressions;
    }
  }

  /**
   * A phrase not yet in the table joins it exactly when it is seen and its
   * running count reaches `minFreq`; from then on it is skipped, so its count
   * stops at the larger of `minFreq` and its old count plus one. A phrase
   * that does not join is counted once per occurrence.
   */
  lemma {:induction false} LearnThreshold(st: Learner, phrases: seq<string>, minFreq: int, g: string)
    requires LearnerValid(st) && !HasKey(st.compressions, g)
    requires forall k :: 0 <= k < |phrases| ==> |phrases[k]| > 0
    ensures Standing(ObserveAll(st, phrases, minFreq), g, CountOf(st.frequency, g), multiset(phrases)[g], minFreq)
    decreases |phrases|
  {
    if phrases != [] {
      var init, last := phrases[..|phrases| - 1], phrases[|phrases| - 1];
      assert phrases == init + [last];
      assert multiset(phrases)[g] == multiset(init)[g] + (if last == g then 1 else 0);
      LearnThreshold(st, init, minFreq, g);
      LearnGrows(st, init, minFreq);
      ObserveStanding(ObserveAll(st, init, minFreq), last, minFreq, g, CountOf(st.frequency, g), multiset(init)[g]);
    }
  }

  /** The loop of `compress` over the sorted table: each pattern as written, capitalised and upper-cased. */
  method ReplacePatterns(sorted: Dict<string>, text: string) returns (compressed: string)
    requires NonEmptyEntries(sorted)
    ensures compressed == CompressText(sorted, text)
  {
    compressed := text;
    for k := 0 to |sorted|
      invariant NonEmptyEntries(sorted[..k])
      invariant compressed == ApplyAll(text, CompressRules(sorted[..k]))
    {
      var (pattern, symbol) := sorted[k];
      CompressRulesStep(text, sorted, k);
      compressed := Apply(compressed, Literal(pattern, symbol));
      compressed := Apply(compressed, Literal(Capitalize(pattern), symbol));
      compressed := Apply(compressed, Literal(Upper(pattern), symbol));
    }
    assert sorted[..|sorted|] == sorted;
  }

  /** One more pattern of the sorted table: its three passes after those of the patterns before it. */
  lemma CompressRulesStep(text: string, sorted: Dict<string>, k: nat)
    requires NonEmptyEntries(sorted) && k < |sorted|
    ensures NonEmptyEntries(sorted[..k]) && NonEmptyEntries(sorted[..k + 1]) && |sorted[k].0| > 0
    ensures ApplyAll(text, CompressRules(sorted[..k + 1]))
         == Apply(Apply(Apply(ApplyAll(text, CompressRules(sorted[..k])), Literal(sorted[k].0, sorted[k].1)),
                        Literal(Capitalize(sorted[k].0), sorted[k].1)),
                  Literal(Upper(sorted[k].0), sorted[k].1))
  {
    assert sorted[k] in sorted;
    assert forall x :: x in sorted[..k + 1] ==> x in sorted;
    assert sorted[..k + 1][..k] == sorted[..k];
    ApplyAllConcat(text, CompressRules(sorted[..k]), PatternRules(sorted[k]));
    ApplyAllThree(ApplyAll(text, CompressRules(sorted[..k])), PatternRules(sorted[k]));
  }

  /** The inner loop of `learn_from_text`: every `n`-word phrase of `words`, in order. */
  method ObserveNgrams(st: Learner, words: seq<string>, n: nat, minFrequency: int) returns (r: Learner)
    requires n > 0
    ensures r == ObserveAll(st, Ngrams(words, n), minFrequency)
  {
    ghost var ngrams := Ngrams(words, n);
    r := st;
    var i := 0;
    while i + n <= |words|
      invariant 0 <= i <= |ngrams|
      invariant r == ObserveAll(st, ngrams[..i], minFrequency)
    {
      var phrase := Join(words[i..i + n]);
      NgramStep(st, words, n, i, minFrequency);
      ghost var before := r;
      if !HasKey(r.compressions, phrase) {
        var count := CountOf(r.frequency, phrase) + 1;
        var frequency := Put(r.frequency, phrase, count);
        if count >= minFrequency {
          r := Learner(Put(r.compressions, phrase, LearnedSymbol(|r.compressions|)), frequency);
        } else {
          r := Learner(r.compressions, frequency);
        }
      }
      assert r == Observe(before, phrase, minFrequency);
      i := i + 1;
    }
    assert ngrams[..i] == ngrams;
  }

  /** Seeing the phrase that starts at word `i` extends the phrases seen so far by one. */
  lemma NgramStep(st: Learner, words: seq<string>, n: nat, i: nat, minFreq: int)
    requires n > 0 && i + n <= |words|
    ensures i < |Ngrams(words, n)|
    ensures ObserveAll(st, Ngrams(words, n)[..i + 1], minFreq)
         == Observe(ObserveAll(st, Ngrams(words, n)[..i], minFreq), Join(words[i..i + n]), minFreq)
  {
    var ngrams := Ngrams(words, n);
    assert ngrams[i] == Join(words[i..i + n]);
    assert ngrams[..i + 1] == ngrams[..i] + [ngrams[i]];
    ObserveAllSnoc(st, ngrams[..i], ngrams[i], minFreq);
  }

  /** What `compress` returns for `text` with the sorted table `sorted`: the text and its ratio. */
  function CompressResult(sorted: Dict<string>, text: string): (r: (string, real))
    requires NonEmptyEntries(sorted)
    ensures r.0 == [] <==> text == []
    ensures r.1 * |r.0| as real == |text| as real || text == []
  {
    var compressed := CompressText(sorted, text);
    (compressed, Ratio(|text|, |compressed|))
  }

  /**
   * The bridge's invariant: the learner's tables are dicts; `loaded`, the
   * table `sorted` and `decomp` were built from, is a prefix of the current
   * table (learning only appends); and every cached result is what
   * `compress` gives for its text.
   */
  ghost predicate Consistent(compressions: Dict<string>, frequency: Dict<nat>, loaded: Dict<string>,
                             sorted: Dict<string>, decomp: Dict<string>, cache: map<string, (string, real)>)
  {
    LearnerValid(Learner(compressions, frequency))
    && |loaded| <= |compressions| && compressions[..|loaded|] == loaded
    && NonEmptyEntries(loaded)
    && sorted == SortByLength(loaded)
    && decomp == Invert(loaded)
    && NonEmptyEntries(decomp)
    && (forall t :: t in cache ==> cache[t] == CompressResult(sorted, t))
  }

  /** A table just loaded, sorted and inverted, with nothing counted or cached yet, meets the invariant. */
  lemma FreshConsistent(d: Dict<string>)
    requires NonEmptyEntries(d) && DistinctKeys(d)
    ensures Consistent(d, [], d, SortByLength(d), Invert(d), map[])
  {
    InvertNonEmpty(d);
    assert d[..|d|] == d;
  }

  /** Learning keeps the invariant: it only appends to the table and touches nothing else. */
  lemma LearnConsistent(st: Learner, phrases: seq<string>, minFreq: int, loaded: Dict<string>,
                        sorted: Dict<string>, decomp: Dict<string>, cache: map<string, (string, real)>)
    requires Consistent(st.compressions, st.frequency, loaded, sorted, decomp, cache)
    requires forall k :: 0 <= k < |phrases| ==> |phrases[k]| > 0
    ensures Consistent(ObserveAll(st, phrases, minFreq).compressions, ObserveAll(st, phrases, minFreq).frequency,
                       loaded, sorted, decomp, cache)
  {
    LearnGrows(st, phrases, minFreq);
    var c := ObserveAll(st, phrases, minFreq).compressions;
    assert c[..|loaded|] == c[..|st.compressions|][..|loaded|];
  }

  /** `CompressionStats`: the two token counters and `compression_ratio`. */
  class CompressionStats {
    var originalTokens: nat
    var compressedTokens: nat

    constructor ()
      ensures originalTokens == 0 && compressedTokens == 0
    {
      originalTokens := 0;
      compressedTokens := 0;
    }

    /** `original_tokens / compressed_tokens`, or 1.0 while nothing has been compressed. */
    function CompressionRatio(): (r: real)
      reads this
      ensures compressedTokens == 0 ==> r == 1.0
      ensures compressedTokens > 0 ==> r * compressedTokens as real == originalTokens as real
      ensures compressedTokens > 0 ==> (r >= 1.0 <==> compressedTokens <= originalTokens)
    {
      Ratio(originalTokens, compressedTokens)
    }
  }

  /**
   * A bridge: `StenogressiveBridge`'s tables and statistics together with
   * `ProductionBridge`'s cache and phrase counts. `loaded` is the table as
   * it stood when `sortedCompressions` and `decompressions` were built from
   * it; learning appends to `compressions` only.
   */
  class Bridge {
    var compressions: Dict<string>
    var sortedCompressions: Dict<string>
    var decompressions: Dict<string>
    const stats: CompressionStats
    var compressionCache: map<string, (string, real)>
    var patternFrequency: Dict<nat>
    ghost var loaded: Dict<string>

    ghost predicate Valid()
      reads this
    {
      Consistent(compressions, patternFrequency, loaded, sortedCompressions, decompressions, compressionCache)
    }

    /** `StenogressiveBridge()`: the built-in table, sorted and inverted, and zeroed statistics. */
    constructor ()
      ensures Valid() && fresh(stats)
      ensures loaded == compressions
      ensures sortedCompressions == SortByLength(compressions) && decompressions == Invert(compressions)
      ensures stats.originalTokens == 0 && stats.compressedTokens == 0
      ensures compressionCache == map[] && patternFrequency == []
      ensures compressions == BridgeDict
    {
      // The table entry by entry: the solver then reasons about the sort and the inverse of a
      // table it knows by its entries, rather than evaluating them on the 32-entry literal.
      var table: Dict<string> :| |table| == |BridgeDict| && forall i :: 0 <= i < |table| ==> table[i] == BridgeDict[i];
      BridgeDictValid();
      FreshConsistent(table);
      compressions := table;
      sortedCompressions := SortByLength(table);
      decompressions := Invert(table);
      stats := new CompressionStats();
      compressionCache := map[];
      patternFrequency := [];
      loaded := table;
    }

    /**
     * `ProductionBridge()`: the built-in table merged with the saved
     * patterns `saved` (the empty dict when there is no pattern file), then
     * sorted and inverted again; an empty cache and no phrase counts.
     */
    constructor Production(saved: Dict<string>)
      requires NonEmptyEntries(saved) && DistinctKeys(saved)
      ensures Valid() && fresh(stats)
      ensures compressions == Update(BridgeDict, saved) && loaded == compressions
      ensures sortedCompressions == SortByLength(compressions) && decompressions == Invert(compressions)
      ensures stats.originalTokens == 0 && stats.compressedTokens == 0
      ensures compressionCache == map[] && patternFrequency == []
    {
      BridgeDictValid();
      var merged := Update(BridgeDict, saved);
      UpdateDistinct(BridgeDict, saved);
      forall x | x in merged ensures |x.0| > 0 && |x.1| > 0 {
        UpdateMembers(BridgeDict, saved, x);
      }
      FreshConsistent(merged);
      compressions := merged;
      sortedCompressions := SortByLength(merged);
      decompressions := Invert(merged);
      stats := new CompressionStats();
      compressionCache := map[];
      patternFrequency := [];
      loaded := merged;
    }

    /**
     * `compress(text)`: every pattern, longest first, replaced as written,
     * capitalised and upper-cased; the ratio; and a quarter of each length
     * (rounded down) added to the token counters.
     */
    method Compress(text: string) returns (compressed: string, ratio: real)
      requires Valid()
      modifies stats
      ensures (compressed, ratio) == CompressResult(sortedCompressions, text)
      ensures stats.originalTokens == old(stats.originalTokens) + |text| / 4
      ensures stats.compressedTokens == old(stats.compressedTokens) + |compressed| / 4
    {
      compressed := ReplacePatterns(sortedCompressions, text);
      ratio := if |compressed| > 0 then |text| as real / |compressed| as real else 1.0;
      stats.originalTokens := stats.originalTokens + |text| / 4;
      stats.compressedTokens := stats.compressedTokens + |compressed| / 4;
    }

    /** `decompress(text)`: every symbol back to its pattern, in the order of `decompressions`. */
    method Decompress(text: string) returns (decompressed: string)
      requires Valid()
      ensures decompressed == DecompressText(decompressions, text)
    {
      ghost var rules := DecompressRules(decompressions);
      decompressed := text;
      for k := 0 to |decompressions|
        invariant decompressed == ApplyAll(text, rules[..k])
      {
        var (symbol, pattern) := decompressions[k];
        ApplyAllStep(text, rules, k);
        decompressed := Apply(decompressed, Literal(symbol, pattern));
      }
      assert rules[..|rules|] == rules;
    }

    /**
     * `learn_from_text(text, min_frequency)`: counts the 2- to 5-word
     * phrases of the lower-cased text in `patternFrequency` and adds those
     * that reach `minFrequency` to `compressions`; the sorted table, the
     * inverse table and the cache are left as they are.
     */
    method LearnFromText(text: string, minFrequency: int := 3)
      requires Valid()
      modifies this
      ensures Valid()
      ensures Learner(compressions, patternFrequency)
           == ObserveAll(old(Learner(compressions, patternFrequency)), LearnPhrases(text), minFrequency)
      ensures sortedCompressions == old(sortedCompressions) && decompressions == old(decompressions)
      ensures compressionCache == old(compressionCache) && loaded == old(loaded)
    {
      ghost var start := Learner(compressions, patternFrequency);
      var words := Words(text);
      var st := Learner(compressions, patternFrequency);
      for n := 2 to 6
        invariant unchanged(this)
        invariant st == ObserveAll(start, GramsBelow(words, n), minFrequency)
      {
        st := ObserveNgrams(st, words, n, minFrequency);
        ObserveAllConcat(start, GramsBelow(words, n), Ngrams(words, n), minFrequency);
      }
      LearnConsistent(start, LearnPhrases(text), minFrequency, loaded, sortedCompressions, decompressions, compressionCache);
      compressions, patternFrequency := st.compressions, st.frequency;
    }

    /**
     * `compress_with_cache(text)`: the cached result when there is one, with
     * the statistics untouched; otherwise `compress(text)`, which is then
     * cached.
     */
    method CompressWithCache(text: string) returns (compressed: string, ratio: real)
      requires Valid()
      modifies this, stats
      ensures Valid()
      ensures (compressed, ratio) == CompressResult(sortedCompressions, text)
      ensures text in old(compressionCache) ==>
                compressionCache == old(compressionCache)
                && stats.originalTokens == old(stats.originalTokens) && stats.compressedTokens == old(stats.compressedTokens)
      ensures text !in old(compressionCache) ==>
                compressionCache == old(compressionCache)[text := (compressed, ratio)]
                && stats.originalTokens == old(stats.originalTokens) + |text| / 4
                && stats.compressedTokens == old(stats.compressedTokens) + |compressed| / 4
      ensures compressions == old(compressions) && patternFrequency == old(patternFrequency)
      ensures sortedCompressions == old(sortedCompressions) && decompressions == old(decompressions)
    {
      if text in compressionCache {
        compressed, ratio := compressionCache[text].0, compressionCache[text].1;
      } else {
        compressed, ratio := Compress(text);
        compressionCache := compressionCache[text := (compressed, ratio)];
      }
    }
  }

  /** Three passes in a row. */
  lemma ApplyAllThree(s: string, rules: seq<Rule>)
    requires AllWellFormed(rules) && |rules| == 3
    ensures ApplyAll(s, rules) == Apply(Apply(Apply(s, rules[0]), rules[1]), rules[2])
  {
    assert rules[..0] == [];
    ApplyAllStep(s, rules, 0);
    ApplyAllStep(s, rules, 1);
    ApplyAllStep(s, rules, 2);
    assert rules[..3] == rules;
  }
}
