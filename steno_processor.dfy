/**
 * `StenographicProcessor` (steno-processor.py): dictionary-driven text
 * compression with three tables (multi-word phrases, word suffixes,
 * phonetic spellings), phrases learned from a corpus, and domain-dependent
 * word symbols.
 */
module StenoProcessor {
  import opened Text
  import opened Dicts
  import opened Rewrite
  import opened Ratios
  import opened StenoTables
  import opened Corpus

  /** What `compress` and `decompress` read: the three tables and the learned phrases. */
  datatype Tables = Tables(phrases: Dict<string>, phonetics: Dict<string>, suffixes: Dict<string>, learned: Dict<string>)

  /** Every suffix is made of word characters, so `\b(\w+)suffix\b` ends where the word ends. */
  predicate WordSuffixes(d: Dict<string>) {
    forall x :: x in d ==> forall k :: 0 <= k < |x.0| ==> IsWordChar(x.0[k])
  }

  predicate ValidTables(t: Tables) {
    NonEmptyEntries(t.phrases) && NonEmptyEntries(t.phonetics) && NonEmptyEntries(t.suffixes)
    && NonEmptyEntries(t.learned) && DistinctKeys(t.learned) && WordSuffixes(t.suffixes)
  }

  lemma UpdateNonEmpty(d: Dict<string>, e: Dict<string>)
    requires NonEmptyEntries(d) && NonEmptyEntries(e)
    ensures NonEmptyEntries(Update(d, e))
  {
    forall x | x in Update(d, e) ensures |x.0| > 0 && |x.1| > 0 {
      UpdateMembers(d, e, x);
    }
  }

  /** `{**phrase_dict, **learned_phrases}`: a learned phrase overrides a built-in one. */
  function AllPhrases(t: Tables): (d: Dict<string>)
    requires ValidTables(t)
    ensures NonEmptyEntries(d)
  {
    UpdateNonEmpty(t.phrases, t.learned);
    Update(t.phrases, t.learned)
  }

  function Length(k: string): int { |k| }

  /** `sorted(all_phrases.keys(), key=len, reverse=True)`: longest phrase first, ties in dict order. */
  function PhraseOrder(t: Tables): (ks: seq<string>)
    requires ValidTables(t)
    ensures forall i :: 0 <= i < |ks| ==> |ks[i]| > 0 && HasKey(AllPhrases(t), ks[i])
  {
    var all := AllPhrases(t);
    var ks := SortDesc(Keys(all), Length);
    assert forall i :: 0 <= i < |ks| ==> |ks[i]| > 0 && HasKey(all, ks[i]) by {
      forall i | 0 <= i < |ks| ensures |ks[i]| > 0 && HasKey(all, ks[i]) {
        SortDescMembers(Keys(all), Length, ks[i]);
        var j :| 0 <= j < |Keys(all)| && Keys(all)[j] == ks[i];
        assert all[j] in all;
      }
    }
    ks
  }

  /** The phrase passes of `compress`: `\bphrase\b`, ignoring case, to the phrase's token. */
  function PhraseRules(t: Tables): (rules: seq<Rule>)
    requires ValidTables(t)
    ensures AllWellFormed(rules)
  {
    var ks, all := PhraseOrder(t), AllPhrases(t);
    seq(|ks|, i requires 0 <= i < |ks| => WholeWord(ks[i], Get(all, ks[i]).value))
  }

  /** `\b(\w+)suffix\b` to the stem and the suffix's token, one pass per suffix. */
  function SuffixRules(d: Dict<string>): (rules: seq<Rule>)
    requires NonEmptyEntries(d) && WordSuffixes(d)
    ensures AllWellFormed(rules)
  {
    assert forall i :: 0 <= i < |d| ==> d[i] in d;
    seq(|d|, i requires 0 <= i < |d| => StemSuffix(d[i].0, d[i].1))
  }

  /** `\bkey\b`, ignoring case, to the value, one pass per pair. */
  function WholeWordRules(d: Dict<string>): (rules: seq<Rule>)
    requires NonEmptyEntries(d)
    ensures AllWellFormed(rules)
  {
    assert forall i :: 0 <= i < |d| ==> d[i] in d;
    seq(|d|, i requires 0 <= i < |d| => WholeWord(d[i].0, d[i].1))
  }

  /** `\bvalue\b`, ignoring case, back to the key. */
  function ReverseWholeWordRules(d: Dict<string>): (rules: seq<Rule>)
    requires NonEmptyEntries(d)
    ensures AllWellFormed(rules)
  {
    assert forall i :: 0 <= i < |d| ==> d[i] in d;
    seq(|d|, i requires 0 <= i < |d| => WholeWord(d[i].1, d[i].0))
  }

  /** The value anywhere, ignoring case, back to the key. */
  function ReverseTokenRules(d: Dict<string>): (rules: seq<Rule>)
    requires NonEmptyEntries(d)
    ensures AllWellFormed(rules)
  {
    assert forall i :: 0 <= i < |d| ==> d[i] in d;
    seq(|d|, i requires 0 <= i < |d| => Caseless(d[i].1, d[i].0))
  }

  /** Every pass of `compress`, in order: phrases, suffixes when aggressive, phonetic spellings. */
  function CompressRules(t: Tables, aggressive: bool): (rules: seq<Rule>)
    requires ValidTables(t)
    ensures AllWellFormed(rules)
  {
    var p, s, f := PhraseRules(t), (if aggressive then SuffixRules(t.suffixes) else []), WholeWordRules(t.phonetics);
    ApplyAllConcat([], p, s);
    ApplyAllConcat([], p + s, f);
    p + s + f
  }

  /** Every pass of `decompress`, in order: phonetic spellings, suffix tokens, phrase tokens. */
  function DecompressRules(t: Tables): (rules: seq<Rule>)
    requires ValidTables(t)
    ensures AllWellFormed(rules)
  {
    var f, s, p := ReverseWholeWordRules(t.phonetics), ReverseTokenRules(t.suffixes), ReverseTokenRules(AllPhrases(t));
    ApplyAllConcat([], f, s);
    ApplyAllConcat([], f + s, p);
    f + s + p
  }

  lemma PhraseTokensNonEmpty(t: Tables)
    requires ValidTables(t)
    ensures NonEmptyTokens(PhraseRules(t))
  {
    var all, ks := AllPhrases(t), PhraseOrder(t);
    forall i | 0 <= i < |ks| ensures |Get(all, ks[i]).value| > 0 {
      var j := Find(all, ks[i]).value;
      assert all[j] in all;
    }
  }

  lemma TokensNonEmpty(d: Dict<string>)
    requires NonEmptyEntries(d)
    ensures NonEmptyTokens(WholeWordRules(d)) && NonEmptyTokens(ReverseWholeWordRules(d)) && NonEmptyTokens(ReverseTokenRules(d))
    ensures WordSuffixes(d) ==> NonEmptyTokens(SuffixRules(d))
  {
    assert forall i :: 0 <= i < |d| ==> d[i] in d;
  }

  lemma ConcatNonEmpty(a: seq<Rule>, b: seq<Rule>)
    requires NonEmptyTokens(a) && NonEmptyTokens(b)
    ensures NonEmptyTokens(a + b)
  {
  }

  /** Every replacement of `compress` and `decompress` is non-empty. */
  lemma NonEmptyReplacements(t: Tables, aggressive: bool)
    requires ValidTables(t)
    ensures NonEmptyTokens(CompressRules(t, aggressive))
    ensures NonEmptyTokens(DecompressRules(t))
  {
    PhraseTokensNonEmpty(t);
    TokensNonEmpty(t.phonetics);
    TokensNonEmpty(t.suffixes);
    TokensNonEmpty(AllPhrases(t));
    var s := if aggressive then SuffixRules(t.suffixes) else [];
    ConcatNonEmpty(PhraseRules(t), s);
    ConcatNonEmpty(PhraseRules(t) + s, WholeWordRules(t.phonetics));
    ConcatNonEmpty(ReverseWholeWordRules(t.phonetics), ReverseTokenRules(t.suffixes));
    ConcatNonEmpty(ReverseWholeWordRules(t.phonetics) + ReverseTokenRules(t.suffixes), ReverseTokenRules(AllPhrases(t)));
  }

  /** The text `compress` returns for `text`. */
  function CompressText(t: Tables, text: string, aggressive: bool): (compressed: string)
    requires ValidTables(t)
    ensures compressed == [] <==> text == []
  {
    NonEmptyReplacements(t, aggressive);
    ApplyAllEmpty(text, CompressRules(t, aggressive));
    ApplyAll(text, CompressRules(t, aggressive))
  }

  /** `compress` runs its three groups of passes one after another. */
  lemma CompressInStages(t: Tables, text: string, aggressive: bool)
    requires ValidTables(t)
    ensures CompressText(t, text, aggressive)
         == ApplyAll(ApplyAll(ApplyAll(text, PhraseRules(t)), if aggressive then SuffixRules(t.suffixes) else []),
                     WholeWordRules(t.phonetics))
  {
    var p, s, f := PhraseRules(t), (if aggressive then SuffixRules(t.suffixes) else []), WholeWordRules(t.phonetics);
    ApplyAllConcat(text, p, s);
    ApplyAllConcat(text, p + s, f);
  }

  /** The text `decompress` returns for `compressed`. */
  function DecompressText(t: Tables, compressed: string): (text: string)
    requires ValidTables(t)
    ensures text == [] <==> compressed == []
  {
    NonEmptyReplacements(t, false);
    ApplyAllEmpty(compressed, DecompressRules(t));
    ApplyAll(compressed, DecompressRules(t))
  }

  lemma PhraseDictValid()
    ensures NonEmptyEntries(PhraseDict)
  {
    forall i | 0 <= i < |PhraseDict| ensures |PhraseDict[i].0| > 0 && |PhraseDict[i].1| > 0 { }
  }

  lemma PhoneticDictValid()
    ensures NonEmptyEntries(PhoneticDict)
  {
    forall i | 0 <= i < |PhoneticDict| ensures |PhoneticDict[i].0| > 0 && |PhoneticDict[i].1| > 0 { }
  }

  lemma SuffixDictValid()
    ensures NonEmptyEntries(SuffixDict) && WordSuffixes(SuffixDict)
  {
    forall i | 0 <= i < |SuffixDict| ensures |SuffixDict[i].0| > 0 && |SuffixDict[i].1| > 0 { }
    forall i, k | 0 <= i < |SuffixDict| && 0 <= k < |SuffixDict[i].0| ensures IsWordChar(SuffixDict[i].0[k]) { }
  }

  /** The built-in tables with nothing learned are well formed. */
  lemma BuiltinTablesValid()
    ensures ValidTables(Tables(PhraseDict, PhoneticDict, SuffixDict, []))
  {
    PhraseDictValid();
    PhoneticDictValid();
    SuffixDictValid();
  }

  /** `decompress` runs its three groups of passes one after another. */
  lemma DecompressInStages(t: Tables, compressed: string)
    requires ValidTables(t)
    ensures DecompressText(t, compressed)
         == ApplyAll(ApplyAll(ApplyAll(compressed, ReverseWholeWordRules(t.phonetics)), ReverseTokenRules(t.suffixes)),
                     ReverseTokenRules(AllPhrases(t)))
  {
    var f, s, p := ReverseWholeWordRules(t.phonetics), ReverseTokenRules(t.suffixes), ReverseTokenRules(AllPhrases(t));
    ApplyAllConcat(compressed, f, s);
    ApplyAllConcat(compressed, f + s, p);
  }

  /** A text in which no pass of `decompress` finds anything comes back unchanged. */
  lemma DecompressUntouched(t: Tables, s: string)
    requires ValidTables(t)
    requires forall k, j :: 0 <= k < |DecompressRules(t)| && 0 <= j <= |s| ==> MatchAt(s, j, DecompressRules(t)[k]).None?
    ensures DecompressText(t, s) == s
  {
    ApplyAllNoMatch(s, DecompressRules(t));
  }

  /** `for key, value in d.items(): s = re.sub(r'\b' + key + r'\b', value, s, flags=re.IGNORECASE)`. */
  method ReplaceWholeWords(s: string, d: Dict<string>) returns (r: string)
    requires NonEmptyEntries(d)
    ensures r == ApplyAll(s, WholeWordRules(d))
  {
    ghost var rules := WholeWordRules(d);
    assert forall i :: 0 <= i < |d| ==> d[i] in d;
    r := s;
    for k := 0 to |d|
      invariant r == ApplyAll(s, rules[..k])
    {
      var (key, value) := d[k];
      ApplyAllStep(s, rules, k);
      r := Apply(r, WholeWord(key, value));
    }
    assert rules[..|rules|] == rules;
  }

  /** `for key, value in d.items(): s = re.sub(r'\b' + value + r'\b', key, s, flags=re.IGNORECASE)`. */
  method ReplaceAbbreviations(s: string, d: Dict<string>) returns (r: string)
    requires NonEmptyEntries(d)
    ensures r == ApplyAll(s, ReverseWholeWordRules(d))
  {
    ghost var rules := ReverseWholeWordRules(d);
    assert forall i :: 0 <= i < |d| ==> d[i] in d;
    r := s;
    for k := 0 to |d|
      invariant r == ApplyAll(s, rules[..k])
    {
      var (key, value) := d[k];
      ApplyAllStep(s, rules, k);
      r := Apply(r, WholeWord(value, key));
    }
    assert rules[..|rules|] == rules;
  }

  /** `for key, value in d.items(): s = re.sub(re.escape(value), key, s, flags=re.IGNORECASE)`. */
  method ReplaceTokens(s: string, d: Dict<string>) returns (r: string)
    requires NonEmptyEntries(d)
    ensures r == ApplyAll(s, ReverseTokenRules(d))
  {
    ghost var rules := ReverseTokenRules(d);
    assert forall i :: 0 <= i < |d| ==> d[i] in d;
    r := s;
    for k := 0 to |d|
      invariant r == ApplyAll(s, rules[..k])
    {
      var (key, value) := d[k];
      ApplyAllStep(s, rules, k);
      r := Apply(r, Caseless(value, key));
    }
    assert rules[..|rules|] == rules;
  }

  /** `for suffix, token in d.items(): s = re.sub(r'\b(\w+)' + suffix + r'\b', r'\1' + token, s, flags=re.IGNORECASE)`. */
  method ReplaceSuffixes(s: string, d: Dict<string>) returns (r: string)
    requires NonEmptyEntries(d) && WordSuffixes(d)
    ensures r == ApplyAll(s, SuffixRules(d))
  {
    ghost var rules := SuffixRules(d);
    assert forall i :: 0 <= i < |d| ==> d[i] in d;
    r := s;
    for k := 0 to |d|
      invariant r == ApplyAll(s, rules[..k])
    {
      var (suffix, token) := d[k];
      ApplyAllStep(s, rules, k);
      r := Apply(r, StemSuffix(suffix, token));
    }
    assert rules[..|rules|] == rules;
  }

  /** The innermost counting loop of `analyze_corpus`: every `n`-word phrase of `words`. */
  method CountNgramsOfLength(counts: Dict<nat>, words: seq<string>, n: nat, skip: Dict<string>) returns (r: Dict<nat>)
    requires n > 0
    ensures r == Counted(counts, Ngrams(words, n), skip)
  {
    ghost var ngrams := Ngrams(words, n);
    r := counts;
    var i := 0;
    while i + n <= |words|
      invariant 0 <= i <= |ngrams|
      invariant r == Counted(counts, ngrams[..i], skip)
    {
      var ngram := Join(words[i..i + n]);
      NgramCountStep(counts, words, n, i, skip);
      if !HasKey(skip, ngram) {
        r := Put(r, ngram, CountOf(r, ngram) + 1);
      }
      i := i + 1;
    }
    assert ngrams[..i] == ngrams;
  }

  /** Counting the phrase that starts at word `i` extends the count so far by one phrase. */
  lemma NgramCountStep(counts: Dict<nat>, words: seq<string>, n: nat, i: nat, skip: Dict<string>)
    requires n > 0 && i + n <= |words|
    ensures i < |Ngrams(words, n)|
    ensures Counted(counts, Ngrams(words, n)[..i + 1], skip)
         == Count(Counted(counts, Ngrams(words, n)[..i], skip), Join(words[i..i + n]), skip)
  {
    var ngrams := Ngrams(words, n);
    assert ngrams[i] == Join(words[i..i + n]);
    assert ngrams[..i + 1] == ngrams[..i] + [ngrams[i]];
    CountedConcat(counts, ngrams[..i], [ngrams[i]], skip);
    CountedOne(Counted(counts, ngrams[..i], skip), ngrams[i], skip);
  }

  /** The counting loops of `analyze_corpus` over one text: its 2- to 6-word phrases. */
  method CountText(counts: Dict<nat>, words: seq<string>, skip: Dict<string>) returns (r: Dict<nat>)
    ensures r == Counted(counts, GramsBelow(words, 7), skip)
  {
    r := counts;
    for n := 2 to 7
      invariant r == Counted(counts, GramsBelow(words, n), skip)
    {
      r := CountNgramsOfLength(r, words, n, skip);
      CountedConcat(counts, GramsBelow(words, n), Ngrams(words, n), skip);
    }
  }

  /** The counting loops of `analyze_corpus`: every 2- to 6-word phrase of every text that is not a key of `skip`. */
  method CountNgrams(texts: seq<string>, skip: Dict<string>) returns (counts: Dict<nat>)
    ensures counts == Tally(CorpusGrams(texts), skip)
  {
    counts := [];
    for t := 0 to |texts|
      invariant counts == Tally(CorpusGrams(texts[..t]), skip)
    {
      var words := Words(texts[t]);
      counts := CountText(counts, words, skip);
      CountedConcat([], CorpusGrams(texts[..t]), GramsBelow(words, 7), skip);
      assert texts[..t + 1][..t] == texts[..t];
    }
    assert texts[..|texts|] == texts;
  }

  lemma BuiltinAbbreviating()
    ensures Abbreviating(PhraseDict) && Abbreviating(PhoneticDict)
  {
    forall i | 0 <= i < |PhraseDict| ensures |PhraseDict[i].1| < |PhraseDict[i].0| { }
    forall i | 0 <= i < |PhoneticDict| ensures |PhoneticDict[i].1| < |PhoneticDict[i].0| { }
  }

  lemma PhraseRulesShrinking(t: Tables)
    requires ValidTables(t) && Abbreviating(t.phrases) && Abbreviating(t.learned)
    ensures Shrinking(PhraseRules(t))
  {
    var all, ks := AllPhrases(t), PhraseOrder(t);
    forall i | 0 <= i < |ks| ensures |Get(all, ks[i]).value| < |ks[i]| {
      var j := Find(all, ks[i]).value;
      assert all[j] in all;
      UpdateMembers(t.phrases, t.learned, all[j]);
    }
  }

  /**
   * When every phrase token and every phonetic spelling is shorter than what
   * it replaces, non-aggressive compression never lengthens the text, and a
   * text it does not shorten comes back unchanged.
   */
  lemma CompressNotLonger(t: Tables, text: string)
    requires ValidTables(t) && Abbreviating(t.phrases) && Abbreviating(t.learned) && Abbreviating(t.phonetics)
    ensures |CompressText(t, text, false)| <= |text|
    ensures |CompressText(t, text, false)| == |text| ==> CompressText(t, text, false) == text
    ensures Ratio(|text|, |CompressText(t, text, false)|) >= 1.0
  {
    var p, f := PhraseRules(t), WholeWordRules(t.phonetics);
    PhraseRulesShrinking(t);
    assert forall i :: 0 <= i < |t.phonetics| ==> t.phonetics[i] in t.phonetics;
    assert Shrinking(f);
    assert CompressRules(t, false) == p + [] + f;
    ApplyAllShrinking(text, CompressRules(t, false));
  }

  /** With the built-in tables and nothing learned, `compress(text)` has a ratio of at least 1. */
  lemma BuiltinCompressNotLonger(text: string)
    ensures ValidTables(Tables(PhraseDict, PhoneticDict, SuffixDict, []))
    ensures |CompressText(Tables(PhraseDict, PhoneticDict, SuffixDict, []), text, false)| <= |text|
    ensures Ratio(|text|, |CompressText(Tables(PhraseDict, PhoneticDict, SuffixDict, []), text, false)|) >= 1.0
  {
    BuiltinTablesValid();
    BuiltinAbbreviating();
    CompressNotLonger(Tables(PhraseDict, PhoneticDict, SuffixDict, []), text);
  }

  /** Every built-in suffix token is at least as long as its suffix, so the suffix passes never shorten a text. */
  lemma SuffixPassesNotShorter(s: string)
    ensures NonEmptyEntries(SuffixDict) && WordSuffixes(SuffixDict)
    ensures |ApplyAll(s, SuffixRules(SuffixDict))| >= |s|
  {
    SuffixDictValid();
    var rules := SuffixRules(SuffixDict);
    forall i | 0 <= i < |SuffixDict| ensures |SuffixDict[i].1| >= |SuffixDict[i].0| { }
    ApplyAllGrowing(s, rules);
  }

  /** The "ly" pass turns "only" into "on[+Y]": two characters become four. */
  lemma OnlyGrows()
    ensures Apply("only", StemSuffix("ly", "[+Y]")) == "on[+Y]"
  {
    var r := StemSuffix("ly", "[+Y]");
    assert WordEnd("only", 4) == 4;
    assert WordEnd("only", 3) == 4;
    assert WordEnd("only", 2) == 4;
    assert WordEnd("only", 1) == 4;
    assert WordEnd("only", 0) == 4;
    assert AgreeFrom("only", 2, "ly", 1, true);
    assert PatternAt("only", 2, "ly", true);
    assert "only"[0..2] + "[+Y]" == "on[+Y]";
    assert MatchAt("only", 0, r) == Some((4, "on[+Y]"));
  }

  /**
   * Why `decompress` does not undo the "ly" suffix: the phonetic entry
   * ("why", "y") is reversed first, as the whole word "y", and the "Y" inside
   * "[+Y]" is such a word, so "on[+Y]" becomes "on[+why]".
   */
  lemma OnlyGarbled()
    ensures PhoneticDict[11] == ("why", "y")
    ensures Apply("on[+Y]", WholeWord("y", "why")) == "on[+why]"
  {
    var s, r := "on[+Y]", WholeWord("y", "why");
    GarbledTail();
    GarbledHead();
    assert ScanFrom(s, 2, r) == [s[2]] + ScanFrom(s, 3, r);
    assert ScanFrom(s, 1, r) == [s[1]] + ScanFrom(s, 2, r);
    assert ScanFrom(s, 0, r) == [s[0]] + ScanFrom(s, 1, r);
  }

  /** The "y" reversal matches nowhere in "on[+". */
  lemma GarbledHead()
    ensures forall j :: 0 <= j < 4 ==> MatchAt("on[+Y]", j, WholeWord("y", "why")).None?
  {
    var s := "on[+Y]";
    assert s[0] == 'o' && s[1] == 'n' && s[2] == '[' && s[3] == '+';
  }

  /** The scan of the "y" reversal from the `+` of "on[+Y]" on. */
  lemma GarbledTail()
    ensures ScanFrom("on[+Y]", 3, WholeWord("y", "why")) == "+why]"
  {
    var s, r := "on[+Y]", WholeWord("y", "why");
    assert ScanFrom(s, 5, r) == "]";
    assert MatchAt(s, 4, r) == Some((1, "why"));
    assert ScanFrom(s, 4, r) == "why]";
  }

  /** After that, the reversal of the suffix entry ("ly", "[+Y]") no longer finds its token. */
  lemma TokenLost()
    ensures SuffixDict[8] == ("ly", "[+Y]")
    ensures Apply("on[+why]", Caseless("[+Y]", "ly")) == "on[+why]"
  {
    var s, r := "on[+why]", Caseless("[+Y]", "ly");
    forall j | 0 <= j < |s| ensures MatchAt(s, j, r).None? {
    }
    ScanNoMatch(s, 0, r);
    assert s[0..] == s;
  }

  /**
   * "your" and "you're" share the spelling "ur", and "able" and "ible" the
   * token "[+B]", so neither table can be inverted.
   */
  lemma SharedTokens()
    ensures PhoneticDict[7] == ("your", "ur") && PhoneticDict[8] == ("you're", "ur")
    ensures SuffixDict[4] == ("able", "[+B]") && SuffixDict[5] == ("ible", "[+B]")
    ensures !DistinctValues(PhoneticDict) && !DistinctValues(SuffixDict)
  {
  }

  /** The tables a new processor starts with: the built-in ones, nothing learned. */
  function Builtin(): (t: Tables)
    ensures ValidTables(t) && AllPhrases(t) == PhraseDict
  {
    BuiltinTablesValid();
    Tables(PhraseDict, PhoneticDict, SuffixDict, [])
  }

  /** Every built-in phrase has at least eight characters. */
  lemma PhrasesLong()
    ensures forall x :: x in PhraseDict ==> |x.0| >= 8
  {
    PhraseKeysLong();
    forall x | x in PhraseDict ensures |x.0| >= 8 {
      var i :| 0 <= i < |PhraseDict| && PhraseDict[i] == x;
    }
  }

  lemma PhraseKeysLong()
    ensures forall i :: 0 <= i < |PhraseDict| ==> |PhraseDict[i].0| >= 8
  {
    forall i | 0 <= i < |PhraseDict| ensures |PhraseDict[i].0| >= 8 { }
  }

  /** Every token of `d` is a bracket and a capital letter, then more. */
  predicate CapitalTokens(d: Dict<string>) {
    NonEmptyEntries(d) && forall i :: 0 <= i < |d| ==> |d[i].1| >= 2 && d[i].1[0] == '[' && IsUpperChar(d[i].1[1])
  }

  /** Every built-in phrase token is a bracket and a capital letter, then more. */
  lemma PhraseTokenShapes()
    ensures CapitalTokens(PhraseDict)
  {
    PhraseDictValid();
    PhraseTokensCapital();
  }

  lemma PhraseTokensCapital()
    ensures forall i :: 0 <= i < |PhraseDict| ==> |PhraseDict[i].1| >= 2 && PhraseDict[i].1[0] == '[' && IsUpperChar(PhraseDict[i].1[1])
  {
  }

  /** Every built-in suffix token is four characters, between brackets. */
  lemma SuffixTokenShapes()
    ensures forall i :: 0 <= i < |SuffixDict| ==> |SuffixDict[i].1| == 4 && SuffixDict[i].1[0] == '[' && SuffixDict[i].1[3] == ']'
  {
  }

  /**
   * No token of `d` occurs in `s` when every token is a bracket and a
   * capital letter, then more, and every `[` of `s` is followed by
   * something other than a letter: the reversals of the tokens leave `s`
   * as it is.
   */
  lemma TokensAbsent(s: string, d: Dict<string>)
    requires CapitalTokens(d)
    requires forall j :: 0 <= j < |s| - 1 && s[j] == '[' ==> !IsLetter(s[j + 1])
    ensures ApplyAll(s, ReverseTokenRules(d)) == s
  {
    var rules := ReverseTokenRules(d);
    forall k | 0 <= k < |rules| ensures forall j :: 0 <= j <= |s| ==> MatchAt(s, j, rules[k]).None? {
      var p := d[k].1;
      assert rules[k] == Caseless(p, d[k].0);
      forall j | 0 <= j && j + |p| <= |s| ensures DiffersAt(s, j, p, 0, 1) {
        if LowerChar(s[j]) == LowerChar(p[0]) { assert s[j] == '['; }
      }
      NoMatchAtChars(s, rules[k], 0, 1);
    }
    ApplyAllNoMatch(s, rules);
  }

  /** No token of `d` occurs in a text without `[` when every token starts with one. */
  lemma NoBracketNoToken(s: string, d: Dict<string>)
    requires NonEmptyEntries(d)
    requires forall i :: 0 <= i < |d| ==> |d[i].1| > 0 && d[i].1[0] == '['
    requires forall j :: 0 <= j < |s| ==> s[j] != '['
    ensures forall k, j :: 0 <= k < |ReverseTokenRules(d)| && 0 <= j <= |s| ==> MatchAt(s, j, ReverseTokenRules(d)[k]).None?
    ensures ApplyAll(s, ReverseTokenRules(d)) == s
  {
    var rules := ReverseTokenRules(d);
    forall k | 0 <= k < |rules| ensures forall j :: 0 <= j <= |s| ==> MatchAt(s, j, rules[k]).None? {
      assert rules[k] == Caseless(d[k].1, d[k].0);
      forall j | 0 <= j < |s| ensures LowerChar(s[j]) != '[' { }
      FirstCharAbsent(s, rules[k], set j | 0 <= j < |s| :: LowerChar(s[j]));
    }
    ApplyAllNoMatch(s, rules);
  }

  /**
   * No token of `d` occurs in `s` when every token is four characters
   * between brackets and no `[` of `s` is followed, three characters on,
   * by `]`.
   */
  lemma BracketedAbsent(s: string, d: Dict<string>)
    requires NonEmptyEntries(d)
    requires forall i :: 0 <= i < |d| ==> |d[i].1| == 4 && d[i].1[0] == '[' && d[i].1[3] == ']'
    requires forall j :: 0 <= j < |s| - 3 && s[j] == '[' ==> s[j + 3] != ']'
    ensures ApplyAll(s, ReverseTokenRules(d)) == s
  {
    var rules := ReverseTokenRules(d);
    forall k | 0 <= k < |rules| ensures forall j :: 0 <= j <= |s| ==> MatchAt(s, j, rules[k]).None? {
      var p := d[k].1;
      assert rules[k] == Caseless(p, d[k].0);
      forall j | 0 <= j && j + |p| <= |s| ensures DiffersAt(s, j, p, 0, 3) {
        if LowerChar(s[j]) == LowerChar(p[0]) { assert s[j] == '['; }
      }
      NoMatchAtChars(s, rules[k], 0, 3);
    }
    ApplyAllNoMatch(s, rules);
  }

  /** A text shorter than every phrase comes through the phrase passes unchanged. */
  lemma ShorterThanPhrases(t: Tables, s: string, n: nat)
    requires ValidTables(t) && |s| < n
    requires forall x :: x in AllPhrases(t) ==> |x.0| >= n
    ensures ApplyAll(s, PhraseRules(t)) == s
  {
    var rules := PhraseRules(t);
    PhraseRulesLong(t, n);
    forall k, j | 0 <= k < |rules| && 0 <= j <= |s| ensures MatchAt(s, j, rules[k]).None? {
      assert |rules[k].pat| >= n;
    }
    ApplyAllNoMatch(s, rules);
  }

  /** When every phrase has at least `n` characters, so has every pattern of the phrase passes. */
  lemma PhraseRulesLong(t: Tables, n: nat)
    requires ValidTables(t)
    requires forall x :: x in AllPhrases(t) ==> |x.0| >= n
    ensures forall k :: 0 <= k < |PhraseRules(t)| ==> |PhraseRules(t)[k].pat| >= n
  {
    var rules, ks, all := PhraseRules(t), PhraseOrder(t), AllPhrases(t);
    forall k | 0 <= k < |rules| ensures |rules[k].pat| >= n {
      assert rules[k].pat == ks[k];
      var i :| 0 <= i < |all| && all[i].0 == ks[k];
      assert all[i] in all;
    }
  }

  /** No built-in phrase fits in "only": the phrase passes leave it as it is. */
  lemma OnlyPhraseStage()
    ensures ApplyAll("only", PhraseRules(Builtin())) == "only"
  {
    PhrasesLong();
    ShorterThanPhrases(Builtin(), "only", 8);
  }

  /** The suffix passes before "ly" find nothing in "only". */
  lemma SuffixesMissOnly()
    ensures NonEmptyEntries(SuffixDict) && WordSuffixes(SuffixDict)
    ensures forall k, j :: 0 <= k < 8 && 0 <= j <= |"only"| ==> MatchAt("only", j, SuffixRules(SuffixDict)[k]).None?
  {
    SuffixDictValid();
    var s, rules := "only", SuffixRules(SuffixDict);
    assert WordEnd(s, 0) == 4 by {
      assert WordEnd(s, 4) == 4;
      assert WordEnd(s, 3) == 4;
      assert WordEnd(s, 2) == 4;
      assert WordEnd(s, 1) == 4;
    }
    forall k | 0 <= k < 8 ensures MatchAt(s, 0, rules[k]).None? {
      var p := SuffixDict[k].0;
      assert rules[k] == StemSuffix(p, SuffixDict[k].1);
      assert LowerChar(p[|p| - 1]) != 'y';
      if 4 > |p| && PatternAt(s, 4 - |p|, p, true) {
        AgreeChar(s, 4 - |p|, p, 0, true, |p| - 1);
        assert false;
      }
    }
    forall k, j | 0 <= k < 8 && 0 < j <= |s| ensures MatchAt(s, j, rules[k]).None? {
      assert WordAt(s, j - 1);
    }
  }

  /** Of the suffix passes, only the last, "ly", fires on "only". */
  lemma OnlySuffixStage()
    ensures NonEmptyEntries(SuffixDict) && WordSuffixes(SuffixDict)
    ensures ApplyAll("only", SuffixRules(SuffixDict)) == "on[+Y]"
  {
    OnlyGrows();
    SuffixesMissOnly();
    var rules := SuffixRules(SuffixDict);
    assert rules[8] == StemSuffix("ly", "[+Y]");
    ApplyAllOne("only", "on[+Y]", rules, 8);
  }

  /** No phonetic word occurs as a whole word in "on[+Y]": the phonetic passes leave it as it is. */
  lemma OnlyPhoneticStage()
    ensures NonEmptyEntries(PhoneticDict)
    ensures ApplyAll("on[+Y]", WholeWordRules(PhoneticDict)) == "on[+Y]"
  {
    PhoneticDictValid();
    OthersMissCompressed();
    YouMissCompressed();
    ApplyAllNoMatch("on[+Y]", WholeWordRules(PhoneticDict));
  }

  /** The phonetic passes other than those for "your", "you're", "you" and "okay" start with a letter that "on[+Y]" lacks. */
  lemma OthersMissCompressed()
    ensures NonEmptyEntries(PhoneticDict)
    ensures forall k, j :: (0 <= k < 7 || 10 <= k < 13) && 0 <= j <= |"on[+Y]"| ==> MatchAt("on[+Y]", j, WholeWordRules(PhoneticDict)[k]).None?
  {
    PhoneticDictValid();
    var s, rules, cs := "on[+Y]", WholeWordRules(PhoneticDict), {'o', 'n', '[', '+', 'y', ']'};
    assert forall j :: 0 <= j < |s| ==> LowerChar(s[j]) in cs;
    assert forall k :: 0 <= k < 7 || 10 <= k < 13 ==> LowerChar(rules[k].pat[0]) !in cs;
    FirstCharsAbsent(s, rules, cs, 0, 7);
    FirstCharsAbsent(s, rules, cs, 10, 13);
  }

  /** "your", "you're", "you" and "okay" start with a letter of "on[+Y]" but do not occur in it. */
  lemma YouMissCompressed()
    ensures NonEmptyEntries(PhoneticDict)
    ensures forall k, j :: (7 <= k < 10 || k == 13) && 0 <= j <= |"on[+Y]"| ==> MatchAt("on[+Y]", j, WholeWordRules(PhoneticDict)[k]).None?
  {
    PhoneticDictValid();
    var s, rules := "on[+Y]", WholeWordRules(PhoneticDict);
    forall k | 7 <= k < 10 || k == 13 ensures forall j :: 0 <= j <= |s| ==> MatchAt(s, j, rules[k]).None? {
      var p := PhoneticDict[k].0;
      assert rules[k] == WholeWord(p, PhoneticDict[k].1);
      assert forall j :: 0 <= j && j + |p| <= |s| ==> DiffersAt(s, j, p, 0, 1);
      NoMatchAtChars(s, rules[k], 0, 1);
    }
  }

  /**
   * `compress("only", aggressive=True)` with the built-in tables gives
   * "on[+Y]": no phrase fits, the "ly" pass is the only suffix pass that
   * fires, and no phonetic word occurs in its result.
   */
  lemma OnlyCompressed()
    ensures CompressText(Builtin(), "only", true) == "on[+Y]"
  {
    CompressInStages(Builtin(), "only", true);
    OnlyPhraseStage();
    OnlySuffixStage();
    OnlyPhoneticStage();
  }

  /** The phonetic reversals before that of "y" find nothing in "on[+Y]": none of their spellings starts with a letter of it. */
  lemma ReversalsBeforeWhy()
    ensures NonEmptyEntries(PhoneticDict)
    ensures forall k, j :: 0 <= k < 11 && 0 <= j <= |"on[+Y]"| ==> MatchAt("on[+Y]", j, ReverseWholeWordRules(PhoneticDict)[k]).None?
  {
    PhoneticDictValid();
    var s, rules, cs := "on[+Y]", ReverseWholeWordRules(PhoneticDict), {'o', 'n', '[', '+', 'y', ']'};
    assert forall j :: 0 <= j < |s| ==> LowerChar(s[j]) in cs;
    assert forall k :: 0 <= k < 11 ==> LowerChar(rules[k].pat[0]) !in cs;
    FirstCharsAbsent(s, rules, cs, 0, 11);
  }

  /** The phonetic reversals after that of "y", of "c" and "ok", find nothing in "on[+why]". */
  lemma ReversalsAfterWhy()
    ensures NonEmptyEntries(PhoneticDict)
    ensures forall k, j :: 11 < k < |PhoneticDict| && 0 <= j <= |"on[+why]"| ==> MatchAt("on[+why]", j, ReverseWholeWordRules(PhoneticDict)[k]).None?
  {
    PhoneticDictValid();
    var s, rules := "on[+why]", ReverseWholeWordRules(PhoneticDict);
    assert rules[12] == WholeWord("c", "see") && rules[13] == WholeWord("ok", "okay");
    assert forall j :: 0 <= j && j + 1 <= |s| ==> DiffersAt(s, j, "c", 0, 0);
    NoMatchAtChars(s, rules[12], 0, 0);
    assert forall j :: 0 <= j && j + 2 <= |s| ==> DiffersAt(s, j, "ok", 0, 1);
    NoMatchAtChars(s, rules[13], 0, 1);
  }

  /** The phonetic reversals turn "on[+Y]" into "on[+why]": only that of "y" fires. */
  lemma GarbledPhoneticStage()
    ensures NonEmptyEntries(PhoneticDict)
    ensures ApplyAll("on[+Y]", ReverseWholeWordRules(PhoneticDict)) == "on[+why]"
  {
    OnlyGarbled();
    ReversalsBeforeWhy();
    ReversalsAfterWhy();
    var rules := ReverseWholeWordRules(PhoneticDict);
    assert rules[11] == WholeWord("y", "why");
    ApplyAllOne("on[+Y]", "on[+why]", rules, 11);
  }

  /** The one `[` of "on[+why]" is not followed, three characters on, by `]`: no suffix token occurs in it. */
  lemma GarbledSuffixStage()
    ensures NonEmptyEntries(SuffixDict)
    ensures ApplyAll("on[+why]", ReverseTokenRules(SuffixDict)) == "on[+why]"
  {
    var s := "on[+why]";
    SuffixDictValid();
    SuffixTokenShapes();
    assert forall j :: 0 <= j < |s| - 3 && s[j] == '[' ==> s[j + 3] != ']';
    BracketedAbsent(s, SuffixDict);
  }

  /** The one `[` of "on[+why]" is followed by `+`, which no phrase token has second: the phrase reversals leave it as it is. */
  lemma GarbledPhraseStage()
    ensures ApplyAll("on[+why]", ReverseTokenRules(AllPhrases(Builtin()))) == "on[+why]"
  {
    var s := "on[+why]";
    assert forall j :: 0 <= j < |s| - 1 && s[j] == '[' ==> !IsLetter(s[j + 1]);
    PhraseTokensAbsent(s);
  }

  /** The phrase reversals of the built-in tables leave a text alone when none of its `[` is followed by a letter. */
  lemma PhraseTokensAbsent(s: string)
    requires forall j :: 0 <= j < |s| - 1 && s[j] == '[' ==> !IsLetter(s[j + 1])
    ensures ApplyAll(s, ReverseTokenRules(AllPhrases(Builtin()))) == s
  {
    PhraseTokenShapes();
    TokensAbsent(s, PhraseDict);
  }

  /** The suffix reversals of the built-in tables leave a text without `[` alone. */
  lemma SuffixTokensAbsent(s: string)
    requires forall j :: 0 <= j < |s| ==> s[j] != '['
    ensures NonEmptyEntries(SuffixDict)
    ensures forall k, j :: 0 <= k < |SuffixDict| && 0 <= j <= |s| ==> MatchAt(s, j, ReverseTokenRules(SuffixDict)[k]).None?
    ensures ApplyAll(s, ReverseTokenRules(SuffixDict)) == s
  {
    SuffixDictValid();
    SuffixTokenShapes();
    NoBracketNoToken(s, SuffixDict);
  }

  /**
   * `decompress(compress("only", aggressive=True))` with the built-in tables
   * is "on[+why]": the reversal of the phonetic spelling "y" rewrites the
   * "Y" inside the suffix token before the suffix reversals run, so "only"
   * is not recovered.
   */
  lemma OnlyNotRecovered()
    ensures DecompressText(Builtin(), CompressText(Builtin(), "only", true)) == "on[+why]"
  {
    OnlyCompressed();
    DecompressInStages(Builtin(), "on[+Y]");
    GarbledPhoneticStage();
    GarbledSuffixStage();
    GarbledPhraseStage();
  }

  /** Of the phonetic reversals, only the first one of "ur" fires on "ur": "your" is one word of another length than the later spellings. */
  lemma UrPhoneticStage()
    ensures NonEmptyEntries(PhoneticDict)
    ensures ApplyAll("ur", ReverseWholeWordRules(PhoneticDict)) == "your"
  {
    PhoneticDictValid();
    var s, t, rules := "ur", "your", ReverseWholeWordRules(PhoneticDict);
    assert rules[7] == WholeWord("ur", "your");
    assert Apply(s, rules[7]) == t by {
      assert MatchAt(s, 0, rules[7]) == Some((2, t));
      assert ScanFrom(s, 2, rules[7]) == [];
    }
    forall k | 0 <= k < 7 ensures forall j :: 0 <= j <= |s| ==> MatchAt(s, j, rules[k]).None? {
      var p := PhoneticDict[k].1;
      assert rules[k] == WholeWord(p, PhoneticDict[k].0);
      assert forall j :: 0 <= j && j + |p| <= |s| ==> DiffersAt(s, j, p, 0, 0);
      NoMatchAtChars(s, rules[k], 0, 0);
    }
    assert forall k :: 0 <= k < |t| ==> IsWordChar(t[k]);
    forall k | 7 < k < |rules| ensures forall j :: 0 <= j <= |t| ==> MatchAt(t, j, rules[k]).None? {
      assert rules[k] == WholeWord(PhoneticDict[k].1, PhoneticDict[k].0);
      OneWordMiss(t, rules[k]);
    }
    ApplyAllOne(s, t, rules, 7);
  }

  /**
   * `decompress("ur")` with the built-in tables is "your": "your" and
   * "you're" are both spelt "ur" (`SharedTokens`), and the reversal of the
   * first one in the table wins.
   */
  lemma UrDecompressed()
    ensures DecompressText(Builtin(), "ur") == "your"
  {
    DecompressInStages(Builtin(), "ur");
    UrPhoneticStage();
    YourUntouched();
  }

  /** "your" has no `[`: the token reversals leave it as it is. */
  lemma YourUntouched()
    ensures NonEmptyEntries(SuffixDict)
    ensures ApplyAll("your", ReverseTokenRules(SuffixDict)) == "your"
    ensures ApplyAll("your", ReverseTokenRules(AllPhrases(Builtin()))) == "your"
  {
    var t := "your";
    assert forall j :: 0 <= j < |t| ==> t[j] != '[';
    SuffixTokensAbsent(t);
    PhraseTokensAbsent(t);
  }

  /** No phonetic spelling occurs as a whole word in "[+B]": the phonetic reversals leave it as it is. */
  lemma TokenPhoneticStage()
    ensures NonEmptyEntries(PhoneticDict)
    ensures ApplyAll("[+B]", ReverseWholeWordRules(PhoneticDict)) == "[+B]"
  {
    PhoneticDictValid();
    TokenMissesEarly();
    TokenMissesLate();
    ApplyAllNoMatch("[+B]", ReverseWholeWordRules(PhoneticDict));
  }

  /** The first seven phonetic reversals find nothing in "[+B]". */
  lemma TokenMissesEarly()
    ensures NonEmptyEntries(PhoneticDict)
    ensures forall k, j :: 0 <= k < 7 && 0 <= j <= |"[+B]"| ==> MatchAt("[+B]", j, ReverseWholeWordRules(PhoneticDict)[k]).None?
  {
    PhoneticDictValid();
    var s, rules, cs := "[+B]", ReverseWholeWordRules(PhoneticDict), {'[', '+', 'b', ']'};
    assert forall j :: 0 <= j < |s| ==> LowerChar(s[j]) in cs;
    assert forall k :: 0 <= k < 3 || 5 <= k < 7 ==> LowerChar(rules[k].pat[0]) !in cs;
    FirstCharsAbsent(s, rules, cs, 0, 3);
    FirstCharsAbsent(s, rules, cs, 5, 7);
    BeforeBecauseMissToken();
  }

  /** "b4" and "bc" start with the "B" of "[+B]" but do not occur in it. */
  lemma BeforeBecauseMissToken()
    ensures NonEmptyEntries(PhoneticDict)
    ensures forall k, j :: 3 <= k < 5 && 0 <= j <= |"[+B]"| ==> MatchAt("[+B]", j, ReverseWholeWordRules(PhoneticDict)[k]).None?
  {
    PhoneticDictValid();
    var s, rules := "[+B]", ReverseWholeWordRules(PhoneticDict);
    assert rules[3] == WholeWord("b4", "before") && rules[4] == WholeWord("bc", "because");
    assert forall j :: 0 <= j && j + 2 <= |s| ==> DiffersAt(s, j, "b4", 0, 1) && DiffersAt(s, j, "bc", 0, 1);
    NoMatchAtChars(s, rules[3], 0, 1);
    NoMatchAtChars(s, rules[4], 0, 1);
  }

  /** The last seven phonetic reversals find nothing in "[+B]": none starts with a character of it. */
  lemma TokenMissesLate()
    ensures NonEmptyEntries(PhoneticDict)
    ensures forall k, j :: 7 <= k < |PhoneticDict| && 0 <= j <= |"[+B]"| ==> MatchAt("[+B]", j, ReverseWholeWordRules(PhoneticDict)[k]).None?
  {
    PhoneticDictValid();
    var s, rules, cs := "[+B]", ReverseWholeWordRules(PhoneticDict), {'[', '+', 'b', ']'};
    assert forall j :: 0 <= j < |s| ==> LowerChar(s[j]) in cs;
    assert forall k :: 7 <= k < 14 ==> LowerChar(rules[k].pat[0]) !in cs;
    FirstCharsAbsent(s, rules, cs, 7, 14);
  }

  /** Of the suffix reversals, only the first one of "[+B]" fires on "[+B]". */
  lemma TokenSuffixStage()
    ensures NonEmptyEntries(SuffixDict)
    ensures ApplyAll("[+B]", ReverseTokenRules(SuffixDict)) == "able"
  {
    SuffixDictValid();
    SuffixTokenShapes();
    var s, t, rules := "[+B]", "able", ReverseTokenRules(SuffixDict);
    assert rules[4] == Caseless("[+B]", "able");
    assert Apply(s, rules[4]) == t by {
      assert MatchAt(s, 0, rules[4]) == Some((4, t));
      assert ScanFrom(s, 4, rules[4]) == [];
    }
    forall k | 0 <= k < 4 ensures forall j :: 0 <= j <= |s| ==> MatchAt(s, j, rules[k]).None? {
      var p := SuffixDict[k].1;
      assert rules[k] == Caseless(p, SuffixDict[k].0);
      assert DiffersAt(s, 0, p, 2, 2);
      NoMatchAtChars(s, rules[k], 2, 2);
    }
    assert forall j :: 0 <= j < |t| ==> t[j] != '[';
    SuffixTokensAbsent(t);
    ApplyAllOne(s, t, rules, 4);
  }

  /**
   * `decompress("[+B]")` with the built-in tables is "able": "able" and
   * "ible" share the token (`SharedTokens`), and the reversal of the first
   * one in the table wins.
   */
  lemma AbleDecompressed()
    ensures DecompressText(Builtin(), "[+B]") == "able"
  {
    DecompressInStages(Builtin(), "[+B]");
    TokenPhoneticStage();
    TokenSuffixStage();
    AbleUntouched();
  }

  /** "able" has no `[`: the phrase reversals leave it as it is. */
  lemma AbleUntouched()
    ensures ApplyAll("able", ReverseTokenRules(AllPhrases(Builtin()))) == "able"
  {
    var t := "able";
    assert forall j :: 0 <= j < |t| ==> t[j] != '[';
    PhraseTokensAbsent(t);
  }

  lemma UnitedStatesNotAKey()
    ensures HasKey(PhraseDict, "United States") && !HasKey(PhraseDict, "united states")
  {
    assert PhraseDict[13].0 == "United States";
    forall i | 0 <= i < |PhraseDict| ensures PhraseDict[i].0 != "united states" { }
  }

  /**
   * The skip test of `analyze_corpus` compares the lower-cased phrase with the
   * table's keys as written, so "united states" is never skipped: whenever
   * the counter holds at most 1000 phrases and it occurs `minFreq` times,
   * it is learned.
   */
  lemma UnitedStatesRelearned(texts: seq<string>, minFreq: int)
    requires |Tally(CorpusGrams(texts), PhraseDict)| <= 1000
    requires "united states" in CorpusGrams(texts) && multiset(CorpusGrams(texts))["united states"] >= minFreq
    ensures HasKey(PhraseDict, "United States") && !HasKey(PhraseDict, "united states")
    ensures ("united states", multiset(CorpusGrams(texts))["united states"]) in CorpusStats(texts, PhraseDict, minFreq)
  {
    UnitedStatesNotAKey();
    CorpusStatsComplete(texts, PhraseDict, minFreq, "united states");
  }

  /** The domains `create_context_aware_symbols` tells apart. */
  datatype Domain = Legal | Tech | General

  /** The domain test: "legal" or "court" first, then "code" or "function", anywhere in the lower-cased text. */
  function DetectDomain(text: string): (d: Domain)
  {
    var lower := Lower(text);
    if Contains(lower, "legal") || Contains(lower, "court") then Legal
    else if Contains(lower, "code") || Contains(lower, "function") then Tech
    else General
  }

  /**
   * A text is legal exactly when its lower-cased form has "legal" or "court"
   * in it, and technical exactly when it has neither but has "code" or
   * "function".
   */
  lemma DetectDomainSpec(text: string)
    ensures DetectDomain(text) == Legal <==> Mentions(Lower(text), "legal") || Mentions(Lower(text), "court")
    ensures DetectDomain(text) == Tech
        <==> !Mentions(Lower(text), "legal") && !Mentions(Lower(text), "court")
             && (Mentions(Lower(text), "code") || Mentions(Lower(text), "function"))
  {
    var lower := Lower(text);
    ContainsSlice(lower, "legal");
    ContainsSlice(lower, "court");
    ContainsSlice(lower, "code");
    ContainsSlice(lower, "function");
  }

  /** `domain_specific[domain]`. */
  function DomainWords(d: Domain): (words: Dict<string>)
    ensures NonEmptyEntries(words)
    ensures forall x :: x in words ==> |x.1| < |x.0|
    ensures words == [] <==> d == General
  {
    match d
    case Legal => LegalWords
    case Tech => TechWords
    case General => []
  }

  /** The text `create_context_aware_symbols` returns. */
  function ContextSymbols(text: string): (r: string)
  {
    ApplyAll(text, WholeWordRules(DomainWords(DetectDomain(text))))
  }

  /**
   * Domain symbols are shorter than the words they replace, so the text never
   * grows, and a text of no particular domain comes back unchanged.
   */
  lemma ContextSymbolsShrink(text: string)
    ensures |ContextSymbols(text)| <= |text|
    ensures |ContextSymbols(text)| == |text| ==> ContextSymbols(text) == text
    ensures DetectDomain(text) == General ==> ContextSymbols(text) == text
  {
    var words := DomainWords(DetectDomain(text));
    var rules := WholeWordRules(words);
    assert forall i :: 0 <= i < |words| ==> words[i] in words;
    ApplyAllShrinking(text, rules);
  }

  /** Giving a non-empty phrase a non-empty symbol keeps the learned table valid. */
  lemma LearnedPut(learned: Dict<string>, k: string, v: string)
    requires NonEmptyEntries(learned) && DistinctKeys(learned) && |k| > 0 && |v| > 0
    ensures NonEmptyEntries(Put(learned, k, v)) && DistinctKeys(Put(learned, k, v))
  {
    forall x | x in Put(learned, k, v) ensures |x.0| > 0 && |x.1| > 0 {
      PutMembers(learned, k, v, x);
    }
    PutGet(learned, k, v, k);
  }

  /** Keeping entry `k` of the most common phrases: the statistics and the learned table grow together. */
  lemma KeepStep(learned0: Dict<string>, learned: Dict<string>, stats: Dict<nat>, top: Dict<nat>, k: nat, minFreq: int,
                 counter: int, ngram: string, count: nat, symbol: string)
    requires DistinctKeys(top) && k < |top| && top[k] == (ngram, count) && count >= minFreq && |ngram| > 0
    requires stats == Frequent(top[..k], minFreq) && learned == Learn(learned0, stats, counter)
    requires NonEmptyEntries(learned) && DistinctKeys(learned) && symbol == Symbol(counter + |stats|)
    ensures Put(stats, ngram, count) == Frequent(top[..k + 1], minFreq)
    ensures |Put(stats, ngram, count)| == |stats| + 1
    ensures Put(learned, ngram, symbol) == Learn(learned0, Put(stats, ngram, count), counter)
    ensures NonEmptyEntries(Put(learned, ngram, symbol)) && DistinctKeys(Put(learned, ngram, symbol))
  {
    FrequentStep(top, k, minFreq);
    FrequentFresh(top, k, minFreq);
    LearnStep(learned0, stats, top[k], counter);
    LearnedPut(learned, ngram, symbol);
  }

  /**
   * The loop of `analyze_corpus` over the most common phrases: each one
   * counted at least `minFreq` times gets the next `[C<n>]` symbol and joins
   * the statistics.
   */
  method KeepFrequent(top: Dict<nat>, minFreq: int, learned: Dict<string>, symbolCounter: int)
    returns (stats: Dict<nat>, table: Dict<string>, counter: int)
    requires DistinctKeys(top) && forall x :: x in top ==> |x.0| > 0
    requires NonEmptyEntries(learned) && DistinctKeys(learned)
    ensures stats == Frequent(top, minFreq)
    ensures table == Learn(learned, stats, symbolCounter)
    ensures counter == symbolCounter + |stats|
    ensures NonEmptyEntries(table) && DistinctKeys(table)
  {
    stats, table, counter := [], learned, symbolCounter;
    for k := 0 to |top|
      invariant stats == Frequent(top[..k], minFreq)
      invariant table == Learn(learned, stats, symbolCounter)
      invariant counter == symbolCounter + |stats|
      invariant NonEmptyEntries(table) && DistinctKeys(table)
    {
      var (ngram, count) := top[k];
      FrequentStep(top, k, minFreq);
      if count >= minFreq {
        assert top[k] in top;
        var symbol := Symbol(counter);
        KeepStep(learned, table, stats, top, k, minFreq, symbolCounter, ngram, count, symbol);
        table := Put(table, ngram, symbol);
        counter := counter + 1;
        stats := Put<nat>(stats, ngram, count);
      }
    }
    assert top[..|top|] == top;
  }

  class Processor {
    const phrases: Dict<string>
    const phonetics: Dict<string>
    const suffixes: Dict<string>
    var learned: Dict<string>
    var symbolCounter: int

    function Table(): (t: Tables)
      reads this
    {
      Tables(phrases, phonetics, suffixes, learned)
    }

    ghost predicate Valid()
      reads this
    {
      ValidTables(Table())
    }

    /** The built-in tables, nothing learned, and the first symbol number. */
    constructor ()
      ensures Valid()
      ensures phrases == PhraseDict && phonetics == PhoneticDict && suffixes == SuffixDict
      ensures learned == [] && symbolCounter == FirstSymbol
    {
      phrases := PhraseDict;
      phonetics := PhoneticDict;
      suffixes := SuffixDict;
      learned := [];
      symbolCounter := FirstSymbol;
      BuiltinTablesValid();
    }

    /**
     * `analyze_corpus(texts, min_freq)`: counts the 2- to 6-word phrases of
     * the lower-cased texts that are not keys of the phrase table, then
     * gives each of the 1000 most common that occurs at least `minFreq`
     * times the next `[C<n>]` symbol, and returns those phrases with their
     * counts.
     */
    method AnalyzeCorpus(texts: seq<string>, minFreq: int := 100) returns (stats: Dict<nat>)
      requires Valid()
      modifies this
      ensures Valid()
      ensures stats == CorpusStats(texts, phrases, minFreq)
      ensures learned == Learn(old(learned), stats, old(symbolCounter))
      ensures symbolCounter == old(symbolCounter) + |stats|
    {
      var counts := CountNgrams(texts, phrases);
      var top := MostCommon(counts, 1000);
      MostCommonPhrases(texts, phrases);
      var table, counter;
      stats, table, counter := KeepFrequent(top, minFreq, learned, symbolCounter);
      learned, symbolCounter := table, counter;
      assert top[..|top|] == top;
    }

    /**
     * `create_context_aware_symbols(text)`: the words of the detected
     * domain, as whole words and ignoring case, to their symbols.
     */
    method CreateContextAwareSymbols(text: string) returns (compressed: string)
      ensures compressed == ContextSymbols(text)
    {
      var domain: Domain;
      var lower := Lower(text);
      if Contains(lower, "legal") || Contains(lower, "court") {
        domain := Legal;
      } else if Contains(lower, "code") || Contains(lower, "function") {
        domain := Tech;
      } else {
        domain := General;
      }
      compressed := ReplaceWholeWords(text, DomainWords(domain));
    }

    /**
     * `compress(text, aggressive)`: the compressed text and
     * `len(text) / len(compressed)`, or 1.0 for the empty text.
     */
    method Compress(text: string, aggressive: bool := false) returns (compressed: string, ratio: real)
      requires Valid()
      ensures compressed == CompressText(Table(), text, aggressive)
      ensures ratio == Ratio(|text|, |compressed|)
    {
      ghost var t := Table();
      var allPhrases := Update(phrases, learned);
      var sortedPhrases := SortDesc(Keys(allPhrases), Length);
      ghost var p := PhraseRules(t);
      compressed := text;
      for k := 0 to |sortedPhrases|
        invariant compressed == ApplyAll(text, p[..k])
      {
        var phrase := sortedPhrases[k];
        var token := Get(allPhrases, phrase).value;
        ApplyAllStep(text, p, k);
        compressed := Apply(compressed, WholeWord(phrase, token));
      }
      assert p[..|p|] == p;
      if aggressive {
        compressed := ReplaceSuffixes(compressed, suffixes);
      }
      compressed := ReplaceWholeWords(compressed, phonetics);
      CompressInStages(t, text, aggressive);
      ratio := Ratio(|text|, |compressed|);
    }

    /** `decompress(compressed)`: the passes of `compress` run backwards, table by table. */
    method Decompress(compressed: string) returns (text: string)
      requires Valid()
      ensures text == DecompressText(Table(), compressed)
    {
      text := ReplaceAbbreviations(compressed, phonetics);
      text := ReplaceTokens(text, suffixes);
      var allPhrases := Update(phrases, learned);
      assert allPhrases == AllPhrases(Table());
      text := ReplaceTokens(text, allPhrases);
      DecompressInStages(Table(), compressed);
    }
  }
}
