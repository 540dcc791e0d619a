/**
 * The built-in tables of `StenographicProcessor` (steno-processor.py), in
 * their insertion order, and the domain tables of
 * `create_context_aware_symbols`.
 */
module StenoTables {
  import opened Dicts

  /** `phrase_dict`: multi-word phrases and their bracketed tokens. */
  const PhraseDict: Dict<string> := [
    ("in order to", "[IOT]"),
    ("be able to", "[BAT]"),
    ("the fact that", "[TFT]"),
    ("at this point in time", "[ATPIT]"),
    ("with respect to", "[WRT]"),
    ("in accordance with", "[IAW]"),
    ("pursuant to", "[PTO]"),
    ("notwithstanding", "[NWS]"),
    ("artificial intelligence", "[AI]"),
    ("machine learning", "[ML]"),
    ("large language model", "[LLM]"),
    ("neural network", "[NN]"),
    ("natural language processing", "[NLP]"),
    ("United States", "[US]"),
    ("European Union", "[EU]"),
    ("as soon as possible", "[ASAP]"),
    ("for example", "[EG]"),
    ("in other words", "[IOW]"),
    ("on the other hand", "[OTOH]"),
    ("would have been", "[WHB]"),
    ("could have been", "[CHB]"),
    ("should have been", "[SHB]"),
    ("might have been", "[MHB]"),
    ("is going to", "[IGT]"),
    ("are going to", "[AGT]"),
    ("has been", "[HSB]"),
    ("have been", "[HVB]")
  ]

  /** `phonetic_dict`: whole words and their informal spellings. */
  const PhoneticDict: Dict<string> := [
    ("through", "thru"),
    ("though", "tho"),
    ("enough", "enuf"),
    ("before", "b4"),
    ("because", "bc"),
    ("without", "w/o"),
    ("with", "w/"),
    ("your", "ur"),
    ("you're", "ur"),
    ("you", "u"),
    ("are", "r"),
    ("why", "y"),
    ("see", "c"),
    ("okay", "ok")
  ]

  /** `suffix_dict`: word endings and their tokens; "able" and "ible" share one. */
  const SuffixDict: Dict<string> := [
    ("tion", "[+N]"),
    ("ing", "[+G]"),
    ("ness", "[+S]"),
    ("ment", "[+M]"),
    ("able", "[+B]"),
    ("ible", "[+B]"),
    ("ful", "[+F]"),
    ("less", "[+L]"),
    ("ly", "[+Y]")
  ]

  /** The first number `analyze_corpus` hands out, as `[C1000]`. */
  const FirstSymbol: int := 1000

  /** The domain-specific words of `create_context_aware_symbols`. */
  const LegalWords: Dict<string> := [
    ("statement", "[ST]"),
    ("evidence", "[EV]"),
    ("defendant", "[DF]"),
    ("plaintiff", "[PL]")
  ]

  const TechWords: Dict<string> := [
    ("function", "[FN]"),
    ("variable", "[VR]"),
    ("return", "[RT]"),
    ("import", "[IM]")
  ]
}
