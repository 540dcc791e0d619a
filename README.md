# Stenographic compression, modelled in Dafny

The repository compresses text for language models by dictionary
substitution. Three variants of the idea are modelled here.

- `StenographicProcessor` (steno-processor.py) has three tables: multi-word
  phrases, word suffixes and phonetic spellings.
  - It compresses with word-bounded, case-insensitive regular-expression
    passes: phrases longest first, then optional suffixes, then phonetics.
  - It decompresses with the reverse passes.
  - It learns new phrases from a corpus by counting 2- to 6-word n-grams
    and naming the frequent ones `[C1000]`, `[C1001]`, ...
  - It can pick a domain (legal, tech, general) and replace that domain's
    words.
- `StenogressiveBridge` and its subclass `ProductionBridge`
  (weekend-prototype.py) have one table of phrases and bracketed symbols.
  - It compresses with plain `str.replace`, longest phrase first, in lower,
    capitalised and upper-case spellings.
  - It decompresses through the inverted table.
  - It counts rough token statistics.
  - It learns phrases online (`[L<n>]` symbols) and caches compression
    results.
- `StenographicLLM` (steno-llm-integration.py) has the dimensions of a
  transformer, the closed-form FLOP count of a forward pass, and the running
  statistics behind `get_overall_stats`, with its two error cases.

Modules:

| module | file | contents |
|---|---|---|
| `Text` | text.dfy | ASCII case mapping, `str.split`, `" ".join`, decimal digits |
| `Dicts` | dicts.dfy | Python dicts and `Counter`s as ordered sequences of pairs with distinct keys: lookup, assignment, `dict.update`, inversion `{v: k ...}`, stable `sorted(..., reverse=True)` |
| `Rewrite` | rewrite.dfy | one `re.sub` / `str.replace` pass as a leftmost, non-overlapping scan, and a list of passes run in turn |
| `Ratios` | ratios.dfy | the length ratio with its `1.0` fallback |
| `StenoTables`, `BridgeTables` | steno_tables.dfy, bridge_tables.dfy | the built-in tables, entry for entry in source order |
| `Corpus` | corpus.dfy | n-gram counting, `most_common`, the frequency filter and symbol naming of `analyze_corpus` |
| `StenoProcessor` | steno_processor.dfy | class `Processor` and the compression and decompression passes |
| `Bridge` | bridge.dfy | classes `CompressionStats` and `Bridge`, the online learner and the cache |
| `BridgeRoundTrip` | bridge_roundtrip.dfy | when the bridge's `decompress` undoes `compress` |
| `Llm` | llm.dfy | class `StenographicLlm` |

Each loop of the source is a method proved equal to a specification
function. Examples are the per-table replacement loops, the n-gram loops
and the keep-if-frequent loop. The properties are proved about those
functions.

## Model

| member | source | states |
|---|---|---|
| `StenoProcessor.Processor.constructor` | steno-processor.py:12-84 | the three built-in tables, no learned phrases, symbol counter 1000 |
| `StenoProcessor.BuiltinTablesValid` | steno-processor.py:14-80 | every built-in pattern and replacement is non-empty, and every suffix is made of word characters |
| `StenoProcessor.Processor.AnalyzeCorpus` | steno-processor.py:86-113 | returns the corpus statistics; each kept n-gram is learned under the next `[C<n>]` symbol; the counter advances by the number kept |
| `StenoProcessor.CountNgrams` | steno-processor.py:92-101 | the counting loops give the tally of every 2..6-gram of the lower-cased corpus, except phrases already in the table |
| `StenoProcessor.CountText` | steno-processor.py:95-101 | the loops over one text count its 2..6-grams in order |
| `StenoProcessor.CountNgramsOfLength` | steno-processor.py:97-101 | the inner loop counts the n-grams of one length, left to right |
| `StenoProcessor.KeepFrequent` | steno-processor.py:104-111 | keeps exactly the entries counted at least `min_freq` times, in order; names them with consecutive symbols; leaves the learned table with distinct, non-empty entries |
| `Corpus.TallyCounts` | steno-processor.py:92-101 | a phrase is counted iff it occurs and is not skipped, and its count is its number of occurrences |
| `Corpus.MostCommonSpec` | steno-processor.py:105 | `most_common` has distinct keys, highest count first, and keeps only counted entries; every entry it leaves out has a count no higher than any entry it keeps; among entries of equal count it keeps the first-seen ones |
| `Corpus.MostCommonAll` | steno-processor.py:105 | with no more than `n` entries, `most_common(n)` keeps all of them |
| `Corpus.FrequentMembers` | steno-processor.py:105-106 | an entry is kept iff it was among the most common and its count reaches `min_freq` |
| `Corpus.CorpusStatsSound` | steno-processor.py:86-113 | every reported n-gram occurs in the corpus, is not a built-in phrase, has its true count, and that count reaches `min_freq`; highest count first |
| `Corpus.CorpusStatsComplete` | steno-processor.py:86-113 | with at most 1000 distinct n-grams, every frequent n-gram that is not a built-in phrase is reported with its count |
| `Corpus.LearnGet` | steno-processor.py:106-110 | after learning, a key maps to its new symbol when it was kept and otherwise to its old value |
| `Corpus.SymbolInjective` | steno-processor.py:108 | different counters give different `[C<n>]` symbols |
| `StenoProcessor.UnitedStatesRelearned` | steno-processor.py:95-101 | the table (line 33) holds "United States" but not its lower-case form, so the lower-cased corpus counts "united states" and learns it again |
| `StenoProcessor.Processor.Compress` | steno-processor.py:115-146 | the compressed text is the three stages over the merged tables, and the ratio is the length ratio |
| `StenoProcessor.CompressText` | steno-processor.py:115-146 | compression gives the empty text iff it is given the empty text |
| `StenoProcessor.CompressInStages` | steno-processor.py:123-143 | compression is the phrase passes (longest first), then the suffix passes when aggressive, then the phonetic passes |
| `StenoProcessor.ReplaceWholeWords` | steno-processor.py:141-143 | the loop over a table runs its word-bounded, case-insensitive passes, key to value, in table order |
| `StenoProcessor.ReplaceSuffixes` | steno-processor.py:134-138 | the suffix loop runs each `\b(\w+)suffix\b` pass, keeping the stem |
| `StenoProcessor.CompressNotLonger` | steno-processor.py:115-146 | with abbreviating phrase and phonetic tables, non-aggressive compression never lengthens the text, leaves it unchanged when its length is kept, and the ratio is at least 1 |
| `StenoProcessor.BuiltinCompressNotLonger` | steno-processor.py:115-146 | the built-in tables abbreviate, so non-aggressive compression with them never lengthens a text |
| `StenoProcessor.SuffixPassesNotShorter` | steno-processor.py:134-138 | every suffix token is at least as long as its suffix, so the aggressive suffix passes never shorten the text |
| `StenoProcessor.OnlyGrows` | steno-processor.py:137-138 | the aggressive `ly` pass turns "only" into "on[+Y]", which is longer |
| `StenoProcessor.OnlyGarbled` | steno-processor.py:141-143 | the phonetic pass for "why" then finds a whole-word `Y` inside that token |
| `StenoProcessor.TokenLost` | steno-processor.py:160-162 | the `[+Y]` token pass finds nothing in "on[+why]" and leaves it unchanged |
| `StenoProcessor.OnlyCompressed` | steno-processor.py:115-146 | with the built-in tables and nothing learned, aggressive compression turns "only" into "on[+Y]" through every pass of all three stages |
| `StenoProcessor.OnlyNotRecovered` | steno-processor.py:148-170 | decompressing that result with the same tables gives "on[+why]", not "only" |
| `StenoProcessor.SharedTokens` | steno-processor.py:52-80 | "your"/"you're" share `ur` and "able"/"ible" share `[+B]`, so neither table has distinct values |
| `StenoProcessor.UrDecompressed` | steno-processor.py:148-170 | with the built-in tables, the whole decompression turns "ur" into "your", so a compressed "you're" never comes back |
| `StenoProcessor.AbleDecompressed` | steno-processor.py:148-170 | with the built-in tables, the whole decompression turns "[+B]" into "able", so a compressed "ible" never comes back |
| `StenoProcessor.Processor.Decompress` | steno-processor.py:148-170 | the decompressed text is the three reverse stages over the current tables |
| `StenoProcessor.DecompressText` | steno-processor.py:148-170 | decompression gives the empty text iff it is given the empty text |
| `StenoProcessor.DecompressInStages` | steno-processor.py:154-168 | decompression is the reverse phonetic passes, then the suffix tokens, then the phrase tokens of the merged tables |
| `StenoProcessor.DecompressUntouched` | steno-processor.py:148-170 | a text in which no decompression pass matches is returned unchanged |
| `StenoProcessor.TokensAbsent` | steno-processor.py:164-168 | tokens made of `[` and a capital letter are found nowhere in a text whose every `[` is followed by a non-letter, so the phrase-token passes leave it unchanged |
| `StenoProcessor.NoBracketNoToken` | steno-processor.py:159-168 | token passes whose tokens start with `[` match nowhere in a text without `[` and leave it unchanged |
| `StenoProcessor.ReplaceAbbreviations` | steno-processor.py:155-157 | the loop runs a word-bounded pass from each abbreviation back to its word |
| `StenoProcessor.ReplaceTokens` | steno-processor.py:160-168 | the loop runs a case-insensitive pass from each token back to its text |
| `StenoProcessor.Processor.CreateContextAwareSymbols` | steno-processor.py:172-207 | the loop gives the domain's word replacements applied to the text |
| `StenoProcessor.DetectDomainSpec` | steno-processor.py:177-183 | legal iff the lower-cased text mentions "legal" or "court"; tech iff it mentions neither but mentions "code" or "function" |
| `StenoProcessor.DomainWords` | steno-processor.py:186-200 | each domain's replacements are shorter than their words, and only the general domain has none |
| `StenoProcessor.ContextSymbolsShrink` | steno-processor.py:202-207 | the domain passes never lengthen the text; a general text is returned unchanged |
| `Rewrite.ScanFrom` | steno-processor.py:130-131 | a pass whose replacement is no longer than its pattern never lengthens the text, one at least as long never shortens it, and with a non-empty replacement only the empty text becomes empty |
| `Rewrite.ApplyAllConcat` | steno-processor.py:127-143 | running two lists of passes in turn is running their concatenation |
| `Rewrite.ApplyAllShrinking` | steno-processor.py:127-143 | shortening passes never lengthen the text, and leave it unchanged when the length is kept |
| `Rewrite.ApplyAllNoMatch` | steno-processor.py:148-170 | passes that match nowhere leave the text unchanged |
| `Rewrite.ApplyAllOne` | steno-processor.py:127-143 | when only one pass of a list matches, running the list is running that pass |
| `Rewrite.NoMatchAtChars` | steno-processor.py:130-131 | a literal or word-bounded pass matches nowhere when, at every place it could start, the text differs from two of its characters ignoring case |
| `Rewrite.FirstCharsAbsent` | steno-processor.py:130-131 | passes whose first characters, ignoring case, do not occur in the text match nowhere |
| `Rewrite.OneWordMiss` | steno-processor.py:141-143 | a word-bounded pass matches nowhere in a text of one word of a different length |
| `Rewrite.ApplyAllEmpty` | steno-processor.py:145 | with non-empty replacements, the passes give the empty text iff the input is empty |
| `Ratios.Ratio` | steno-processor.py:145 | 1.0 for an empty result; otherwise the ratio times the new length is the old length, at least 1 iff the text did not grow, exactly 1 iff the length is kept |
| `Bridge.CompressionStats.constructor` | weekend-prototype.py:28-36 | both token counters start at zero |
| `Bridge.CompressionStats.CompressionRatio` | weekend-prototype.py:38-42 | 1.0 with no compressed tokens; otherwise original/compressed, at least 1 iff compression did not add tokens |
| `Bridge.Bridge.constructor` | weekend-prototype.py:56-114 | the built-in table, sorted longest phrase first, inverted for decompression, zeroed statistics, empty cache and counts |
| `Bridge.BridgeDictValid` | weekend-prototype.py:59-101 | the built-in table has non-empty, abbreviating entries with distinct phrases and distinct symbols |
| `Bridge.BuiltinDecompressions` | weekend-prototype.py:111 | inverting the built-in table loses no entry: each symbol maps back to its phrase |
| `Bridge.SortByLength` | weekend-prototype.py:104-108 | the sorted table is a permutation of the table with phrase lengths in descending order |
| `Dicts.SortDescSpec` | weekend-prototype.py:104-108 | the sort is stable: entries of equal rank keep their relative order |
| `Dicts.InvertDistinct` | weekend-prototype.py:111 | with distinct symbols, the inverse holds every entry swapped, in table order, with distinct keys |
| `Dicts.InvertMembers` | weekend-prototype.py:111 | every entry of the inverse is a swapped entry of the table |
| `Bridge.Bridge.Compress` | weekend-prototype.py:116-134 | returns the result of the three replacements per phrase; each counter grows by its length divided by 4, rounded down |
| `Bridge.CompressResult` | weekend-prototype.py:118-128 | the result is empty iff the text is, and its ratio times the result's length is the text's length |
| `Bridge.ReplacePatterns` | weekend-prototype.py:122-126 | the loop runs the exact, capitalised and upper-case replacement for each phrase, longest first |
| `Bridge.CompressRulesStep` | weekend-prototype.py:122-126 | one more phrase adds exactly its three replacements, in that order |
| `Bridge.CompressNotLonger` | weekend-prototype.py:116-128 | with an abbreviating table, compression never lengthens the text, leaves it unchanged when its length is kept, and the ratio is at least 1 |
| `Bridge.SortedCompressNotLonger` | weekend-prototype.py:104-128 | sorting keeps the table abbreviating, so the sorted passes never lengthen the text |
| `BridgeRoundTrip.DatabasesAbbreviated` | weekend-prototype.py:122-123 | a plain replacement with no word boundary turns "databases" into "[DB]s" |
| `BridgeRoundTrip.TitleCaseUntouched` | weekend-prototype.py:122-126 | "In Order To" is none of the three spellings tried for "in order to", so those three passes leave it unchanged |
| `BridgeRoundTrip.CompressOnly` | weekend-prototype.py:122-126 | when one phrase's passes turn the text into `t` and no other phrase is spelt in either, the passes of a table prefix give `t` once that phrase is in the prefix and the text before |
| `BridgeRoundTrip.PermutedCompressOnly` | weekend-prototype.py:104-128 | the same for a whole table holding the entries in any order, the longest-first order among them |
| `BridgeRoundTrip.CaselessUnspelt` | weekend-prototype.py:122-126 | a text that, wherever a phrase could start, differs from one of its characters ignoring case holds none of its three spellings |
| `BridgeRoundTrip.DatabasesCompressed` | weekend-prototype.py:59-128 | `compress("databases")` with the whole built-in table, in any order, is "[DB]s" |
| `BridgeRoundTrip.TitleCaseCompressed` | weekend-prototype.py:59-128 | `compress("In Order To")` with the whole built-in table, in any order, is "In Order To" |
| `BridgeRoundTrip.PatternAbsent` | weekend-prototype.py:122-126 | a phrase found in none of its three spellings leaves the text unchanged |
| `Bridge.Bridge.Decompress` | weekend-prototype.py:136-144 | the result is each symbol replaced back by its phrase, in the inverse table's order |
| `Bridge.DecompressRules` | weekend-prototype.py:141-142 | one exact replacement per inverse entry, in order |
| `Bridge.DecompressText` | weekend-prototype.py:136-144 | decompression gives the empty text iff it is given the empty text |
| `BridgeRoundTrip.RoundTrip` | weekend-prototype.py:104-144 | for a safe table and a lower-case text without `[`, decompressing the compressed text gives the text back |
| `BridgeRoundTrip.BuiltinSafe` | weekend-prototype.py:59-101 | the built-in table is safe: bracketed, distinct symbols no longer than any phrase; bracket-free phrases starting with a lower-case letter |
| `BridgeRoundTrip.BridgeRoundTrip` | weekend-prototype.py:116-144 | a bridge whose loaded table is safe gives back every lower-case, `[`-free text it compresses |
| `BridgeRoundTrip.CompressPieces` | weekend-prototype.py:122-126 | after the compression passes, the text is plain stretches and symbols, and each symbol stands for its phrase |
| `BridgeRoundTrip.DecompressPieces` | weekend-prototype.py:141-142 | the decompression passes expand every symbol back into its phrase |
| `BridgeRoundTrip.ApplyLitConcat` | weekend-prototype.py:123 | a replacement that no occurrence straddles works piece by piece across a concatenation |
| `BridgeRoundTrip.LitScanAgrees` | weekend-prototype.py:123 | the scan of `str.replace` is the same as an independent literal-only definition |
| `Bridge.Bridge.Production` | weekend-prototype.py:210-230 | the saved patterns merged into the built-in table with `dict.update`, then sorted and inverted; empty cache and counts |
| `Dicts.UpdateGet` | weekend-prototype.py:224 | after `update`, a saved key has its saved value and every other key keeps its value |
| `Dicts.UpdateKeepsOrder` | weekend-prototype.py:224 | `update` keeps existing keys in place and only appends new ones |
| `Bridge.Bridge.LearnFromText` | weekend-prototype.py:232-260 | the table and counts become those of the learner seeing every 2..5-word phrase in turn; the sorted table, inverse and cache are unchanged |
| `Bridge.ObserveNgrams` | weekend-prototype.py:239-256 | the loop over the phrases of one length is the learner seeing them left to right |
| `Bridge.ObserveSame` | weekend-prototype.py:244-256 | an unlearned phrase gains one count and joins the table iff its new count reaches the threshold |
| `Bridge.ObserveOther` | weekend-prototype.py:244-256 | seeing one phrase does not change another phrase's count or membership |
| `Bridge.LearnThreshold` | weekend-prototype.py:232-256 | after learning, an unlearned phrase seen `k` times is in the table iff `k > 0` and its old count plus `k` reaches the threshold; its count stops rising once it is learned |
| `Bridge.LearnGrows` | weekend-prototype.py:232-256 | learning only appends entries; each appended phrase came from the text, and entry `j` gets the symbol `[L<j>]` |
| `Bridge.LearnTokensDistinct` | weekend-prototype.py:253-256 | learned symbols never collide with each other or with existing ones |
| `Bridge.LearnedSymbolInjective` | weekend-prototype.py:255 | different table sizes give different `[L<n>]` symbols |
| `Bridge.BuiltinNotLearnedSymbols` | weekend-prototype.py:59-101 | no built-in symbol has the shape of a learned one |
| `Bridge.LearnConsistent` | weekend-prototype.py:232-260 | learning keeps the bridge's invariant: the loaded table stays a prefix, and the sorted table, inverse and cache still agree with it |
| `Bridge.Bridge.CompressWithCache` | weekend-prototype.py:268-281 | returns the compression of the text; on a hit the cache and statistics are unchanged; on a miss the result is cached and the statistics grow |
| `Llm.StenographicLlm.constructor` | steno-llm-integration.py:13-29 | model width and depth as given, 12 heads, feed-forward width four model widths, all statistics zero |
| `Llm.TokenEstimate` | steno-llm-integration.py:61-69 | `int(words * 1.3)` lies between the word count and twice it, and is zero iff there are no words |
| `Llm.StenographicLlm.CalculateFlops` | steno-llm-integration.py:31-44 | attention plus feed-forward plus the other terms factor as `n d L (n + 2 ffn + 4)`; zero for an empty sequence |
| `Llm.StenographicLlm.FlopsNonNegative` | steno-llm-integration.py:31-44 | with non-negative dimensions the count is non-negative and at least the attention term |
| `Llm.StenographicLlm.FlopsSaved` | steno-llm-integration.py:63-75 | shortening `n` tokens to `m` saves `(n - m) d L (n + m + 2 ffn + 4)` FLOPs |
| `Llm.StenographicLlm.FlopsMonotone` | steno-llm-integration.py:63-75 | a shorter sequence never costs more FLOPs |
| `Llm.StenographicLlm.ProcessWithCompression` | steno-llm-integration.py:56-91 | the FLOPs of the token estimates of the text and of its aggressive compression by the processor; one more sequence, both token sums and the compute saved updated; once a compressed text has words, the overall statistics are available; with no more compressed words than original ones, the compressed FLOPs are never above the original FLOPs |
| `Llm.StenographicLlm.OverallStats` | steno-llm-integration.py:93-109 | the error entry iff no sequence has been processed; a division by zero iff sequences were processed but the compressed token sum is zero; otherwise the number processed, the FLOPs saved, and an average compression that times the compressed sum gives the original sum |

## Left out

- agi-symbolic-code.py is not part of this model. It is not valid Python, and nothing in the compressors uses it.
- Calls into language models (the commented-out OpenAI, Anthropic and transformers clients), `process_with_llm`, the integrations, and `benchmark_compression` with its timing are not modelled. They are I/O and clocks.
- `print` calls are not modelled. In `learn_from_text` this is the "Learned new pattern" message.
- The pattern file is not read or written.
  - `Bridge.Bridge.Production` takes the saved patterns as a parameter instead of reading `patterns.json`.
  - `_save_patterns` is not modelled because it only writes the file.
  - The cache directory is not created.
- `Bridge.Bridge.Production` requires the saved patterns to have non-empty phrases and symbols. `json.load` could return any dict.
- `Bridge.Bridge.CompressWithCache` keys the cache by the text itself, not by its MD5 digest. Hash collisions are not modelled.
- Floating-point values are not modelled:
  - the time fields of `CompressionStats`, `speedup`, `total_saved_dollars`;
  - `simulate_forward_pass`;
  - the time savings and the `** 1.5` speed-up of `get_overall_stats`, whose average compression is an exact ratio;
  - the attention-memory estimate.
  - Ratios are exact reals.
- `Llm.StenographicLlm.ProcessWithCompression` keeps the token sums exactly, in tenths of a token, and `Llm.TokenEstimate` is `13 * words / 10` rounded down. Floating-point rounding of `len(...) * 1.3` is not modelled. The time sum is not kept because it comes from `simulate_forward_pass`.
- `StenoProcessor.Processor.Decompress` inserts each phrase literally. `re.sub` reads a backslash in the replacement as an escape or a group reference (steno-processor.py:168). A learned phrase that contains `\` would therefore come out changed, or make `re.sub` raise. The built-in phrases, words and suffixes contain no backslash.
- Regular expressions are modelled only for the four pattern shapes the source builds, with ASCII `\w` and ASCII case folding. Unicode word characters and Unicode case folding are not modelled.
- `re.escape` is implicit, because patterns match literally.
- The weekend prototype's `ProductionBridge` names its base class `StenographicBridge`, which the file never defines. The model treats it as `StenogressiveBridge`, so one class `Bridge.Bridge` holds both.
- In `learn_from_text`, newly learned phrases enter `compressions` but not `sorted_compressions` or `decompressions`. The source rebuilds those only when it loads the file. The model keeps that behaviour, so learned phrases take effect only in a later `Production` bridge.
- `StenoProcessor.Processor.AnalyzeCorpus` runs the loop that keeps frequent n-grams on the learned table and counter, through `StenoProcessor.KeepFrequent`, and then assigns both fields once. The source updates the two fields on every iteration. The resulting state is the same.
- Whole-table examples cover only one-word texts: "only", "ur" and "[+B]" for the processor, and "databases" and "In Order To" for the bridge.
  - Not evaluated: the processor compressing "in order to be able to understand", the counting of a concrete corpus, and the bridge compressing a longer sentence.
  - Each of these needs a proof that no other pass matches, over every pass of the table. For longer texts such a proof does not fit the verifier's resource limit.
- `BridgeRoundTrip.RoundTrip` holds only for a lower-case text without `[` and a safe table.
  - An upper-case phrase spelling is compressed but comes back lower-case.
  - A `[` in the text can be taken for a symbol.
- `BridgeRoundTrip.BridgeRoundTrip` additionally covers only the table loaded at construction, as explained above for learned phrases.
