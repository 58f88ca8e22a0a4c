# Manual word-level adversarial attack on emotion scores — Dafny model

This project models the core of a tool that perturbs a text message, one word
substitution at a time, so that its emotion profile under the NRC emotion
lexicon changes while the sentence stays semantically close and grammatical.

Three Dafny modules:

- `Seqs` (`seqs.dfy`) holds generic sequence helpers. It has order-keeping
  `Filter`, and `Dedup`, which gives first-occurrence order, the key order a
  Python dict gets from insertion. It also has `FirstIndex`, `Distinct` and
  the subsequence relation `Subseq`.
- `NrcTool` (`nrc_tool.dfy`) post-processes the lexicon's analysis of a text.
  - `AffectDict` is the prioritised affect dictionary: sentiments removed,
    empty words dropped, then a stable sort by number of emotions, largest
    first.
  - `FreqTable` is the frequency table. It starts with the eight prototypical
    emotions at 0.0 and each counted emotion gets its rounded share.
    `NrcAffectFreqs` is a method with the two loops of `nrc_affect_freqs`
    (Counter building and table update), proved equal to `FreqTable`.
  - `NrcTopEmotions` lists the dominant emotions.
- `ManualWordPipeline` (`manual_word_pipeline.dfy`) models the attack class.
  - Class `ManualAttack` has `const` fields, because only the constructor
    assigns them.
  - Candidate search over word embeddings.
  - Grammar-fix selection `LangCheck`. It is a method with the
    `while`/`try`/`break` control flow of `lang_check`, proved equal to the
    function `Fixed`.
  - The literal `re.sub` replacement `ReplaceAll`.
  - The nested search loop `NonEmotionalPipeline`, proved to return the first
    accepted attempt in search order, or the sentinel text.
  - `FullPipeline`.

External services are parameters of the model, not models of their own:
- the lexicon analysis: `Libraries.nrcLex`, the word-to-emotions entries of a text;
- the word embeddings: `Embeddings.mostSimilar`, `Embeddings.contains`;
- the sentence encoder and its cosine similarity: `SentenceModel.cosSim`;
- the grammar checker: `LanguageTool.check`;
- its corrector: `Libraries.correct`;
- stop-word removal and tokenisation: `Libraries.removeStopwords`, `Libraries.tokenize`.

Each is an uninterpreted function value, so every result holds for every
behaviour of these services.

A Python dict is modelled as an ordered key sequence plus a map (`Table`).
Dict equality, as used in the acceptance test, compares only the maps.

## Model

| member | source | states |
|---|---|---|
| Seqs.Filter | modules/nrc_tool.py:23 | a list comprehension with a condition keeps exactly the elements satisfying it and is never longer than its input |
| Seqs.FilterKeepsOrder | modules/nrc_tool.py:23 | the comprehension keeps the input order and keeps every accepted value as often as it occurs |
| Seqs.Dedup | modules/nrc_tool.py:58-60 | the keys of a dict or Counter filled from a list are distinct and are exactly the list's elements |
| Seqs.DedupFirstOrder | modules/nrc_tool.py:58-60 | those keys appear in the order of their first occurrence in the list |
| Seqs.FilterDedupOrder | modules/manual_word_pipeline.py:53 | keys of a dict built from a filtered list keep the first-occurrence order of the unfiltered list |
| NrcTool.Unsentimental | modules/nrc_tool.py:22-23 | an emotion list after the removal loop holds neither "positive" nor "negative", is a subsequence of the input list, and keeps every other tag with its multiplicity |
| NrcTool.RemoveSentiments | modules/nrc_tool.py:22-23 | the removal loop, one dict comprehension per sentiment in order; `RemoveSentimentsPerEntry` states its effect on each entry |
| NrcTool.RemoveSentimentsPerEntry | modules/nrc_tool.py:22-23 | the removal loop, one pass per sentiment, keeps every word in place and filters each word's list by "not a sentiment" |
| NrcTool.Stripped | modules/nrc_tool.py:22-26 | the dictionary after the removal loop and the removal of empty lists; `StrippedEntries` states exactly which entries remain |
| NrcTool.StrippedEntries | modules/nrc_tool.py:22-26 | after dropping empty lists, exactly the stripped input entries that still have an emotion remain |
| NrcTool.InsertPermutes | modules/nrc_tool.py:28-30 | one insertion step of the sort adds exactly the inserted entry |
| NrcTool.InsertMembers | modules/nrc_tool.py:28-30 | an insertion step introduces no entry other than the inserted one |
| NrcTool.InsertSorted | modules/nrc_tool.py:28-30 | inserting into a list sorted by descending emotion count keeps it sorted |
| NrcTool.InsertWithCount | modules/nrc_tool.py:28-30 | inserting keeps the relative order among entries with the same emotion count (stability) |
| NrcTool.SortByCountProperties | modules/nrc_tool.py:28-30 | `sorted(..., key=len, reverse=True)` yields a list sorted by descending count that is a permutation of its input, with equal counts kept in input order |
| NrcTool.SortByCount | modules/nrc_tool.py:28-30 | the stable descending sort by emotion count, as repeated insertion; what it promises (sorted, a permutation, stable) is stated by `SortByCountProperties` |
| NrcTool.AffectDict | modules/nrc_tool.py:9-32 | `nrc_affect_dict` on the lexicon entries: removal of the two sentiments, dropping of empty words, then the sort; its promises are stated by `AffectDictProperties`, `AffectDictMembers` and `AffectDictEmptyIff` |
| NrcTool.AffectDictProperties | modules/nrc_tool.py:9-32 | every entry of the affect dictionary is nonempty and sentiment-free, comes from an input word, every input word with a non-sentiment emotion is present, and the result is sorted by count |
| NrcTool.AffectDictMembers | modules/nrc_tool.py:22-30 | an entry is in the affect dictionary if and only if it is a stripped input entry with at least one emotion |
| NrcTool.AffectDictEmptyIff | modules/nrc_tool.py:22-26 | the affect dictionary is empty exactly when every tag the lexicon gave is an elementary sentiment |
| NrcTool.Flatten | modules/nrc_tool.py:46 | the nested comprehension concatenating the emotion lists in entry order; `FlattenMember` states its membership and `FlattenEmpty` when it is empty |
| NrcTool.AffectList | modules/nrc_tool.py:45-46 | `affect_list`: the emotion lists of the dictionary concatenated in entry order; its promises are stated by `FlattenMember`, `AffectListSentimentFree` and `AffectListEmptyIff` |
| NrcTool.FlattenMember | modules/nrc_tool.py:45-46 | a tag is in the flattened list if and only if some entry of the dictionary carries it |
| NrcTool.AffectListSentimentFree | modules/nrc_tool.py:22-23 | neither "positive" nor "negative" reaches the affect list |
| NrcTool.Round2 | modules/nrc_tool.py:65 | `round(x, 2)` lies within 0.005 of x |
| NrcTool.FreqTable | modules/nrc_tool.py:34-67 | the table is well formed (distinct keys, all with values) and starts with the eight emotions in their fixed order |
| NrcTool.CountMap | modules/nrc_tool.py:58-60 | the Counter as a map from each tag to its number of occurrences; `CountEmotions` is proved to build it |
| NrcTool.CountEmotions | modules/nrc_tool.py:58-60 | the Counter loop yields the distinct emotions in first-occurrence order, each mapped to its number of occurrences |
| NrcTool.SumValues | modules/nrc_tool.py:62 | `sum(values())` over the Counter in key order; `CounterTotal` states that it is the length of the affect list |
| NrcTool.CounterTotal | modules/nrc_tool.py:62 | the sum of the Counter's values is the length of the affect list |
| NrcTool.PercentageStep | modules/nrc_tool.py:64-65 | one update with the rounded quotient of count and total turns the table after i keys into the table after i+1 keys; the key is counted and the total is positive, so there is no division by zero |
| NrcTool.PartialTableEnds | modules/nrc_tool.py:49-65 | before the update loop the table is the eight emotions at 0.0; after it every key of the final table holds its share |
| NrcTool.NrcAffectFreqs | modules/nrc_tool.py:34-67 | the method with its two loops returns exactly the frequency table |
| NrcTool.Share | modules/nrc_tool.py:65 | the rounded quotient of a tag's count and the total; `FreqTableValues` states that it is each counted tag's value, within 0.005 of the exact share |
| NrcTool.FreqTableValues | modules/nrc_tool.py:49-65 | the keys are the eight emotions plus every counted emotion; uncounted keys stay 0.0; a counted emotion's value is its rounded share, within 0.005 of its exact relative frequency |
| NrcTool.FreqTableSentimentFree | modules/nrc_tool.py:34-67 | "positive" and "negative" are never keys of the frequency table, so only the eight emotions and the other lexicon tags are scored |
| NrcTool.AffectListEmptyIff | modules/nrc_tool.py:45-46 | the flattened affect list is empty exactly when the affect dictionary is empty |
| NrcTool.EmptyAffectTable | modules/nrc_tool.py:49-65 | with no emotion-bearing word the table is the eight emotions at 0.0, in order |
| NrcTool.MaxFreq | modules/nrc_tool.py:79 | `max(values())` is an upper bound of the values and is attained |
| NrcTool.MaxAttainers | modules/nrc_tool.py:79 | a key's value equals the maximum if and only if no key's value exceeds it |
| NrcTool.MaxKeys | modules/nrc_tool.py:69-81 | the dominant emotions are nonempty, are exactly the keys no other key exceeds, and keep the table's key order |
| NrcTool.NrcTopEmotions | modules/nrc_tool.py:69-81 | `nrc_top_emotions` is the dominant-key list of the frequency table; its promises are stated by `MaxKeys` and `EmptyAffectTopEmotions` |
| NrcTool.EmptyAffectTopEmotions | modules/nrc_tool.py:69-81 | for a text without emotion-bearing words all eight emotions are dominant, in table order |
| ManualWordPipeline.Lower | modules/manual_word_pipeline.py:34 | `lower()` keeps the length, leaves no upper-case letter, and changes only upper-case letters, each to its lower-case counterpart |
| ManualWordPipeline.LowerIdempotent | modules/manual_word_pipeline.py:34 | lower-casing an already lower-cased text changes nothing |
| ManualWordPipeline.StripPunctuation | modules/manual_word_pipeline.py:116 | deleting `string.punctuation` keeps exactly the other characters, in order and with their multiplicities |
| ManualWordPipeline.ReplaceAll | modules/manual_word_pipeline.py:122 | `re.sub` with a plain word: every non-overlapping occurrence, left to right, is replaced; `ReplaceAllLeftmost` (the leftmost occurrence is replaced and the scan resumes after it) and `ReplaceAllAbsent` (no occurrence, no change) together determine it for every non-empty word |
| ManualWordPipeline.ReplaceAllAbsent | modules/manual_word_pipeline.py:122 | substituting a word that does not occur leaves the text unchanged |
| ManualWordPipeline.ReplaceAllSelf | modules/manual_word_pipeline.py:122 | substituting a word by itself leaves the text unchanged |
| ManualWordPipeline.ReplaceAllLeftmost | modules/manual_word_pipeline.py:122 | when the leftmost occurrence of the word starts at k, the result is the text before k, then the replacement, then the substitution applied to the text after that occurrence |
| ManualWordPipeline.ReplaceAllNoOverlap | modules/manual_word_pipeline.py:122 | occurrences do not overlap: an occurrence that starts inside a replaced one is left alone ("lolol" with "lol" replaced by "x" becomes "xol") |
| ManualWordPipeline.ReplaceAllInsideWords | modules/manual_word_pipeline.py:122 | the substitution also rewrites occurrences inside longer words ("cart car" becomes "bust bus") |
| ManualWordPipeline.ReplaceAllLength | modules/manual_word_pipeline.py:122 | a replacement longer than the word never shortens the text, a shorter one never lengthens it |
| ManualWordPipeline.ReplaceAllChanges | modules/manual_word_pipeline.py:122 | if the word occurs anywhere, inside a longer word or not, and the replacement differs from it, the text changes |
| ManualWordPipeline.ReplaceAllUnchangedIff | modules/manual_word_pipeline.py:122 | the substitution leaves the text unchanged if and only if the word is replaced by itself or does not occur |
| ManualWordPipeline.MismatchPositionsSpec | modules/manual_word_pipeline.py:78-81 | the positions where the two issue lists' messages differ, listed increasingly, and no other positions |
| ManualWordPipeline.PrefixFixes | modules/manual_word_pipeline.py:79-81 | the issues the scan over the shared prefix appends, in order; `PrefixFixesPositions` states that they are exactly the issues at the mismatching positions |
| ManualWordPipeline.PrefixFixesPositions | modules/manual_word_pipeline.py:79-81 | the issues the inner loop appends are exactly the new text's issues at those mismatching positions, in order |
| ManualWordPipeline.FixSelection | modules/manual_word_pipeline.py:73-86 | the issues `lang_check` passes to the corrector; its promises are stated by `FixSelectionSpec` |
| ManualWordPipeline.FixSelectionOnlyMismatches | modules/manual_word_pipeline.py:78-86 | when the new text has more issues, every selected issue is its last issue or an issue of the shared prefix whose message differs |
| ManualWordPipeline.FixSelectionAllMismatches | modules/manual_word_pipeline.py:78-81 | when the new text has more issues, every issue of the shared prefix whose message differs is selected |
| ManualWordPipeline.FixSelectionSpec | modules/manual_word_pipeline.py:73-86 | issues are selected if and only if the new text has more issues; the selection ends with the new text's last issue, contains every issue whose message differs in the shared prefix, and nothing else |
| ManualWordPipeline.SelectionExample | modules/manual_word_pipeline.py:73-86 | when the new text only adds one issue at the end, that issue alone is selected |
| ManualWordPipeline.Tries | modules/manual_word_pipeline.py:119-122 | the candidate texts the nested loop tries, in loop order: for each in-vocabulary word, the perturbation with each of its candidates; its promises are stated by `TriesPrefix`, `TriesCover` and `FirstFound` |
| ManualWordPipeline.TriesPrefix | modules/manual_word_pipeline.py:119-122 | the attempts for the first n words are a prefix of all attempts |
| ManualWordPipeline.TriesCover | modules/manual_word_pipeline.py:119-122 | every candidate of every in-vocabulary target word is attempted |
| ManualWordPipeline.FirstFound | modules/manual_word_pipeline.py:119-130 | an accepted attempt with no accepted attempt before it is the first accepted attempt of the whole search |
| ManualWordPipeline.ManualAttack.constructor | modules/manual_word_pipeline.py:22-42 | the stored text is the lower-cased input; the other fields are the arguments; the cached table and dominant emotions are those of the lower-cased text |
| ManualWordPipeline.ManualAttack.Neighbours | modules/manual_word_pipeline.py:52 | the words of the 50 nearest neighbours, in the order the embeddings return them; `NonEmotionalReplacement` states what is kept of them |
| ManualWordPipeline.ManualAttack.NonEmotionalReplacement | modules/manual_word_pipeline.py:44-54 | the candidates are distinct, are exactly the 50 nearest neighbours found in the lexicon, and keep the neighbours' order of first occurrence |
| ManualWordPipeline.ManualAttack.Fixed | modules/manual_word_pipeline.py:59-89 | the corrected perturbed text: the corrector applied to the selected issues; `LangCheck` is proved to compute it and `FixSelectionSpec` states the selection |
| ManualWordPipeline.ManualAttack.LangCheck | modules/manual_word_pipeline.py:59-89 | the loop with its caught index error and `break` corrects the new text with exactly the selected issues |
| ManualWordPipeline.ManualAttack.SentenceSimilarity | modules/manual_word_pipeline.py:91-104 | two texts are similar when the cosine similarity of their encodings reaches the sentence threshold; `NonEmotionalPipeline` promises it of every returned attack |
| ManualWordPipeline.ManualAttack.Accepts | modules/manual_word_pipeline.py:129 | the three checks on a candidate text; `NonEmotionalPipeline` promises them of every returned attack and `ExhaustedSearch` states that they failed for every candidate when the search fails |
| ManualWordPipeline.ManualAttack.TargetWords | modules/manual_word_pipeline.py:115-116 | the content words: stop words removed, punctuation stripped (`StripPunctuation`), then tokenised; the shuffled order passed to the search is a permutation of them |
| ManualWordPipeline.ManualAttack.Perturb | modules/manual_word_pipeline.py:122 | the candidate substituted for the word everywhere in the text, then grammar-corrected; `ReplaceAllLeftmost` states the substitution and `LangCheck` the correction |
| ManualWordPipeline.ManualAttack.RowCovers | modules/manual_word_pipeline.py:121-122 | every replacement candidate of a word yields an attempted text |
| ManualWordPipeline.ManualAttack.Attempts | modules/manual_word_pipeline.py:119-122 | every candidate text the search tries, in loop order; `TriesCover` and `TriesPrefix` state what it holds and in which order |
| ManualWordPipeline.ManualAttack.SearchOutcome | modules/manual_word_pipeline.py:119-131 | the first accepted attempt, or the failure message when none is accepted; `NonEmotionalPipeline` is proved to return it and `ExhaustedSearch` states the failure case |
| ManualWordPipeline.ManualAttack.NonEmotionalPipeline | modules/manual_word_pipeline.py:106-131 | the result is the first attempt that passes the three checks in search order, or the failure message when none does; a returned attack differs from the text, is close enough to it, and changes the emotion table |
| ManualWordPipeline.ManualAttack.ExhaustedSearch | modules/manual_word_pipeline.py:119-131 | when the failure message is returned, no candidate of any in-vocabulary target word passed the checks |
| ManualWordPipeline.ManualAttack.TargetWordsPrio | modules/manual_word_pipeline.py:136 | one target word per entry of the affect dictionary; `SearchRunsIff` states when it is empty |
| ManualWordPipeline.ManualAttack.FullPipeline | modules/manual_word_pipeline.py:133-141 | an attack is attempted exactly when the affect dictionary is empty, and then its result is the search outcome; otherwise there is no result |
| ManualWordPipeline.SearchRunsIff | modules/manual_word_pipeline.py:136-141 | the search runs exactly when every lexicon tag of the text is a sentiment, and then the cached dominant emotions are all eight emotions |

## Left out

- The NRC lexicon lookup (`NRCLex(text).affect_dict`) is a parameter (`Libraries.nrcLex`). The model starts from the word-to-emotions entries it returns.
- Word embeddings (`most_similar`, `__contains__`), the sentence encoder with `pytorch_cos_sim`, the grammar checker and `utils.correct` are parameters. Their internals are not modelled.
- `remove_stopwords` and `tokenize` from gensim are parameters.
- The constructor defaults (modules/manual_word_pipeline.py:23-25) name a word lexicon, GloVe vectors, a sentence model and a grammar tool (`wordlex`, `glove_vectors`, `sent_sim_model`, `lang_tool`). The file uses these names but never defines or imports them, and Python evaluates defaults when the class is defined. The model makes them explicit constructor arguments. The word lexicon is modelled as the set of its index words.
- `random.shuffle`: the shuffled target-word order is an argument. It is required to be a permutation of the target words.
- Floating point: shares and `round(x, 2)` are exact reals rounded to the nearest hundredth, ties to even. Binary representation effects of `round` on floats are not modelled.
- NrcTool.Round2: states only the 0.005 bound, not that the result is a multiple of 0.01.
- `str.lower()` is modelled for ASCII letters only. Unicode case mapping is not modelled.
- `re.sub(word, candidate, text)` is modelled as literal replacement of every non-overlapping occurrence, left to right. Regular-expression metacharacters in `word` and backslash escapes in `candidate` are not interpreted.
- `emotional_replacement` (modules/manual_word_pipeline.py:56-57) has an empty body. It is not modelled.
- `word_sim` is stored by the constructor but never read by the modelled code. The model only stores it.
- `full_pipeline` falls off its end, returning `None`, when the text has emotion-bearing words. This is modelled as `Option.None`.
- ManualWordPipeline.ManualAttack.ExhaustedSearch: requires that the failure message itself is not acceptable. The failure message is returned as ordinary text (modules/manual_word_pipeline.py:130-131), so an accepted attempt equal to "No adversarial attack found." cannot be told apart from a failed search.
- ManualWordPipeline.ManualAttack.TargetWordsPrio: states only that it has one word per affect-dictionary entry. The empty-iff fact is in `SearchRunsIff`.
- Where docstrings and code disagree, the model follows the code:
  - `lang_check` (modules/manual_word_pipeline.py:72-86) selects every mismatching issue in the shared prefix plus the last issue, not a single fix.
  - `non_emotional_replacement` returns a list of keys, not a dictionary with scores.
  - The substitution replaces every occurrence of the word, including occurrences inside other words.
