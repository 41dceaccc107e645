# Byte-level BPE tokenizer: training and encoding, modelled in Dafny

This project models the core of a byte-level byte-pair-encoding (BPE) tokenizer.

**Training.** `run_train_bpe` does the following:
- cuts a corpus into chunks at `<|endoftext|>` markers;
- pre-tokenizes every chunk into words, where a word is a tuple of single-byte symbols;
- adds up the word counts;
- then, once per vocabulary id after the special tokens:
  - counts adjacent symbol pairs, each weighted by its word's count;
  - records the most frequent pair, with ties broken by the largest pair;
  - rewrites every word that contains the pair.

**Encoding and decoding.** The `BPETokenizer` class does the following:
- splits text around its special tokens;
- applies the recorded merges to every pre-token, in order;
- maps the resulting symbols to vocabulary ids, by the first id whose entry is equal;
- decodes ids back to text.

The helpers come in two copies: `src/utils/tokenizer.py`, which the encoder uses, and `training/tokenizer/utils.py`, which training uses. Both copies of `get_adj_pairs`, `get_most_freq_pair`, `combine_pair` and `remove_indices` are identical, so they are modelled once, in `PairUtils`. The two `merge` functions differ, and each is modelled on its own:
- `GreedyMerge` is the left-to-right greedy pass;
- `IndexMerge` marks matches and then removes collected positions.

The two `pre_tokenize` functions also differ, and `PreTokenize` models both.

Modules:

- **Results**: `Option`, `Result`, and the exceptions the code can raise:
  - `ZeroDivisionError`, `IndexError` and `KeyError`;
  - `EmptyMaxError`, the `ValueError` of `max()` on an empty sequence;
  - `UnicodeDecodeError`.
- **ByteStrings**: `Byte`, and a `Symbol` as a `bytes` value. A `Word` is a tuple of symbols and a `Pair` is a pair of symbols. The module also defines `Flatten`, the per-byte split, and Python's ordering of `bytes` and of pairs, which `max` uses.
- **Dicts**: Python's insertion-ordered `dict`, as a key order plus a map. Order matters in two places:
  - it decides which words overwrite which when words are rewritten;
  - it decides which id `_get_key` returns.
- **PairUtils**, **GreedyMerge**, **IndexMerge**, **ChunkBoundaries**, **PreTokenize**: the helper functions.
- **Trainer**: `run_train_bpe`.
- **Tokenizer**: `_get_key` and `BPETokenizer`.

Imperative code is modelled as methods with loops. Each loop is proved against a specification function, and that function's meaning is proved in lemmas. The pure helpers are functions.

Two behaviours may surprise a reader:
- **Rewriting.** A word rewritten by a merge overwrites any existing entry with the merged key (`freq_tab[merged_word] = freq_tab.pop(w)`). It does not add to that entry.
- **Running out of pairs.** When no pair is left, training raises the `ValueError` of `max()`. It does not stop early.

Other points that follow the code:
- The vocabulary holds the regex-escaped special tokens, not the raw ones.
- The vocabulary has no initial 256 single-byte entries.
- `encode` produces `None` for a symbol that has no vocabulary entry.

## Model

| member | source | states |
|---|---|---|
| ByteStrings.FlattenSplitBytes | src/utils/tokenizer.py:112 | splitting a byte string into one-byte symbols gives one symbol per byte and concatenates back to the same bytes |
| ByteStrings.BytesLessIrreflexive | src/utils/tokenizer.py:12 | the `bytes` ordering used by `max` is strict |
| ByteStrings.BytesLessTransitive | src/utils/tokenizer.py:12 | the `bytes` ordering is transitive |
| ByteStrings.BytesLessTotal | src/utils/tokenizer.py:12 | any two distinct byte strings are ordered one way or the other, so `max` is well defined |
| ByteStrings.PairLessIrreflexive | src/utils/tokenizer.py:12 | the lexicographic tuple ordering of pairs is strict |
| ByteStrings.PairLessTransitive | src/utils/tokenizer.py:12 | the pair ordering is transitive |
| ByteStrings.PairLessTotal | src/utils/tokenizer.py:12 | the pair ordering is total on distinct pairs |
| ByteStrings.FlattenConcat | src/utils/tokenizer.py:15 | the concatenated bytes of two words joined is the bytes of each, joined |
| PairUtils.GetAdjPairs | src/utils/tokenizer.py:7-8 | one pair fewer than symbols (none for an empty word); pair k is symbols k and k+1 |
| PairUtils.CombinePair | src/utils/tokenizer.py:14-15 | the combined symbol is the first symbol's bytes followed by the second's |
| PairUtils.KeptPositions | src/utils/tokenizer.py:17-19 | the kept positions are exactly the in-range positions not in `indices`, ascending |
| PairUtils.RemoveFromKept | src/utils/tokenizer.py:17-19 | the result of removing from position k on lists the elements at the kept positions, in order |
| PairUtils.RemoveIndicesKept | src/utils/tokenizer.py:17-19 | `remove_indices` returns exactly the elements whose positions are not listed, in their original order |
| PairUtils.GetMostFreqPair | src/utils/tokenizer.py:10-12 | raises the `max()` error exactly when the pair table is empty |
| PairUtils.GetMostFreqPairIsMostFrequent | src/utils/tokenizer.py:10-12 | on a non-empty table the chosen pair has the maximum count and is the largest pair among those with that count |
| PairUtils.MostFrequentUnique | src/utils/tokenizer.py:10-12 | the most frequent pair with the tie-break is unique, so the choice is determined by the counts |
| PairUtils.MaxCountIsMax | src/utils/tokenizer.py:11 | `max(pair_count.values())` is attained by some key and bounds every count |
| PairUtils.KeysWithCountMembers | src/utils/tokenizer.py:12 | the filtered list holds exactly the keys whose count equals the maximum |
| PairUtils.MaxPairIsMax | src/utils/tokenizer.py:12 | `max` of a non-empty list of pairs is a member that no member exceeds |
| GreedyMerge.Merge | src/utils/tokenizer.py:21-49 | `None` exactly when the pair never occurs adjacently; otherwise the word with every occurrence merged in one greedy left-to-right pass |
| GreedyMerge.GreedyFromHead | src/utils/tokenizer.py:40-47 | the pass emits, at each position, the combined symbol on a match and the symbol itself otherwise |
| GreedyMerge.GreedyFromLength | src/utils/tokenizer.py:40-47 | the pass never lengthens the rest of the word, and strictly shortens it when a match remains |
| GreedyMerge.GreedyShorter | src/utils/tokenizer.py:21-49 | a merged word is shorter than the input and not empty, so `if optional_t` holds for it |
| GreedyMerge.GreedyFromFlatten | src/utils/tokenizer.py:40-47 | the rest of the pass spells the same bytes as the rest of the word |
| GreedyMerge.GreedyFlatten | src/utils/tokenizer.py:21-49 | merging never changes the bytes the word spells |
| GreedyMerge.NoMatchCons | src/utils/tokenizer.py:41 | prefixing a symbol that does not start the pair creates no occurrence |
| GreedyMerge.GreedyFromNoResidual | src/utils/tokenizer.py:40-47 | after the pass from any position, no adjacent occurrence of the pair is left (non-empty pair halves) |
| GreedyMerge.GreedyNoResidual | src/utils/tokenizer.py:21-49 | for a pair whose two halves are non-empty, the merged word contains no adjacent occurrence of the pair |
| GreedyMerge.GreedyOverlap | src/utils/tokenizer.py:45 | overlapping occurrences are merged left first: `(a,a,a)` with `(a,a)` gives `(aa,a)` |
| IndexMerge.Merge | training/tokenizer/utils.py:21-46 | `None` exactly when the pair never occurs adjacently; otherwise every match position marked and the positions after matches removed |
| IndexMerge.MarkDone | training/tokenizer/utils.py:35-44 | after the loop every match position is marked and `pair_found` is exactly "the pair occurs" |
| IndexMerge.PopIndicesMembership | training/tokenizer/utils.py:43 | position j is collected exactly when a match starts at j-1 |
| IndexMerge.RemoveFromMarked | training/tokenizer/utils.py:44-45 | removing the collected positions drops exactly each position right after a match |
| IndexMerge.RemoveFromStep | training/tokenizer/utils.py:17-19 | one step of removal keeps the element at k exactly when k is not listed |
| IndexMerge.IndexMergedIsFrom | training/tokenizer/utils.py:44-46 | the index merge equals its position-by-position reading |
| IndexMerge.IndexMergedFromLength | training/tokenizer/utils.py:43-45 | the result loses exactly one symbol per match position |
| IndexMerge.CountFromBounds | training/tokenizer/utils.py:35-36 | there are fewer match positions than symbols, and at least one when the pair occurs |
| IndexMerge.IndexMergeLength | training/tokenizer/utils.py:21-46 | the merged word is the input length minus the number of match positions |
| IndexMerge.IndexMergeShorter | training/tokenizer/utils.py:21-46 | a merged word is shorter and never empty, so the truth test `if merged_word` holds |
| IndexMerge.IndexMergedFromIsGreedy | training/tokenizer/utils.py:35-45 | for a pair of two different symbols, the index merge agrees with the greedy pass from any position not right after a match |
| IndexMerge.IndexMergeAgreesWithGreedy | training/tokenizer/utils.py:21-46 | for a pair of two different symbols, both `merge` functions give the same word |
| IndexMerge.IndexMergeOverlapLosesBytes | training/tokenizer/utils.py:35-45 | `(a,a,a)` with `(a,a)` becomes `(aa,)`, which no longer spells the word's bytes |
| ChunkBoundaries.Read | src/utils/tokenizer.py:82 | `file.read(n)` at `pos` is empty exactly at end of file (or n = 0) and is otherwise the next at most n bytes of the file |
| ChunkBoundaries.FindFrom | src/utils/tokenizer.py:90 | the search from k returns -1 or an occurrence at or after k, with no occurrence before it |
| ChunkBoundaries.Find | src/utils/tokenizer.py:90 | `bytes.find` is -1 exactly when there is no occurrence, otherwise the first occurrence |
| ChunkBoundaries.NextBoundaryBounds | src/utils/tokenizer.py:79-94 | a moved boundary never goes back, stays in the file, and sits on the marker or at end of file |
| ChunkBoundaries.MoveBoundary | src/utils/tokenizer.py:79-94 | the read-ahead loop sets boundary bi to where the marker search puts it and changes no other entry |
| ChunkBoundaries.PlaceBoundaries | src/utils/tokenizer.py:73-94 | the list before deduplication is 0, each moved guess, then the file size |
| ChunkBoundaries.Guess | src/utils/tokenizer.py:69-73 | a guess `i * (size // d)` with i <= d lies inside the file |
| ChunkBoundaries.GuessInFile | src/utils/tokenizer.py:69-73 | `i * (n // d) <= n` for i <= d |
| ChunkBoundaries.PlannedEntry | src/utils/tokenizer.py:73-94 | each planned entry is in the file and is 0, the size, or a marker offset at or after its guess |
| ChunkBoundaries.Insert | src/utils/tokenizer.py:97 | inserting into a strictly ascending list keeps it strictly ascending and adds exactly that element |
| ChunkBoundaries.SortedSet | src/utils/tokenizer.py:97 | `sorted(set(xs))` is strictly ascending with exactly the elements of xs |
| ChunkBoundaries.StrictlyIncreasingEnds | src/utils/tokenizer.py:97 | a strictly ascending list holding its minimum and maximum starts and ends with them |
| ChunkBoundaries.PlanIsBoundaryList | src/utils/tokenizer.py:51-97 | the result runs strictly ascending from 0 to the size, has at most d+1 entries, and every inner entry is a marker offset reached from a guess |
| ChunkBoundaries.NoMarkerSingleChunk | src/utils/tokenizer.py:78-97 | a non-empty file without the marker becomes the single chunk `[0, size]` |
| ChunkBoundaries.FindChunkBoundaries | src/utils/tokenizer.py:51-97 | zero chunks raises ZeroDivisionError, a negative count raises IndexError, and otherwise the boundary list above |
| PreTokenize.AllSegmentsSnoc | src/utils/tokenizer.py:109-110 | the segments of one more piece are the earlier ones followed by that piece's matches |
| PreTokenize.OccurrencesPositive | src/utils/tokenizer.py:111-112 | a key is counted at least once exactly when some segment splits into it |
| PreTokenize.TallyValid | src/utils/tokenizer.py:108-116 | the frequency table is a well-formed dict |
| PreTokenize.CountSegment | src/utils/tokenizer.py:112-116 | the if/else step adds one to the count of the segment's per-byte split, inserting it last when new |
| PreTokenize.TallyCounts | src/utils/tokenizer.py:108-117 | every key present has been seen, and its count is its number of occurrences |
| PreTokenize.TallyMeaning | src/utils/tokenizer.py:108-117 | the keys are exactly the per-byte splits of the segments, counted by occurrence |
| PreTokenize.PreTokenize | src/utils/tokenizer.py:99-117 | the table of the chunk split around the special tokens (only when there are any), with each key's true occurrence count |
| PreTokenize.TallyOnesValid | training/tokenizer/utils.py:103-111 | the training frequency table is a well-formed dict |
| PreTokenize.TallyOnesCounts | training/tokenizer/utils.py:103-112 | the keys are the segments seen, and every count is 1 |
| PreTokenize.TallyOnesMeaning | training/tokenizer/utils.py:103-112 | the keys are exactly the per-byte splits of the segments, each with count 1 |
| PreTokenize.TallyOnesUndercounts | training/tokenizer/utils.py:108-111 | a segment seen twice is counted 1 where a true tally gives 2 |
| PreTokenize.TrainingPreTokenize | training/tokenizer/utils.py:96-112 | always splits on the joined special tokens, then gives every segment's key count 1 |
| Dicts.Without | training/tokenizer/bpe.py:89 | popping a key removes exactly that key from the key order, keeping it duplicate-free |
| Dicts.Dict.SetValid | training/tokenizer/bpe.py:89 | assignment keeps the dict well formed |
| Dicts.WithoutKeepsOrder | training/tokenizer/bpe.py:89 | removing a key with `d.pop(k)` keeps every two remaining keys in the relative order they had |
| Dicts.Dict.PopValid | training/tokenizer/bpe.py:89 | popping keeps the dict well formed |
| Dicts.AddTo | training/tokenizer/bpe.py:77-80 | adding c to a key: its count grows by c (from 0 when absent), and a new key goes last |
| Dicts.AddToGet | training/tokenizer/bpe.py:77-80 | only the updated key's count changes, by exactly c |
| Dicts.AddToValid | training/tokenizer/bpe.py:77-80 | adding to a count keeps the dict well formed |
| Dicts.Empty | training/tokenizer/bpe.py:70 | `{}` is a well-formed empty dict |
| Trainer.Range | training/tokenizer/bpe.py:46 | `range(n)` lists 0 .. n-1 |
| Trainer.Escaped | training/tokenizer/bpe.py:43 | one escaped token per special token |
| Trainer.SpecialVocab | training/tokenizer/bpe.py:45-47 | ids 0 .. n-1 hold the escaped special tokens in order |
| Trainer.ReadChunks | training/tokenizer/bpe.py:56-58 | the chunks are the decoded slices between consecutive boundaries |
| Trainer.TablesMeaning | training/tokenizer/bpe.py:60-62 | chunk j's table is a well-formed dict whose keys are exactly the per-byte splits of that chunk's segments, each with count 1 |
| Trainer.PreTokenizeChunks | training/tokenizer/bpe.py:60-62 | the pool map gives one well-formed table per chunk, in chunk order, whose keys are exactly the per-byte splits of that chunk's segments, each with count 1 |
| Trainer.AddEntriesValid | training/tokenizer/bpe.py:65-67 | adding a table's entries keeps the dict well formed |
| Trainer.AggregateValid | training/tokenizer/bpe.py:63-67 | the aggregated table is well formed |
| Trainer.AddEntriesGet | training/tokenizer/bpe.py:66-67 | adding a table's entries adds each listed key's count and creates exactly the missing keys |
| Trainer.AggregateSums | training/tokenizer/bpe.py:63-67 | each word's aggregated count is the sum of its counts over all chunk tables, and the keys are the words of some table |
| Trainer.AddTable | training/tokenizer/bpe.py:66-67 | the inner loop adds every entry of the table in its key order |
| Trainer.AggregateTables | training/tokenizer/bpe.py:63-67 | the result is well formed, each count is the sum over the chunk tables, and its keys are the words of some table |
| Trainer.AddPairsValid | training/tokenizer/bpe.py:76-80 | counting pairs keeps the dict well formed |
| Trainer.PairCountsValid | training/tokenizer/bpe.py:70-80 | the pair table is well formed |
| Trainer.AddPairsGet | training/tokenizer/bpe.py:76-80 | a word adds its count once per occurrence of each adjacent pair |
| Trainer.PairCountsWeighted | training/tokenizer/bpe.py:70-80 | each pair's count is the sum over the words of word count times occurrences; the keys are exactly the adjacent pairs |
| Trainer.PairCountsMeaning | training/tokenizer/bpe.py:70-80 | the pair table, for all pairs: weighted occurrence counts over exactly the adjacent pairs |
| Trainer.NoPairsIffShort | training/tokenizer/bpe.py:70-81 | the pair table is empty exactly when every word has fewer than two symbols |
| Trainer.CountPairs | training/tokenizer/bpe.py:70-80 | the pair-counting loop gives the weighted counts over exactly the adjacent pairs |
| Trainer.AddWordPairs | training/tokenizer/bpe.py:76-80 | the inner loop adds the word's count for each of its adjacent pairs |
| Trainer.RewriteValid | training/tokenizer/bpe.py:87-89 | rewriting one word keeps the table well formed |
| Trainer.RewriteAllValid | training/tokenizer/bpe.py:86-89 | rewriting all words keeps the table well formed |
| Trainer.RewriteStep | training/tokenizer/bpe.py:87-89 | a word with a match is removed and its count moves to the merged word, overwriting; nothing else changes |
| Trainer.RewriteAllKeys | training/tokenizer/bpe.py:86-89 | after the pass every key is an untouched old word or the merge of a listed word |
| Trainer.RewriteAllUnmatched | training/tokenizer/bpe.py:86-89 | a word without the pair that no merge produces keeps its count |
| Trainer.RewriteAllKeepsUnmatched | training/tokenizer/bpe.py:86-89 | a word without the pair stays in the table |
| Trainer.MergeTable | training/tokenizer/bpe.py:86-89 | the rewrite loop keeps the table well formed, keeps every word without the pair (with its count unless a merge overwrote it), and adds only merged words |
| Trainer.TableAfterValid | training/tokenizer/bpe.py:86-89 | the table stays well formed across any number of rounds |
| Trainer.TrainFromShape | training/tokenizer/bpe.py:69-89 | a run either raises the `max()` error or records exactly one merge per remaining id |
| Trainer.TrainFromMostFrequent | training/tokenizer/bpe.py:69-89 | the j-th recorded merge is the most frequent pair (largest on ties) of the table after the first j merges |
| Trainer.TrainFromRaises | training/tokenizer/bpe.py:81 | with a round left and no word of two symbols, training raises the `max()` error |
| Trainer.TrainFromStep | training/tokenizer/bpe.py:69-89 | a completed round appends the chosen pair and continues from the rewritten table |
| Trainer.Round | training/tokenizer/bpe.py:70-89 | a round picks the most frequent pair of the weighted pair table and, if it exists, rewrites the table with it |
| Trainer.InitialTable | training/tokenizer/bpe.py:51-67 | the aggregated word table is well formed |
| Trainer.CountWords | training/tokenizer/bpe.py:51-67 | chunking, pre-tokenizing and aggregating give the initial word table |
| Trainer.BoundsAscend | training/tokenizer/bpe.py:54-56 | the chunk boundaries are non-negative and ascending, so every slice is well defined |
| Trainer.VocabLayoutStep | training/tokenizer/bpe.py:82-83 | appending a merge and its combined bytes at id i extends the layout by one id |
| Trainer.AddMerge | training/tokenizer/bpe.py:82-83 | the merge is appended and the vocabulary keeps its layout one id further |
| Trainer.TrainRound | training/tokenizer/bpe.py:70-89 | a round either raises the run's exception or advances the loop state by one id |
| Trainer.MergeLoop | training/tokenizer/bpe.py:69-89 | the loop reports the run's exception, or its merges and a vocabulary with specials first and then each merge's bytes |
| Trainer.RunTrainBpe | training/tokenizer/bpe.py:11-90 | raises exactly when the training run over the corpus raises; otherwise returns its merges and the vocabulary layout |
| Tokenizer.FirstKeyIsFirst | src/models/tokenizer/bpe_tokenizer.py:10-11 | `None` exactly when no key maps to the value; otherwise the first key in order that does |
| Tokenizer.GetKeyMeaning | src/models/tokenizer/bpe_tokenizer.py:10-11 | `_get_key` is `None` exactly when no entry has the value; otherwise an id holding it, the first in insertion order |
| Tokenizer.InterleavedFailureStays | src/models/tokenizer/bpe_tokenizer.py:55-59 | once the loop raises, later pieces do not change the outcome |
| Tokenizer.BytesOfConcat | src/models/tokenizer/bpe_tokenizer.py:53-59 | the byte pre-tokens of a concatenation are those of each part |
| Tokenizer.SpecialsOfConcat | src/models/tokenizer/bpe_tokenizer.py:53-59 | the special pre-tokens of a concatenation are those of each part |
| Tokenizer.FiltersRound | src/models/tokenizer/bpe_tokenizer.py:56-59 | one loop pass adds the piece's segments as bytes and at most the next found special |
| Tokenizer.FiltersAsBytes | src/models/tokenizer/bpe_tokenizer.py:56-57 | segments extended into the list are byte pre-tokens only |
| Tokenizer.InterleavedRaises | src/models/tokenizer/bpe_tokenizer.py:55-59 | raises IndexError exactly when some specials were found but fewer than the pieces between them need |
| Tokenizer.InterleavedStep | src/models/tokenizer/bpe_tokenizer.py:55-59 | a successful pass appends the piece's segments and, except after the last piece, the found special of that index |
| Tokenizer.InterleavedBytes | src/models/tokenizer/bpe_tokenizer.py:53-60 | the byte pre-tokens are exactly the segments of the pieces, in order |
| Tokenizer.InterleavedSpecials | src/models/tokenizer/bpe_tokenizer.py:53-60 | the special pre-tokens are the found specials in order, one per gap between pieces (none if nothing was found) |
| Tokenizer.PreTokensWithoutSpecials | src/models/tokenizer/bpe_tokenizer.py:46-60 | without special tokens the chunk is not split, and the pre-tokens are its segments |
| Tokenizer.ApplyMergesFlatten | src/models/tokenizer/bpe_tokenizer.py:26-29 | applying the merges never changes the bytes a pre-token spells |
| Tokenizer.ApplyMergesLength | src/models/tokenizer/bpe_tokenizer.py:26-29 | merging never lengthens a pre-token and never empties a non-empty one |
| Tokenizer.PreTokenIdsCount | src/models/tokenizer/bpe_tokenizer.py:24-33 | a bytes pre-token gives at most its length in ids, and at least one when it is non-empty; a listed special gives its one lookup; any other string gives nothing |
| Tokenizer.ByteDecodeConcat | src/models/tokenizer/bpe_tokenizer.py:30-31 | decoding ids to bytes distributes over concatenation |
| Tokenizer.LookupsRoundTrip | src/models/tokenizer/bpe_tokenizer.py:30 | when every symbol is found, the looked-up ids decode back to the symbols' bytes |
| Tokenizer.AllFoundConcat | src/models/tokenizer/bpe_tokenizer.py:31 | all ids found in a concatenation means all found in each part |
| Tokenizer.EncodeRoundTrip | src/models/tokenizer/bpe_tokenizer.py:21-34 | for byte pre-tokens whose ids are all found, the ids decode back to the pre-tokens' bytes |
| Tokenizer.ChainAssociative | src/models/tokenizer/bpe_tokenizer.py:42-43 | joining decoded texts with the first exception winning is associative |
| Tokenizer.DecodeConcat | src/models/tokenizer/bpe_tokenizer.py:36-43 | decoding a concatenation is decoding each part and joining, with the first exception winning |
| Tokenizer.DecodeOutcome | src/models/tokenizer/bpe_tokenizer.py:36-43 | decoding succeeds exactly when every id decodes; otherwise it raises the first failing id's exception |
| Tokenizer.DecodeUnknownRaises | src/models/tokenizer/bpe_tokenizer.py:39 | an id missing from the vocabulary makes decoding raise |
| Tokenizer.JoinAppend | src/models/tokenizer/bpe_tokenizer.py:42-43 | `"".join` of one more text appends that text |
| Tokenizer.BPETokenizer.PreTokenize | src/models/tokenizer/bpe_tokenizer.py:44-60 | the loop builds the interleaved pre-token list or raises as specified above |
| Tokenizer.BPETokenizer.MergeAll | src/models/tokenizer/bpe_tokenizer.py:26-29 | the merges are applied in order, keeping the word when a merge finds nothing |
| Tokenizer.BPETokenizer.EncodePreToken | src/models/tokenizer/bpe_tokenizer.py:25-33 | a pre-token's ids: the lookups of its merged symbols, the special's lookup, or nothing |
| Tokenizer.BPETokenizer.Encode | src/models/tokenizer/bpe_tokenizer.py:21-34 | raises what pre-tokenizing raises; otherwise the ids of every pre-token in order |
| Tokenizer.BPETokenizer.Decode | src/models/tokenizer/bpe_tokenizer.py:36-43 | the joined text of every id, or the first KeyError or decoding error |
| Tokenizer.EncodeDecodeBytes | src/models/tokenizer/bpe_tokenizer.py:21-60 | with no special tokens and every symbol found, encoding a text and decoding the ids to bytes gives back the UTF-8 bytes of its segments |

## Left out

- The `regex` library is a parameter (`PreTokenize.Regex`) and is left uninterpreted. This covers `re.escape`, `re.split`, `re.findall`, and the UTF-8 encoded matches of `re.finditer` with the fixed pattern `PAT`.
- The UTF-8 codecs are parameters:
  - `bytes.decode(errors="ignore")` of a chunk;
  - `bytes.decode()` in `decode`, which returns `None` for invalid bytes.

  So the encode/decode round trip is stated at the byte level (`Tokenizer.ByteDecode`), not as text.
- File I/O: the corpus is a byte sequence. `seek`, `tell` and `read` are sequence operations. The `assert isinstance(split_special_token, bytes)` always holds for a byte-sequence parameter.
- `multiprocessing.Pool` is modelled as an ordered sequential map, since the results come back in chunk order. The `tqdm` progress bar is left out.
- `num_processes = 8` and the marker `<|endoftext|>` are constants (`Trainer.NumProcesses`, `Trainer.EndOfText`).
- The driver `src/training/train_bpe.py` is not part of this model. It is pickling and command-line handling around `run_train_bpe`.
- The unused `pycparser` import is not modelled.
- Python values are typed: a vocabulary entry is `Special(text)` or `Bytes(bytes)`. The `type(x) == bytes` tests read the tag.
- `special_tokens=None` is modelled as the empty list, which is treated the same way by every truth test. The membership test `pre_token in self.special_tokens` in `encode` is therefore not modelled on `None`: there it would raise `TypeError`, but `_pre_tokenize` never produces a string pre-token when there are no special tokens.
- A `findall` result of `None` (no special tokens) is modelled as the empty list.
- The `BPETokenizer` constructor only stores its three arguments, so the class is a datatype of those fields. The tokenizer's fields are never updated after construction.
- Tokenizer.BPETokenizer.Encode: `encode` returns Python `None` in the id list for a symbol missing from the vocabulary. The model returns `Option` ids, where `None` stands for that value.
- ChunkBoundaries.FindChunkBoundaries: a negative `desired_num_chunks` is modelled as IndexError for every negative value. Python's `//` and list indexing are not modelled further.
- Python's unbounded `int` needs no width modelling.

## Findings

| source | as written | input that shows it | evidently intended | confidence | as-written member | corrected member |
|---|---|---|---|---|---|---|
| training/tokenizer/utils.py:35-45 | every match position is marked, including overlapping ones, then the position after each match is removed | word `(a, a, a)`, pair `(a, a)`: result `(aa,)`, which spells 2 bytes instead of 3 | a greedy non-overlapping merge that keeps the word's bytes, as in src/utils/tokenizer.py | not executed | IndexMerge.IndexMergeOverlapLosesBytes | GreedyMerge.GreedyFlatten |
| training/tokenizer/utils.py:108 | `if w in freq_tab` tests the byte string `w` against tuple keys, so it is always false and every count is reset to 1 | a chunk whose segments are `[w, w]`: the table holds count 1 instead of 2 | `if key in freq_tab`, counting occurrences, as in src/utils/tokenizer.py:113 | not executed | PreTokenize.TallyOnesUndercounts | PreTokenize.TallyCounts |

The training part of the model (`Trainer`) keeps the as-written behaviour of both rows, because it models `training/tokenizer/bpe.py` as it runs. The corrected definitions are the ones the rest of the model uses:
- the encoder (`Tokenizer.BPETokenizer.MergeAll`) uses `GreedyMerge`;
- `PreTokenize.PreTokenize` counts with `Tally`.
