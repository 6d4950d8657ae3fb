# Character-level sliding-window language model

This project models `LanguageModel`, a character-level n-gram text generator.

**Training** slides a window of `windowLength` characters across a corpus. For every character that follows a full window, it records that character in the window's list in `CharDataMap`. The map goes from each window string to a list of `CharData` entries: a character, its count, its probability `p` and its cumulative probability `cp`. Training then recomputes the probabilities of every list.

**Finalisation** (`calculateProbabilities`) totals a list's counts. It sets each entry's `p` to its share of the total and each `cp` to the running sum of the `p` values.

**Generation** repeatedly takes the trailing `windowLength` characters of the text as the key (the whole text while it is shorter). It stops when the key is unseen. Otherwise it appends a character chosen by `getRandomChar` — an inverse-CDF scan with a fallback to the last entry — and finally cuts the result to `textLength`.

The project has four modules:

- `CharLists`: a list of character data as a sequence of `CharData` values, and `Update`, the contract of `List.update`.
- `Distribution`: what finalisation produces (`FinalizedFrom`) and inverse-CDF sampling (`Sample`).
- `Corpus`: what training observes in a corpus. `Occurrences` is how often a character follows a window; `WindowCount` is how often a window is followed by any character. Both are also summed over several corpora.
- `NGram`: the table, the loops of `train`, `calculateProbabilities`, `getRandomChar` and `generate` as methods, and the class `LanguageModel`.
  - The ghost field `corpora` records every corpus trained on so far.
  - `Valid()` states that `charDataMap` is a finalised table with the keys, characters and counts of those corpora (`TableOf`).

Every random draw is a parameter. `GetRandomChar` takes one draw. `Generate` takes a function `draws` whose k-th value is the draw for the k-th appended character. Generation is therefore a deterministic function of the table, the seed text, the length and the draws.

## Model

| member | source | states |
|---|---|---|
| CharLists.Update | LanguageModel.java:54 | List.update: recording `c` adds one to the count of `c` and to the total, and changes no other count. `c` has an entry afterwards. The list grows only when `c` was new. Distinct characters and positive counts are kept. |
| CharLists.CountOfPositive | LanguageModel.java:53-55 | In a list of positive counts, a character has a non-zero count exactly when it has an entry. |
| CharLists.SameCountsKeep | LanguageModel.java:78-83 | Rewriting only `p` and `cp` leaves the total, the set of characters, every count, distinctness and positivity unchanged. |
| Distribution.CumulativeIsCountRatio | LanguageModel.java:72-82 | After finalisation, the sum of the first n probabilities is the sum of the first n counts divided by the total count. |
| Distribution.CumulativeNonDecreasing | LanguageModel.java:77-82 | After finalisation `cp` never decreases along the list. |
| Distribution.CumulativeEndsAtOne | LanguageModel.java:72-82 | After finalising a non-empty list, the probabilities sum to exactly 1 and the last `cp` is 1 (exact arithmetic). |
| Distribution.FinalizedTotal | LanguageModel.java:72-80 | A non-empty finalised list was computed from a positive total, so the division at line 80 is defined. |
| Distribution.FinalizationUnique | LanguageModel.java:71-84 | The probability fields are determined by the characters and counts alone: two finalisations of the same list are equal. |
| Distribution.FinalizedIsFinal | LanguageModel.java:71-84 | A finalised list is finalised with respect to its own counts. |
| Distribution.FinalizedShape | LanguageModel.java:71-84 | Finalising a non-empty list of distinct, positive entries gives a non-empty list of distinct, positive entries that is finalised. |
| Distribution.FinalizationIdempotent | LanguageModel.java:71-84 | Finalising an already finalised, unchanged list gives it back unchanged. |
| Distribution.FirstAbove | LanguageModel.java:90-96 | The scan's stopping index: every entry before it has `cp <= r`, and the entry at it (when there is one) has `r < cp`. |
| Distribution.Sample | LanguageModel.java:88-98 | The character chosen for a draw is always one with an entry in the list. |
| Distribution.SampleSelectsInterval | LanguageModel.java:90-96 | On a list with non-decreasing `cp`, a draw with `cp[i-1] <= r < cp[i]` selects entry i (for i = 0, any draw below `cp[0]`). |
| Distribution.NoFallbackWhenFinalized | LanguageModel.java:97 | On a finalised non-empty list, a draw below 1 always stops the scan, so the last-entry fallback is reached only through rounding, which this model does not have. |
| Corpus.SlideWindow | LanguageModel.java:57-58 | Deleting the window's first character and appending the next one gives the window that ends one position later. |
| Corpus.OccurrencesUpToWitness | LanguageModel.java:45-58 | The count of `c` after `key` before position n is positive exactly when some such position exists. |
| Corpus.WindowsUpToWitness | LanguageModel.java:45-58 | The count of `key` as a followed window before position n is positive exactly when some such position exists. |
| Corpus.WindowsHaveLength | LanguageModel.java:39-52 | Only strings of length `windowLength` are ever counted as windows. |
| Corpus.OccurrencesWitness | LanguageModel.java:45-58 | `Occurrences` is positive exactly when `c` follows `key` somewhere in the corpus. |
| Corpus.WindowCountWitness | LanguageModel.java:45-58 | `WindowCount` is positive exactly when `key` is followed by some character somewhere in the corpus. |
| Corpus.TotalOccurrencesWitness | LanguageModel.java:45-58 | Summed over corpora: positive exactly when `c` follows `key` in one of them. |
| Corpus.TotalWindowsWitness | LanguageModel.java:45-58 | Summed over corpora: positive exactly when `key` is followed by a character in one of them. |
| Corpus.TotalOccurrencesSnoc | LanguageModel.java:35-66 | One more corpus adds exactly its own occurrences. |
| Corpus.TotalWindowsSnoc | LanguageModel.java:35-66 | One more corpus adds exactly its own window count. |
| NGram.TableShaped | LanguageModel.java:39-58 | In a trained table every key has length `windowLength` and every list is non-empty, distinct and positive. |
| NGram.Lookup | LanguageModel.java:53 | Definition of `getOrDefault(currentWindow, new List())`: the window's list when the window is a key, and an empty list otherwise. What one counting step does through it is stated by CountedLookup, CountedCountAt and CountedTotalAt. |
| NGram.Window | LanguageModel.java:111 | The lookup key has `windowLength` characters, or all of the text when the text is shorter. |
| NGram.WindowIsSuffix | LanguageModel.java:111 | The lookup key is the end of the text. |
| NGram.TableKeys | LanguageModel.java:39-58 | After training, a string is a key exactly when it is a window of length `windowLength` that some corpus follows with another character. |
| NGram.TableChars | LanguageModel.java:45-58 | After training, the characters under a key are exactly those that some corpus has right after that window. |
| NGram.TableEntryCount | LanguageModel.java:45-58 | After training, each entry's count is the number of times its character follows the window over all corpora, and that number is at least 1. |
| NGram.ShortCorpusEmptyTable | LanguageModel.java:39-46 | Training a fresh model on a corpus no longer than the window gives an empty table (not an error). |
| NGram.CountedStep | LanguageModel.java:52-55 | One step of the counting pass records the window that ends before position i as followed by the character at i. |
| NGram.ScanStart | LanguageModel.java:37-42 | After the first loop the window holds the first `min(windowLength, length)` characters and nothing is recorded. |
| NGram.ScanRecord | LanguageModel.java:45-58 | Each iteration with a full window records its follower and slides the window, which keeps the loop invariant. |
| NGram.ScanDone | LanguageModel.java:45-60 | When the corpus is exhausted, the table is the counted table of the whole corpus. |
| NGram.Counted | LanguageModel.java:45-60 | The reading loop as a function of how many windows it has processed: each step records the window at that position as followed by the next character. What this table holds is stated by CountedKeyAt, CountedCountAt and CountedTotalAt. |
| NGram.CountedLookup | LanguageModel.java:52-55 | One counting step changes only the list of the current window, and only by recording the next character. |
| NGram.CountedShapedAt | LanguageModel.java:45-58 | Every list of the counted table is non-empty with distinct, positive entries, under a key of length `windowLength`. |
| NGram.CountedKeyAt | LanguageModel.java:45-58 | A key is in the counted table exactly when it was there before or was seen as a followed window. |
| NGram.CountedCountAt | LanguageModel.java:45-58 | The count of `c` under `key` is the earlier count plus the number of times `c` followed `key` in the corpus read so far. |
| NGram.CountedTotalAt | LanguageModel.java:45-58 | The total under `key` is the earlier total plus the number of positions where `key` was a followed window. |
| NGram.CountedKeptAt | LanguageModel.java:45-58 | A list whose window does not occur is not touched by the counting pass. |
| NGram.CountedShaped | LanguageModel.java:45-65 | The table the counting pass leaves has keys of length `windowLength` and non-empty lists of distinct, positive entries, so every list has the positive total that finalisation divides by. |
| NGram.TrainedShapes | LanguageModel.java:35-66 | After train every key has length `windowLength` and every list is non-empty, distinct, positive and finalised. |
| NGram.TrainedKeys | LanguageModel.java:35-66 | After train the keys are exactly the windows followed by a character in some corpus trained so far. |
| NGram.TrainedCounts | LanguageModel.java:35-66 | After train, each count is the number of times the character follows the window over all corpora trained so far. |
| NGram.TrainedTotals | LanguageModel.java:35-66 | After train, each list's total is the number of times its window is followed by a character over all corpora trained so far. |
| NGram.TrainedKept | LanguageModel.java:35-66 | A finalised list whose window does not occur in the new corpus is left exactly as it was. |
| NGram.TrainedTable | LanguageModel.java:35-66 | Counting a corpus into a trained table and finalising every list gives the trained table of all corpora, keeping untouched lists as they were. |
| NGram.TrainingAdds | LanguageModel.java:35-66 | Training is cumulative. Compared with the table before, the keys are the old keys plus the new corpus's windows. Each count and total is the old one plus the new corpus's observations. |
| NGram.ShortCorpusKeepsTable | LanguageModel.java:39-46 | Training on a corpus no longer than the window leaves the table unchanged. |
| NGram.SampledExtend | LanguageModel.java:115-117 | Appending the character sampled from the trailing window's list keeps "every appended character was sampled from its window". |
| NGram.SampledPrefix | LanguageModel.java:125-126 | Cutting the text to a length of at least the seed's keeps that property. |
| NGram.SampledSeen | LanguageModel.java:115-117 | Every appended character has an entry in the list of the window before it. |
| NGram.GeneratedObserved | LanguageModel.java:111-117 | Every character appended by generation from a trained table is preceded by `windowLength` characters of the text, and it follows exactly that window in some training corpus. |
| NGram.WindowOfPrefix | LanguageModel.java:111 | A trailing window of full length taken before position k is the `windowLength` characters just before k. |
| NGram.FirstWindow | LanguageModel.java:39-42 | The first loop reads `min(windowLength, length)` characters, and the window is that prefix of the corpus. |
| NGram.CountWindows | LanguageModel.java:37-60 | The reading pass leaves the table equal to the starting table with every (window, following character) pair of the corpus recorded. |
| NGram.CalculateAll | LanguageModel.java:62-65 | Every list of the table is finalised from its own counts, and no key is added or removed. |
| NGram.CalculateProbabilities | LanguageModel.java:71-84 | Characters and counts are unchanged. Each `p` is the entry's count over the list's total, and each `cp` is the sum of `p` up to and including that entry. |
| NGram.TrainTable | LanguageModel.java:35-66 | Training a table of earlier corpora on a new corpus gives a finalised table with the keys, characters and counts of all of them; lists whose window is absent from the new corpus stay as they were. |
| NGram.GetRandomChar | LanguageModel.java:88-98 | Returns the character of the first entry with `r < cp`, or the last entry's character when there is none; always a character of the list. |
| NGram.GenerateText | LanguageModel.java:108-130 | The result has: length at most `textLength`; exactly the seed's prefix when the seed is longer; otherwise the seed as its start. Every appended character is sampled with its own draw from its trailing window's list. A short result ends in an unseen window. An unseen or short seed is returned unchanged. |
| NGram.LanguageModel.constructor | LanguageModel.java:28-32 | A new model has the given window length, an empty table, and is the (empty) table of no corpora. |
| NGram.LanguageModel.Train | LanguageModel.java:35-66 | Afterwards the table is a finalised table with the keys, characters and counts of every corpus trained so far, and lists of windows absent from the new corpus are unchanged. |
| NGram.LanguageModel.Generate | LanguageModel.java:108-130 | The guarantees of GenerateText, on the model's own table and window length. |

## Left out

- Reading the corpus from a file through `In` (lines 36, 39-46) is I/O and is not modelled. The corpus string stands for the characters `train` reads. That is the file without its trailing whitespace, because `in.isEmpty()` at lines 39 and 45 treats trailing whitespace as end of input.
- `java.util.Random` and the seeded constructor (lines 14, 19-23, 89) are not modelled. Each draw is a parameter, so two runs with the same draws give the same text.
- `double` rounding in `totalCount` and `totalCp` (lines 72-82) is not modelled. Probabilities are exact `real` values, so the last `cp` is exactly 1. The fallback at line 97 is kept as the case where no entry satisfies `r < cp`.
- `toString` (lines 133-140) is debug formatting that depends on HashMap order; it is not modelled.
- `main` (lines 142-144) is empty and is not modelled.
- The `List`, `CharData` and `ListIterator` classes are not part of this model. A list is a sequence of `CharData` values. `Update` appends a new character at the back, and no proved property depends on that position.
- In-place mutation and aliasing are not modelled:
  - `calculateProbabilities` writes the fields of shared `CharData` objects; `CalculateProbabilities` returns the new list instead.
  - `CalculateAll` rewrites the map's lists one by one in an unspecified key order; the order of `values()` does not matter.
- Strings are sequences of Unicode scalar values (Dafny `char`), but Java's `String`, `StringBuilder` and `char` count UTF-16 code units. `length()`, the `substring` at line 111, `textLength`, and the window of `train` (lines 37-58, 110-111, 119, 125-126) all count code units. The model therefore matches the code only on text with no characters outside the Basic Multilingual Plane. Java windows that begin or end with half of a surrogate pair are not modelled.
- NGram.GetRandomChar: requires a non-empty list. On an empty list the code would call `probs.get(-1)` at line 97. `generate` only ever passes a list taken from the table, and every such list is non-empty.
- Distribution.Sample: requires a non-empty list, for the same reason as GetRandomChar.
- Negative `windowLength` and `textLength` are excluded by typing them `nat`. A negative `textLength` would make `substring(0, textLength)` at line 126 throw.
- The constructor accepts window length 0, as the code does. The code does not reject a window length of 0 or less at construction.
- NGram.LanguageModel.Train: requires `windowLength > 0` unless the corpus is empty. With a window length of 0, the code throws at `deleteCharAt(0)` (line 57) on the first character; that exception is not modelled.
- NGram.CalculateProbabilities: requires a positive total for a non-empty list. Training never finalises a list with a zero total, and the division by zero is not modelled.
- The branch at lines 48-49 (a short window inside the main loop) cannot be taken after the first loop. `CountWindows` keeps it with `assert false`.
- NGram.LanguageModel.Train: leaves open the order of the entries within each list, because the insertion point of `List.update` is not visible. That order decides `cp` and so which character a draw selects. Two models with equal training histories are therefore not proved to have equal tables or to generate equal text from equal draws.
- NGram.TrainTable: leaves open the order of the entries within each list, for the same reason and with the same consequence as Train.
- NGram.LanguageModel.Train: states the new table through `TableOf` of all corpora so far, not relative to the old table. The relation to the old table is `NGram.TrainingAdds`.
