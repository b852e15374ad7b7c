# HMM for OCR correction, modelled in Dafny

`HMM_for_OCR.py` estimates a letter-level hidden Markov model from pairs of
(true word, OCR reading) and decodes a reading back into its most probable
true word:

- **Estimation.** Three frequency-count estimators build the initial-state table
  (share of words starting with each letter), the transition table (share of
  `ab` among the adjacent pairs starting with `a`, inside words) and the emission
  table (share of true letter `a` read as OCR symbol `b`, over training pairs of
  equal length). The transition and emission tables are then zero-filled so they
  are dense over the alphabets seen in the data.
- **Decoding.** `viterbi` is a recursion on the prefix of the reading. For each
  of the 26 states 'A'..'Z' it keeps a `[path, probability]` entry, improved only
  on a strictly greater probability. `most_probable_word` picks the path of the
  first strictly best entry, and returns "" when no entry is positive.
- **Evaluation.** The evaluation loop counts, per test word, the letters the OCR
  got wrong and the decoder got right.

The project has four modules, one file each:

| file | module | models |
|---|---|---|
| `probability_table.dfy` | `ProbabilityTable` | the loops the estimators share: counting into a dictionary, `sum(d.values())`, `/=` over a dictionary, zero-filling |
| `estimation.dfy` | `Estimation` | the three estimators, each proved equal to a pure specification |
| `decoder.dfy` | `Decoder` | `viterbi` as a recursive function (`ViterbiSpec`), as a recursive method with the source's nested loops (`Viterbi`), and `most_probable_word` |
| `evaluation.dfy` | `Evaluation` | the correction count of lines 209-211, as written and as intended |

Modelling choices:

- A dictionary that is first filled with counts and then rewritten in place into
  probabilities is one `map<char, real>`: counts are whole-number reals and
  division is exact. A nested dictionary is `map<char, map<char, real>>`.
- Iterating over a dictionary or a set whose order does not matter picks an
  arbitrary remaining key (`k :| k in todo`). The decoder's dictionary iterates
  in insertion order 'A'..'Z', so there the loops go over the states in that order.
- The source's crashes become preconditions: `word[0]` of an empty word,
  `ocr_outputs[i]` past the end, a missing key in `viterbi` (lines 115, 126, 127),
  and the recursion of `viterbi` on "", which never reaches its base case. The
  one exception is the evaluation loop's IndexError, which is the subject of a
  finding and is modelled as a result value.
- The initial table is never zero-filled, so `viterbi` raises a KeyError at
  line 115 for any state that starts no training word; `Decodable` requires
  every state 'A'..'Z' to be a key of the initial table.
  `Evaluation.EstimatesDecodable` states when the estimated tables meet it.

## Model

| member | source | states |
|---|---|---|
| `ProbabilityTable.SumValues` | HMM_for_OCR.py:43 | `sum(row.values())` is the sum of all values of the row, whatever the iteration order |
| `ProbabilityTable.DivideAll` | HMM_for_OCR.py:16-17 | after `d[k] /= total` for every key, every value is its old value divided by the total, over the same keys |
| `ProbabilityTable.NormaliseRows` | HMM_for_OCR.py:41-45 | every row is divided by its own total, over the same keys; needs every row total to be non-zero |
| `ProbabilityTable.ZeroFillRow` | HMM_for_OCR.py:52-54 | every column missing from the row is added with 0; present entries keep their values |
| `ProbabilityTable.ZeroFillContext` | HMM_for_OCR.py:50-54 | a missing row is created empty, then zero-filled; no other row changes |
| `ProbabilityTable.ZeroFill` | HMM_for_OCR.py:49-54 | every row of the alphabet exists and holds every column; rows and entries that were there keep their values |
| `ProbabilityTable.CountMapSnoc` | HMM_for_OCR.py:9-12 | counting one more occurrence adds a new key with count 1 or adds 1 to the old count |
| `ProbabilityTable.SumCountMap` | HMM_for_OCR.py:15-17 | the counts of a dictionary built by counting add up to the number of items counted |
| `ProbabilityTable.FrequenciesSumToOne` | HMM_for_OCR.py:14-17 | a row of relative frequencies with at least one item counted sums to exactly 1 |
| `ProbabilityTable.FrequenciesBounds` | HMM_for_OCR.py:16-17 | every relative frequency lies in [0, 1], and is positive exactly when the key was counted |
| `ProbabilityTable.CountIsMultiplicity` | HMM_for_OCR.py:9-12 | the count kept for a key is its multiplicity among the counted items |
| `ProbabilityTable.NormalisedCountsZeroFilled` | HMM_for_OCR.py:84-98 | dividing a row of counts by its total and then zero-filling it gives the relative frequencies over the columns |
| `Estimation.InitialStateProbabilities` | HMM_for_OCR.py:4-19 | the method's counting loop and dividing loop compute exactly `InitialSpec`: each first letter's count divided by the number of words |
| `Estimation.InitialProperties` | HMM_for_OCR.py:4-19 | the keys are exactly the first letters; each value is (words starting with the letter) / (number of words), lies in (0, 1], and the values sum to 1 whenever there is a word |
| `Estimation.Tally` | HMM_for_OCR.py:33-38 | counting a pair `(a, b)` creates row `a` when missing, then sets entry `b` to 1 or adds 1 to it |
| `Estimation.CountTableSnoc` | HMM_for_OCR.py:33-38 | counting one more pair into the table built from a list of pairs gives the table built from the longer list |
| `Estimation.CountWordPairs` | HMM_for_OCR.py:29-38 | the inner loop counts every adjacent pair `(word[i], word[i + 1])` of one word into the table |
| `Estimation.TransitionProbabilities` | HMM_for_OCR.py:25-56 | count, normalise by row and zero-fill compute exactly `TransitionSpec`: the relative frequencies of the in-word pairs, dense over the letters of the words |
| `Estimation.TransitionProperties` | HMM_for_OCR.py:25-56 | dense over letters x letters; every entry in [0, 1]; entry (a, b) is the number of `ab` pairs over the number of pairs starting with `a`; a letter has outgoing pairs exactly when it occurs before the end of a word; such rows sum to 1; rows of letters that only end words are all zero |
| `Estimation.CountTableRowsNonZero` | HMM_for_OCR.py:43 | every row of a counted table has a non-zero total, so the normalising division is defined |
| `Estimation.EstimatedTable` | HMM_for_OCR.py:40-54 | normalising the counted table by row and zero-filling it over the alphabets gives `TableSpec`, the table of relative frequencies |
| `Estimation.CountZip` | HMM_for_OCR.py:73-82 | the inner loop counts every `(word[j], ocr_output[j])` pair of one training pair into the table |
| `Estimation.EmissionProbabilities` | HMM_for_OCR.py:62-100 | the loops compute exactly `EmissionSpec`: the relative frequencies of (true letter, OCR symbol) over the pairs of equal length, dense over the true letters and all OCR symbols |
| `Estimation.EmissionProperties` | HMM_for_OCR.py:62-100 | dense over true letters x all OCR symbols, including letters and symbols of skipped pairs; every entry in [0, 1]; entry (a, b) is the number of times `a` was read as `b` over the counted occurrences of `a`; a letter seen in a pair of equal lengths has a row summing to 1; a letter seen only in skipped pairs has an all-zero row |
| `Estimation.EmissionsSkipMismatch` | HMM_for_OCR.py:69-71 | a training pair whose lengths differ contributes nothing: the counted emissions are those of the training data with that pair removed |
| `Estimation.EmissionContexts` | HMM_for_OCR.py:73-82 | a letter has counted emissions exactly when it occurs in a training pair of equal lengths |
| `Decoder.ViterbiSpec` | HMM_for_OCR.py:107-131 | `viterbi` as a recursion on the prefix; its result has exactly the 26 keys 'A'..'Z' |
| `Decoder.Viterbi` | HMM_for_OCR.py:105-132 | the recursive procedure with its base-case loop and its two nested loops returns exactly `ViterbiSpec` |
| `Decoder.BaseCase` | HMM_for_OCR.py:112-115 | the base-case loop gives every state the one-letter path and initial x emission |
| `Decoder.Extend` | HMM_for_OCR.py:123-130 | the outer loop gives every state its first best candidate over the previous table |
| `Decoder.Relax` | HMM_for_OCR.py:124-130 | the inner loop, starting from ("", 0) and replacing only on a strictly greater probability, leaves the first best of the 26 candidates; no other state changes |
| `Decoder.MostProbableWord` | HMM_for_OCR.py:135-142 | `most_probable_word` returns the path of the first strictly best entry in iteration order, starting from ("", 0) |
| `Decoder.BestSpec` | HMM_for_OCR.py:135-142 | the strict-`>` running maximum from ("", 0) is ("", 0) when no entry is positive, and otherwise the first entry of greatest probability, which is positive |
| `Decoder.BestBound` | HMM_for_OCR.py:128-130 | the running maximum is at least 0 and at least every entry |
| `Decoder.ConsistentStart` | HMM_for_OCR.py:112-115 | for one symbol, state `s` holds the path "s" with probability Initial[s] x Emission[s][obs], even when that is 0 |
| `Decoder.ViterbiConsistent` | HMM_for_OCR.py:123-130 | every entry is ("", 0) or a path through the states of the reading's length, ending in its own state, whose probability is exactly the product of initial, transition and emission probabilities along it |
| `Decoder.ScoreSnoc` | HMM_for_OCR.py:126-128 | extending a path by state `c` multiplies its score by the transition into `c` and the emission of the last symbol |
| `Decoder.ViterbiOptimal` | HMM_for_OCR.py:123-130 | with non-negative tables, every path of the reading's length ending in `s` scores at most the probability of entry `s` |
| `Decoder.ViterbiTieBreak` | HMM_for_OCR.py:124-130 | for two or more symbols, entry `s` is ("", 0) when no candidate is positive, and otherwise the candidate of the earliest previous state in 'A'..'Z' order with the greatest probability, whose path is that state's path followed by `s` |
| `Decoder.DecodedAbove` | HMM_for_OCR.py:135-142 | with non-negative tables, no path scores more than the entry `most_probable_word` picks |
| `Decoder.DecodedPath` | HMM_for_OCR.py:135-142 | a picked entry other than ("", 0) is a path through the states of the reading's length, with its own positive score |
| `Decoder.DecodeOptimal` | HMM_for_OCR.py:105-142 | end to end, with non-negative tables: the decoded word is "" exactly when every path scores at most 0; otherwise it is a path of positive score that no path beats |
| `Evaluation.EstimatesDecodable` | HMM_for_OCR.py:105-127 | the estimated tables are non-negative, and `viterbi` raises no KeyError on them when every state starts a training word and is a true letter, and every symbol of the reading occurs in the OCR outputs |
| `Evaluation.SilentColumn` | HMM_for_OCR.py:69-98 | an OCR symbol that no pair of equal lengths produced has emission probability 0 under every true letter |
| `Evaluation.SilentReading` | HMM_for_OCR.py:105-142 | a reading whose last symbol no state emits has every path scoring 0, so `most_probable_word` returns "" |
| `Evaluation.UnseenSymbolFails` | HMM_for_OCR.py:210 | with tables the estimators produce, a reading ending in a symbol seen only in skipped training pairs decodes to "", and a wrong first letter then makes line 210 raise IndexError |
| `Evaluation.CountCorrections` | HMM_for_OCR.py:209-211 | the loop as written returns exactly `CountUpTo`: the count of positions where the OCR letter is wrong and the decoded letter is right, or an IndexError at the first position it cannot read |
| `Evaluation.FailsIff` | HMM_for_OCR.py:209-211 | the loop as written fails exactly when some position is past the true word, or has a wrong OCR letter and is past the decoded word |
| `Evaluation.FailureSticks` | HMM_for_OCR.py:209-211 | once the loop has raised, later positions do not change the outcome |
| `Evaluation.SentinelFails` | HMM_for_OCR.py:210 | there are tables for which `most_probable_word` returns "", and then a wrong OCR letter makes line 210 index "" out of range |
| `Evaluation.CountCorrected` | HMM_for_OCR.py:209-211 | the loop with bound checks returns exactly `CorrectedUpTo`, the number of positions wrong in the OCR reading and right in the decoded word |
| `Evaluation.CorrectedAgrees` | HMM_for_OCR.py:209-211 | wherever the loop as written does not raise, it returns the intended count |
| `Evaluation.CorrectedBounds` | HMM_for_OCR.py:209-211 | the intended count is at most the number of wrong OCR letters, is 0 when the decoded word is "", and equals the number of wrong letters when the decoded word is the true word |

## Left out

- Reading the two data files and splitting them into estimation and held-out sets (lines 145-167): file I/O.
- Printing the tables, the per-word correction messages and the final tally (lines 70, 176-190, 212-217): output only. The `print` at line 70 becomes a comment where the pair is skipped.
- The script-level variables that wire the pipeline together (lines 171-173, 197-205), including the outer loop over the test words and the running totals. The model passes tables and words as arguments and covers one test word.
- Floating point: probabilities are exact reals, so "sums to 1" holds exactly rather than up to rounding.
- Python's exceptions other than the evaluation loop's IndexError are preconditions, not modelled outcomes: `word[0]` on an empty word, `ocr_outputs[i]` past the end, a missing key in `viterbi`, and the unbounded recursion of `viterbi` on "".
- The in-place aliasing of the `[path, prob]` lists inside `currentWordsProb`: each entry is a value, which is the same here because no list is shared between two keys.

## Findings

| source | as written | input that shows it | evidently intended | confidence | as-written member | corrected member |
|---|---|---|---|---|---|---|
| HMM_for_OCR.py:210 | `best_word[j]` is read whenever `word[j] != actual_word[j]`, but `most_probable_word` returns the sentinel "" when no path has positive probability | reading "B" with true word "A", every initial probability 1 and every emission of 'B' 0: `most_probable_word` returns "" and line 210 raises IndexError; with estimated tables, the same happens for a symbol that occurs only in training pairs skipped at line 71 (`Evaluation.UnseenSymbolFails`) | a decoded word of "" corrects no letter, so the count for that word is 0 | not executed | `Evaluation.SentinelFails` | `Evaluation.CountCorrected` |
