# TF-IDF keyword extraction: tokenizer, scheduler, cleaner and ranker

This project models the sequential core of `gensim_nlpir_versionV3.py`. The
script reads a corpus of named records, segments each description into
Chinese/English words, filters the words, scores them with TF-IDF and
reports the ten best-scoring words of each document. The parts modelled are:

- **Token filter** (`filter`): a pure predicate on a `(surface, tag)` pair.
  Its two regular expressions are written out as predicates over code points
  (module `TokenFilter`):
  - `^[a-zA-Z0-9一-龥]+$` becomes `UsefulWordMatch`.
  - `[一-龥]{1,7}?(?:省|自治区|市|区|县|镇|村|街)$` becomes `DistrictMatch`.
  - `re.match` anchors only at the start. Python's `$` matches at the end or
    just before one final `"\n"`, and the model keeps that second case, so a
    surface such as `"ab\n"` passes the character check.
  - The district pattern rejects every surface that is 1 to 7 CJK
    characters followed by one of 省/自治区/市/区/县/镇/村/街, with nothing
    after it but Python's optional final `"\n"`. An eight-character name
    such as 七个汉字的地名市 is therefore rejected too. So are ordinary words
    such as 城市 "city" (`TokenFilter.CityRejected`).
- **Tokenization** (`process_text`, module `Tokenize`): lowercase, segment,
  and keep the accepted surfaces in order. `str.lower` and
  `pynlpir.segment` are library code. They are function fields of a
  `Config` value, beside the stopword list and the stop-category set that
  the script keeps as module globals.
- **Stride scheduler** (`process_thread` / `process_corpus`, module
  `Scheduler`):
  - Worker `k` of `n` is a method with the source's `while` loop, writing
    into a pre-sized array of `Option` slots that starts all `None`.
  - The thread pool is modelled as workers `0..n-1` running one after
    another. This is sound because their slot sets are disjoint
    (`StridePartition`).
- **Corpus cleaning** (the loop body of `get_corpus`, module `Corpus`): which
  parsed records are kept, the `desc + "。"` accumulation, the chain of
  `replace` calls, and the deletion of the record name. `Text.Replace` is
  Python's `str.replace`: occurrences are found left to right and do not
  overlap, and an empty pattern inserts the replacement everywhere, so
  `replace("", "")` changes nothing. A content item without `desc` raises
  `KeyError` in the script. Here it is a `Failure` of the whole call.
- **Chinese character count** (`count_chinese`): a counting loop
  (`Text.CountChinese`).
- **Top-10 selection** (`sorted(tfidf, key=score, reverse=True)[:10]`, module
  `Ranking`): a stable insertion sort by descending score, then the first ten.

Facts about the script that the model keeps:
- The sort key is the score alone, so ties keep gensim's order.
- The stopword collection is a list (`seq`); the stop-category collection
  is a set.
- The script delegates weighting to gensim and shows no IDF formula.
- `process_corpus` does not propagate errors from worker threads.

## Model

| member | source | states |
|---|---|---|
| TokenFilter.AcceptedShape | gensim_nlpir_versionV3.py:78-86 | an accepted surface has 2 to 9 characters, each an ASCII letter, an ASCII digit or in U+4E00..U+9FA5, except that the last may be a `"\n"` let through by `$` |
| TokenFilter.AcceptedCharacters | gensim_nlpir_versionV3.py:79-85 | a newline-free accepted surface consists only of `[a-zA-Z0-9]` and U+4E00..U+9FA5 |
| TokenFilter.AcceptedWhenClean | gensim_nlpir_versionV3.py:78-86 | converse: 2 to 9 class characters, no district match, surface not a stopword and tag not a stop category together imply acceptance |
| TokenFilter.LengthRejected | gensim_nlpir_versionV3.py:85 | a surface of length at most 1 or at least 10 is rejected whatever its tag and the stop lists |
| TokenFilter.DistrictRejected | gensim_nlpir_versionV3.py:82-85 | 1 to 7 CJK characters followed by 省/自治区/市/区/县/镇/村/街 match the district pattern and are rejected |
| TokenFilter.DistrictShape | gensim_nlpir_versionV3.py:82-83 | a newline-free district match is exactly 1 to 7 CJK characters followed by one suffix, with nothing after it |
| TokenFilter.CityRejected | gensim_nlpir_versionV3.py:82-85 | the ordinary word 城市 is rejected by the district pattern |
| TokenFilter.StopListsReject | gensim_nlpir_versionV3.py:85-86 | a surface in the stopword list or a tag in the stop-category set is rejected regardless of everything else |
| TokenFilter.AcceptAntitone | gensim_nlpir_versionV3.py:85-86 | shrinking either stop list never rejects a token that was accepted |
| Tokenize.KeepSurfacesIndices | gensim_nlpir_versionV3.py:73 | the comprehension's output is the surfaces at an increasing sequence of positions that contains exactly the positions whose token passes the condition |
| Tokenize.ProcessTextSelects | gensim_nlpir_versionV3.py:68-75 | `process_text` returns, in order, the surfaces of exactly the accepted tokens of the segmented lowered text: a subsequence that drops nothing accepted and keeps nothing rejected |
| Tokenize.FilterTokensAccepted | gensim_nlpir_versionV3.py:73 | never more words than tokens; every kept word is the surface of an accepted token, has 2 to 9 characters and is not a stopword |
| Tokenize.EmptySegmentation | gensim_nlpir_versionV3.py:68-75 | a text the segmenter splits into nothing yields an empty list |
| Tokenize.FilterTokensAppend | gensim_nlpir_versionV3.py:73 | filtering the concatenation of two token lists is the concatenation of their filterings |
| Scheduler.OwnsGap | gensim_nlpir_versionV3.py:93-96 | between two consecutive indices of a worker there is no other index of that worker |
| Scheduler.OwnsNext | gensim_nlpir_versionV3.py:96 | stepping `i = i + num_thread` stays on the worker's stride |
| Scheduler.StridePartition | gensim_nlpir_versionV3.py:108-111 | among workers 0..n-1, index `i` belongs to worker `i % n` and to no other: coverage and disjointness |
| Scheduler.ProcessThread | gensim_nlpir_versionV3.py:92-96 | worker `k` writes `process_text(corpus[i])` into exactly the slots `i >= k` with `i ≡ k (mod n)`, `i < len(corpus)`, leaves every other slot as it was, and changes nothing when `k >= len(corpus)` |
| Scheduler.ProcessCorpus | gensim_nlpir_versionV3.py:99-123 | after the `None`-filled list and workers 0..n-1, there is one slot per document; slot `i` holds `process_text(corpus[i])` for every `n >= 1`, and with `n = 0` no worker starts and every slot stays `None` |
| Corpus.GetCorpus | gensim_nlpir_versionV3.py:22-31 | the record loop with its inner `desc` loop computes `CleanAll`, including the abort on a missing `desc` |
| Corpus.KeptRecords | gensim_nlpir_versionV3.py:24 | the kept records are records of the input that have `name` and a non-empty `content`, no more of them than the input has, and every record that has both is among them |
| Corpus.KeptRecordsIndices | gensim_nlpir_versionV3.py:22-26 | the kept records are the records at an increasing sequence of positions that contains exactly the positions passing the test of line 24, so every such record is kept, in input order |
| Corpus.CleanAllShape | gensim_nlpir_versionV3.py:24-31 | on success `names` and `contents` have equal length, one entry per kept record in order. Each name is that record's name. Each content is its joined descriptions scrubbed of the name, and contains no `[`, `]` or `"\n"` |
| Corpus.CleanAllSucceeds | gensim_nlpir_versionV3.py:24-28 | cleaning succeeds if and only if every item of every kept record has a `desc` |
| Corpus.JoinDescsFailure | gensim_nlpir_versionV3.py:27-28 | the `desc` accumulation succeeds if and only if every item has a `desc`; a failure names the first item without one |
| Corpus.JoinDescsFailurePersists | gensim_nlpir_versionV3.py:27-28 | once an item raises, further items do not change the outcome |
| Corpus.CleanAllFailurePersists | gensim_nlpir_versionV3.py:22-31 | once a record raises, further records do not change the outcome: the first `KeyError` aborts `get_corpus` |
| Corpus.ScrubClean | gensim_nlpir_versionV3.py:29-30 | the `replace` chain leaves no `[`, `]` or `"\n"`, whatever the name |
| Corpus.ScrubEmptyName | gensim_nlpir_versionV3.py:30 | with an empty name the final `replace(name, "")` changes nothing |
| Text.ReplaceIntroducesNothing | gensim_nlpir_versionV3.py:29-30 | `replace` never produces a character found in neither the text nor the replacement |
| Text.ReplaceRemovesChar | gensim_nlpir_versionV3.py:29 | replacing a one-character string by text without that character removes every occurrence of it |
| Text.ReplaceEmptyByEmpty | gensim_nlpir_versionV3.py:30 | `s.replace("", "")` is `s` |
| Text.CountChinese | gensim_nlpir_versionV3.py:145-151 | the count equals the number of positions holding a character in U+4E00..U+9FA5, is at most the length, and is 0 exactly when there is none |
| Ranking.SortDescendingPermutation | gensim_nlpir_versionV3.py:169 | the sorted list has non-increasing scores and is a permutation of the input |
| Ranking.SortStable | gensim_nlpir_versionV3.py:169 | for every score, the pairs with that score appear in the sorted list in their input order |
| Ranking.DescendingStableUnique | gensim_nlpir_versionV3.py:169 | two descending lists that agree on the pairs of every score are equal |
| Ranking.SortByScoreCharacterized | gensim_nlpir_versionV3.py:169 | any descending list that keeps equal-score pairs in input order is exactly the sort's result, so the model is the stable descending sort |
| Ranking.TopTenSpec | gensim_nlpir_versionV3.py:169-170 | the report has `min(10, len(tfidf))` pairs, non-increasing scores, and is a sub-multiset of the input |
| Ranking.TopTenStable | gensim_nlpir_versionV3.py:169-170 | for every score, the reported pairs with that score are a prefix of the input's pairs with that score |
| Ranking.TopTenMaximal | gensim_nlpir_versionV3.py:169-170 | no pair left out of the report scores above a reported pair |

## Left out

- Reading the corpus file and `json.loads` (lines 13-23, 32-36): a record
  arrives already parsed. JSON values of an unexpected type are not
  modelled: a non-string `name`, a non-list `content`, a `null` `content`,
  or a non-string `desc`.
- Loading the stopword and stop-category files (lines 39-61): they are
  parameters.
- Writing the results and token files (lines 154-184), the timing and the
  progress messages. Also the format width `10 - count_chinese(...)`, which
  is presentation only.
- `pynlpir.open` and `pynlpir.segment` (lines 64, 71): a foreign segmenter,
  modelled as an arbitrary total function from text to tokens. It never
  raises here, so a worker whose call raises is not modelled. In Python
  that thread dies, `join` still returns, and its remaining slots stay
  `None`.
- `str.lower` (line 69): Unicode case mapping, modelled as an arbitrary
  function.
- gensim's `corpora.Dictionary`, `doc2bow` and `models.TfidfModel` (lines
  132-137): hidden library code. The script does not show its id
  assignment or its weighting. The ranking takes the `(id, score)` pairs as
  given.
- Threads and the unused `lock` (lines 89, 108-114): the pool is modelled as
  workers run one after another. No interleaving is modelled.
- Ranking.SortByScore: scores are `real`. Floating-point rounding and NaN,
  which breaks the ordering Python's sort relies on, are not modelled.
- Scheduler.ProcessThread: requires `n >= 1`. Called with step 0 and
  `i < len(corpus)`, the loop at lines 93-96 never ends, and a method that
  does not terminate is not modelled. `process_corpus` never makes that
  call: with `num_thread = 0` the loop at line 108 starts no worker.
- Scheduler.ProcessCorpus: the number of workers is a parameter where the
  script fixes it at 5 (line 104).
