# Text statistics: bigram prediction and TF-IDF

This project models the two text-statistics routines of `src/algo` in Dafny
and proves what they compute.

- **`NGramPrediction`** (`ngram.dfy`, module `NGram`) predicts the next
  character of a string. It counts every adjacent character pair into a table
  kept in insertion order. It collects the second characters of the pairs
  that start with the string's last character, in table order. It returns the
  candidate with the highest count; a strict `>` makes the earliest candidate
  win a tie. It returns `""` when there is no candidate. The table is an
  ordered association list `seq<(seq<char>, nat)>`, so the tie-break stays
  observable.
- **`TFIDF`** with `calculateTF`, `calculateIDF` and `_normalize`
  (`tfidf.dfy`, module `TfIdf`) scores a corpus.
  - Normalisation splits a document on single spaces and lowercases each piece.
  - Term frequency is a word's count divided by the number of words, as an
    exact `real`.
  - Document frequency counts each distinct word once per document.
  - IDF is `Math.log(size / df)`. The logarithm is a parameter `ln`, and every
    property of IDF is stated through the ratio `size / df`.
  - A score is `tf * idf`.
  - The output is modelled as the code produces it: each document's final
    record, repeated once per distinct word of the document, grouped in
    document order (`TfIdfAsWritten`). The one-record-per-document reading is
    modelled separately (`TfIdfPerDocument`), and the two are related by
    `TfIdfGroups`.

Two consequences of the code are worth stating:

- For `"helo helo  hell"` the pair `lo` occurs twice and `ll` once, so the
  prediction after the final `l` is `"o"` (`NGram.HeloExample`). This is the
  reason the demo page spells the word `"helo"` rather than `"hello"`
  (src/index.ts:66-68).
- In a corpus where one document reads `"My name is Mat"`, the word `mat` is
  also produced by that document, because normalisation lowercases `Mat`.
  Its document frequency therefore counts that document as well. In the
  corpus `["The cat", "The cat sat on the mat", "My name is Mat"]` both
  `mat` and `the` are found in two documents, so `mat` gets `log(3 / 2)`
  (`TfIdf.ThreeDocumentIdf`).

## Model

| member | source | states |
|---|---|---|
| NGram.Lookup | src/algo/n-gram.ts:11 | `bingrams[k] \|\| 0`: an absent key reads as 0, and with distinct keys a present key reads as its stored count |
| NGram.Bump | src/algo/n-gram.ts:11 | an existing key keeps its position, and a new key is appended with count 1 at the end of the table (insertion order) |
| NGram.BumpCounts | src/algo/n-gram.ts:11 | incrementing a pair adds one to its count and to the table total, and leaves every other pair's count unchanged |
| NGram.Tally | src/algo/n-gram.ts:9-12 | the table after `n` iterations of the counting loop has at most `n` keys; `TallyStep`, `TallyMaintains` and `Bigrams` give its full meaning |
| NGram.TallyStep | src/algo/n-gram.ts:9-12 | one iteration of the counting loop keeps the invariant: distinct keys, positive counts, counts equal to occurrences so far, keys equal to the pairs seen so far, first-occurrence order, total equal to the iterations done |
| NGram.TallyMaintains | src/algo/n-gram.ts:9-12 | after `n` iterations the counting loop's table satisfies that invariant for the first `n` pairs |
| NGram.Bigrams | src/algo/n-gram.ts:9-12 | every key is some `str[i] + str[i+1]`, keys are distinct, every count is at least 1 and equals the pair's number of occurrences, the keys are exactly the occurring pairs in first-occurrence order, the counts sum to `\|str\| - 1`, and the table is empty for strings shorter than 2 |
| NGram.Candidates | src/algo/n-gram.ts:21-25 | `x` is a candidate exactly when the pair `last + x` is a key of the table |
| NGram.CandidatesInOrder | src/algo/n-gram.ts:21-25 | candidates are listed in the order in which their pairs first occur in the string |
| NGram.CandidatesOccur | src/algo/n-gram.ts:21-25 | `x` is a candidate exactly when `last x` occurs in the string, and the count the selection loop reads for `x` is the number of occurrences of `last x` |
| NGram.Choose | src/algo/n-gram.ts:27-42 | the selection loop returns its start value or a one-character string drawn from the candidates; `ChooseKeeps` and `ChooseFirstMax` say which |
| NGram.ChooseKeeps | src/algo/n-gram.ts:27-42 | when no candidate's count exceeds `maxFreq`, the selection loop returns its start value |
| NGram.ChooseFirstMax | src/algo/n-gram.ts:36-42 | when some count exceeds `maxFreq`, the loop returns the candidate at a position holding the highest count with every earlier position strictly lower |
| NGram.Predict | src/algo/n-gram.ts:1-45 | `NGramPrediction` returns at most one character; `PredictSelects`, `PredictEmptyIff`, `PredictOccurs`, `PredictMostFrequent` and `PredictEarliestOnTie` together determine the result |
| NGram.PredictSelects | src/algo/n-gram.ts:14-44 | the result is `""` when no pair starts with the last character, and otherwise the first candidate of highest count, whose pair occurs |
| NGram.PredictEmptyIff | src/algo/n-gram.ts:27-44 | for a non-empty string the result is `""` exactly when no adjacent pair starts with the last character; the `maxFreq = 0` start never hides a real candidate |
| NGram.PredictOccurs | src/algo/n-gram.ts:21-44 | a non-empty result is one character `c` such that `last + c` occurs as an adjacent pair |
| NGram.PredictMostFrequent | src/algo/n-gram.ts:36-42 | no pair starting with the last character occurs more often than the predicted pair |
| NGram.PredictEarliestOnTie | src/algo/n-gram.ts:21-25 | every other pair as frequent as the predicted one first occurs later in the string (strict `>` keeps the earliest) |
| NGram.ShortInputPredictsNothing | src/algo/n-gram.ts:9-14 | empty and one-character strings predict `""` |
| NGram.PredictUniqueMax | src/algo/n-gram.ts:36-42 | a follower strictly more frequent than every other follower of the last character is the prediction |
| NGram.FollowerOfCount | src/algo/n-gram.ts:9-12 | a pair `c x` that occurs at least once makes `c` the first character of some adjacent pair |
| NGram.HeloCounts | src/algo/n-gram.ts:9-12 | in `"helo helo  hell"`, `lo` occurs twice, `ll` once, and no other pair starts with `l` |
| NGram.HeloExample | src/algo/n-gram.ts:1-45 | `NGramPrediction("helo helo  hell")` returns `"o"` |
| TfIdf.LowerWord | src/algo/tf-idf.ts:81 | ASCII lowercasing keeps the length of the word |
| TfIdf.LowerWordAt | src/algo/tf-idf.ts:81 | each character is lowercased in place: `A`–`Z` map to `a`–`z`, all else is kept |
| TfIdf.Split | src/algo/tf-idf.ts:81 | `split(" ")` gives one more piece than there are spaces, and no piece contains a space |
| TfIdf.JoinSplit | src/algo/tf-idf.ts:81 | joining the pieces with single spaces gives back the string |
| TfIdf.SplitJoin | src/algo/tf-idf.ts:81 | splitting a space-joined list of space-free words gives back the list |
| TfIdf.Normalize | src/algo/tf-idf.ts:80-82 | `_normalize` returns the number of spaces plus one tokens, so it is never empty |
| TfIdf.NormalizeJoin | src/algo/tf-idf.ts:80-82 | the tokens joined with spaces are the lowercased document, and `""` normalises to `[""]` |
| TfIdf.NormalizeWords | src/algo/tf-idf.ts:80-82 | normalising space-free words joined by single spaces gives back each word lowercased, in order |
| TfIdf.LowercaseWords | src/algo/tf-idf.ts:81 | lowercasing leaves words without ASCII capitals unchanged |
| TfIdf.NormalizeThirdDocument | src/algo/tf-idf.ts:80-82 | `"My name is Mat"` normalises to `["my", "name", "is", "mat"]` |
| TfIdf.Counts | src/algo/tf-idf.ts:34-36 | the counting loop's keys are the words, and each value is the word's number of occurrences |
| TfIdf.TermFrequency | src/algo/tf-idf.ts:22-47 | the TF keys are exactly the normalised tokens of the document |
| TfIdf.TermFrequencyValues | src/algo/tf-idf.ts:42-44 | each TF value is the word's occurrence count divided by the token count, and lies in (0, 1] |
| TfIdf.TermFrequencySumsToOne | src/algo/tf-idf.ts:34-44 | the TF values of a document, taken once per distinct word in first-occurrence order, sum to exactly 1 |
| TfIdf.Distinct | src/algo/tf-idf.ts:62 | `new Set(words)` holds the same words, each once |
| TfIdf.DistinctInOrder | src/algo/tf-idf.ts:62 | the distinct words are listed in the order of their first occurrence |
| TfIdf.AddEach | src/algo/tf-idf.ts:63-65 | each word of the set gains exactly one, and words not in the set keep their count |
| TfIdf.DocumentCounts | src/algo/tf-idf.ts:61-66 | a word is a key exactly when some document contains it, and its value is the number of documents containing it |
| TfIdf.DocumentCountsBounds | src/algo/tf-idf.ts:61-66 | a word's document frequency is between 1 and the corpus size, however often it repeats within a document |
| TfIdf.DocumentCountsReorder | src/algo/tf-idf.ts:61-66 | the document-frequency table does not depend on the order of the documents |
| TfIdf.IdfRatio | src/algo/tf-idf.ts:72-74 | the logarithm's argument for each word is the corpus size divided by the word's document frequency |
| TfIdf.Idf | src/algo/tf-idf.ts:72-75 | a word is an IDF key exactly when some document contains it, and its value is the logarithm of the corpus size over the number of documents containing it |
| TfIdf.IdfRatioAtLeastOne | src/algo/tf-idf.ts:55-75 | the ratio is at least 1, and it is exactly 1 when `df[w]` equals the size, that is when every document contains the word |
| TfIdf.IdfNonNegative | src/algo/tf-idf.ts:72-75 | for a logarithm that is non-negative from 1 on and zero only at 1, every IDF is non-negative, and it is zero exactly for words found in every document |
| TfIdf.IdfOfSingleDocumentWord | src/algo/tf-idf.ts:72-75 | a word found in exactly one document gets `log(size)` |
| TfIdf.SingleDocumentIdf | src/algo/tf-idf.ts:72-75 | in a one-document corpus every ratio is 1, so every IDF is `log(1)` |
| TfIdf.TwoOfThree | src/algo/tf-idf.ts:61-66 | in three documents normalising to `the cat`, `the cat sat on the mat` and `my name is mat`, both `the` and `mat` have document frequency 2 |
| TfIdf.ThreeDocumentIdf | src/algo/tf-idf.ts:55-75 | in the corpus `["The cat", "The cat sat on the mat", "My name is Mat"]`, `the` is in two documents and `mat` gets `log(3 / 2)` |
| TfIdf.DocumentScores | src/algo/tf-idf.ts:7-15 | a document's score record has exactly the document's normalised words as keys |
| TfIdf.IdfOrZero | src/algo/tf-idf.ts:14 | `idf[word] \|\| 0`; `ScoresUseIdf` shows the fallback `0` is never taken |
| TfIdf.ScoresUseIdf | src/algo/tf-idf.ts:13-14 | every word of a document is an IDF key with value `log(size / df)`, so the `\|\| 0` fallback never applies; the document's record has exactly the document's words as keys, and each score is `tf[w] * idf[w]` |
| TfIdf.WidthPositive | src/algo/tf-idf.ts:13-16 | every document contributes at least one entry, since normalisation yields at least one token |
| TfIdf.TfIdfAsWritten | src/algo/tf-idf.ts:1-20 | `TFIDF` returns one entry per distinct word of each document; `TfIdfGroups` says which record each entry is |
| TfIdf.TfIdfLength | src/algo/tf-idf.ts:5-19 | an empty corpus gives `[]`: no document, no entry |
| TfIdf.TfIdfGroups | src/algo/tf-idf.ts:5-16 | every entry in document `j`'s block, which starts after the earlier documents' entries, is that document's final record, and the block ends where block `j + 1` starts, so the blocks follow document order |
| TfIdf.PerDocumentScores | src/algo/tf-idf.ts:5-15 | record `j` has exactly the words of document `j` as keys, each word is in some document, and each score is its term frequency times `log(size / df)` |
| TfIdf.TfIdfPerDocument | src/algo/tf-idf.ts:5-17 | the corrected output holds exactly one record per document; `PerDocumentScores` gives each record's contents |
| TfIdf.RepeatedRecordExample | src/algo/tf-idf.ts:13-16 | for the corpus `["a b"]` the code returns two entries where the corrected output has one |

## Left out

- `src/index.ts` is not part of this model. It holds HTTP routing, HTML
  templating, syntax highlighting, file reads and a weather proxy, all I/O
  with no algorithmic content.
- Floating point: TF values are exact ratios of naturals (`real`), and
  `Math.log` is the parameter `ln: real -> real`. Rounding is not modelled.
- Lowercasing covers only the ASCII letters `A`–`Z`. Unicode case mapping and
  UTF-16 code-unit indexing are not modelled; strings are `seq<char>`.
- Plain-object key order: JavaScript enumerates integer-like keys (such as
  the bigram `"12"`) before all other keys, in numeric order. The bigram
  table is modelled in pure insertion order. For strings whose digit pairs
  tie with other candidates, the source's tie-break can therefore differ
  from the model's.
- Key order of the TF-IDF records: the TF, IDF and score records are
  modelled as maps, which have no order. Only their keys and values are
  modelled. In the source each returned record enumerates integer-like
  words first, in ascending numeric order, and then the other words in
  first-occurrence order (the document `"b 2 a 1"` enumerates `1`, `2`, `b`,
  `a`); the `for…in` at src/algo/tf-idf.ts:13-14 follows that order.
- Plain-object inherited keys: words such as `constructor`, `toString` or
  `__proto__` collide with `Object.prototype` in `tf[word] || 0` and
  `documentCounts[word] || 0` (src/algo/tf-idf.ts:35, 64). The model treats
  every word as an ordinary key.
- Aliasing: the source pushes the same mutable object repeatedly. The model
  represents that as value copies of each document's final record. The
  intermediate, partially filled states of the record are never observable
  after the call returns, so they are not modelled.
- TfIdf.IdfNonNegative: non-negativity is proved for any `ln` that is
  non-negative from 1 on and zero only at 1. The real logarithm satisfies
  this, but it is taken as a precondition rather than proved.

## Findings

| source | as written | input that shows it | evidently intended | confidence | as-written member | corrected member |
|---|---|---|---|---|---|---|
| src/algo/tf-idf.ts:13-16 | `tfidf.push(tfIdfDoc)` sits inside the per-word loop, so each document's one shared record is pushed once per distinct word | `TFIDF(["a b"])` returns two references to the same record | one record per document, pushed after the word loop, in document order | medium; not executed | TfIdf.RepeatedRecordExample | TfIdf.TfIdfPerDocument |
