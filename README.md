# cluster-explorer: n-gram similarity features and the analysis binary search

This project models, in Dafny, the feature pipeline cluster-explorer uses to
compare documents. It also models the binary search of its analysis package.

- `Sequencer` (`ngrams.py`) hands out dense integer ids to keys in first-seen
  order, starting at 1. It is a class with a `data` map and a `nextId`
  counter. A ghost `keys` sequence records the first-seen order.
  `Valid()` ties the three together: the i-th key seen has id i + 1,
  nothing else is stored, and `nextId == 1 + |data|`.
- `NGramSpace.Parse` lower-cases a text and splits it on whitespace. It joins
  every window of `n` consecutive tokens with one space, sequences each
  window, and returns the set of ids sorted ascending. Its contract gives the
  whole new sequencer state as `Sequenced(old keys, window keys)`. It also
  states that the ids are strictly ascending, that they are exactly the ids of
  the windows, that there is one id per distinct window, and that each id
  lies in [1, nextId).
- `overlap` is the two-pointer merge `Overlap`. It is proved equal to the
  recursive `MergeCount`, and on strictly ascending inputs to the size of the
  set intersection.
- `jaccard` is `Jaccard`, a function over `MergeCount`. Its result is a
  rational (`real`). It lies in [0, 1], is symmetric, equals 1 on identical
  non-empty input, and equals |X ∩ Y| / |X ∪ Y| on sorted input.
- `binary_search` (`analysis/utils.py`) is `AnalysisUtils.BinarySearch`. Given
  a list sorted in decreasing order, it returns the first index whose key is
  below the target. That index equals the number of keys at least the target.

Module `Text` models the three string operations the parser calls: `lower()`,
`split()` and `" ".join`. The source is Python 2, and its texts are byte
strings. For byte strings, lower-casing and whitespace are ASCII: space, tab,
line feed, vertical tab, form feed and carriage return.

Two points about the code:

- Windows are sequenced as their space-joined string (`ngrams.py:35`).
  `Text.JoinInjective` shows that two different windows never share a key,
  because tokens contain no whitespace.
- The docstring of `binary_search` says it returns an element. The code
  returns an index (`analysis/utils.py:27`), and so does the model.

## Model

| member | source | states |
|---|---|---|
| `Text.Split` | ngrams.py:30 | every token `split()` produces is non-empty and free of whitespace |
| `Text.SplitOfToken` | ngrams.py:30 | a non-empty word without whitespace splits into itself |
| `Text.SplitAtSpace` | ngrams.py:30 | splitting two texts joined by a space gives the tokens of the first followed by those of the second, so `split()` loses no text |
| `Text.SplitJoin` | ngrams.py:30-35 | splitting the space-joined tokens gives back the tokens (round trip of `split` and `" ".join`) |
| `Text.JoinInjective` | ngrams.py:35 | two token lists join to the same window key exactly when they are equal |
| `Text.LowerIsLowerCase` | ngrams.py:30 | `lower()` keeps the length and leaves no upper-case letter |
| `Text.LowerIdempotent` | ngrams.py:30 | lower-casing twice is lower-casing once |
| `Text.LowerKeepsSpaces` | ngrams.py:30 | lower-casing neither creates nor removes whitespace |
| `Text.SplitLower` | ngrams.py:30 | `text.lower().split()` gives the lower-cased tokens of `text.split()`, one for one: lower-casing moves no token boundary |
| `Text.LowerOfLowerCase` | ngrams.py:30 | text that is already lower-case is left unchanged |
| `NGrams.Sequencer.constructor` | ngrams.py:6-8 | a new sequencer stores nothing and its next id is 1 |
| `NGrams.Sequencer.Id` | ngrams.py:10-19 | a stored key returns its stored id and changes nothing; a fresh key gets `nextId`, is stored, and `nextId` grows by one; the truthiness test on the looked-up id is proved equivalent to "key present"; the invariant `Valid()` is kept |
| `NGrams.DenseIdsInRange` | ngrams.py:11-13 | every stored id lies in [1, nextId), so no stored id is falsy |
| `NGrams.DenseInjective` | ngrams.py:16-19 | distinct keys have distinct ids, and no key is recorded twice |
| `NGrams.DenseOnto` | ngrams.py:16-19 | the ids handed out are exactly 1 .. nextId - 1 |
| `NGrams.DenseUnique` | ngrams.py:10-19 | the first-seen order of the keys determines the whole map and counter |
| `NGrams.SequencedExtends` | ngrams.py:10-19 | sequencing only appends: earlier keys keep their place, and the keys afterwards are the old keys plus the new ones |
| `NGrams.SequencedAllSeen` | ngrams.py:11-14 | sequencing only keys already seen leaves the sequencer unchanged |
| `NGrams.SequencedFresh` | ngrams.py:16-19 | distinct fresh keys are appended in the order they come, so they receive consecutive ids |
| `NGrams.SequencerScenario` | tests.py:63-74 | fresh keys 'a', 'b', 'c' get 1, 2, 3, and asking again returns the same ids |
| `NGrams.SortedList` | ngrams.py:38-39 | `list(ids)` then `sort()` gives a strictly ascending list with exactly the set's elements |
| `NGrams.AscendingDeterminedByElems` | ngrams.py:38-41 | two strictly ascending lists with the same elements are equal, so the sorted output depends only on the id set |
| `NGrams.NGramSpace.constructor` | ngrams.py:25-27 | a new space has window size n and a fresh, empty sequencer |
| `NGrams.NGramSpace.Parse` | ngrams.py:29-41 | the sequencer's new key order is the old one extended by the text's window keys in first-seen order; the result is strictly ascending, equals the set of the windows' ids, has one id per distinct window, and each id lies in [1, nextId) |
| `NGrams.NGramSpace.SequenceWindow` | ngrams.py:34-36 | one turn of the loop: the window starting at `i` is joined and sequenced, the key order grows by that key if it is new, every earlier window stays stored, and its id joins the id set |
| `NGrams.IdsOfCard` | ngrams.py:32-36 | under an injective id map, a list of window keys has as many distinct ids as distinct keys |
| `NGrams.UnigramWindows` | ngrams.py:34-35 | with n = 1 every token is its own window key |
| `NGrams.ReparseAddsNothing` | ngrams.py:34-36 | sequencing the same window keys a second time adds no key |
| `NGrams.ParseTwice` | ngrams.py:29-41 | parsing the same text twice returns the same ids, and the second parse leaves the sequencer unchanged |
| `NGrams.UnigramScenario` | tests.py:90-97 | unigram parses of "This is a sentence" and "This is another sentence" give [1, 2, 3, 4] and [1, 2, 4, 5] |
| `NGrams.MergeCount` | ngrams.py:44-60 | the number of matches of the merge is at most the length of either list |
| `NGrams.Overlap` | ngrams.py:44-60 | the loop computes `MergeCount`; on strictly ascending input the count is the size of the intersection of the two element sets |
| `NGrams.MergeCountIsIntersection` | ngrams.py:44-60 | on strictly ascending lists the merge counts exactly the common elements |
| `NGrams.MergeCountSymmetric` | ngrams.py:44-60 | the merge count is symmetric on all inputs, sorted or not |
| `NGrams.MergeCountSelf` | ngrams.py:44-60 | a list overlaps itself in all its elements |
| `NGrams.Jaccard` | ngrams.py:63-67 | the similarity lies in [0, 1] and is 0 exactly when the merge finds no match (so also when the union is empty) |
| `NGrams.JaccardZeroIffDisjoint` | ngrams.py:63-67 | on strictly ascending lists the similarity is 0 exactly when the lists share no element |
| `NGrams.JaccardSymmetric` | ngrams.py:63-67 | `jaccard(x, y) == jaccard(y, x)` on all inputs |
| `NGrams.JaccardSelf` | ngrams.py:63-67 | a non-empty list has similarity 1 with itself; two empty lists have similarity 0 |
| `NGrams.JaccardIsIntersectionOverUnion` | ngrams.py:63-67 | on strictly ascending lists the similarity is the size of the set intersection over the size of the set union, or 0 when the union is empty |
| `NGrams.JaccardExamples` | tests.py:102-133 | the worked values 3/5, 1/5 and 0 for the unigram, bigram and trigram id lists |
| `AnalysisUtils.BinarySearch` | analysis/utils.py:13-27 | the result lies in [0, len(a)]; if the keys decrease, every element before it has a key of at least x and every element from it on has a key below x, it equals the number of keys of at least x, and it is 0 exactly when the list is empty or its first key is below x |
| `AnalysisUtils.PartitionPointIsCount` | analysis/utils.py:22-27 | an index that splits the keys into at-least-x followed by below-x equals the number of keys of at least x, so it is unique |

## Left out

- `execute_file` in `analysis/utils.py`: it reads SQL files and runs them on a database cursor, which is I/O.
- `profile` in `analysis/utils.py`: it is a timing and printing decorator that depends on Django settings and the wall clock.
- The D3 treemap script: it is UI rendering over a library that is not part of this model.
- The symmetric matrix, clustering, phrase sequencer, sentence parser and document ingester: clustering.py, phrases.py, parser.py and ingestion.py are not part of this model.
- Python's Unicode `lower()` and `split()`: only byte strings (ASCII semantics) are modelled. Unicode case mapping and Unicode whitespace are not.
- NGramSpace.constructor: the window size is a natural number. With a negative `n` the source slices from the end of the token list, and that is not modelled. `n == 0` is modelled as the code runs it: one empty window per position, all with the key "".
- Jaccard: the result is an exact rational, not an IEEE double. Where the union is empty the source returns the integer 0, and the model returns 0.0.
- AnalysisUtils.BinarySearch: the list elements are integers and the key function maps integers to integers. The source accepts any comparable values. The list is a `seq`, so it cannot be modified, where the source only leaves its list untouched. Python 2's `/` on the non-negative `left + right` is floor division, the same as Dafny's.
- NGrams.Sequencer.Id: keys are of any equality type, and Python's hashing is not modelled.
- The bigram and trigram parses of the tests are checked only through their Jaccard values (`NGrams.JaccardExamples`), not as whole parse scenarios.
