# Word-frequency pipeline of the word-cloud server, in Dafny

The server's `wordCalculator(text)` turns free text into the rows of a word
cloud. The pipeline has seven steps:

1. It splits the text on a fixed list of delimiters, one delimiter after the
   other (`splitSpecialChar`).
2. It indexes the proper nouns and acronyms among the raw tokens
   (`isCapitalLetter`, `isCapitalWord`, `toCapitalWords`).
3. It lower-cases the tokens and drops the stop words.
4. It sorts the survivors alphabetically.
5. It marks runs of similar neighbours as one group (`isMaching`,
   `groupSimilarWord`).
6. It restores the capital spellings (`toOriginWord`).
7. It builds one row per group, holding the distinct spellings and the token
   count, and ranks the rows by descending count.

The model follows that structure, one module per concern:

| module | file | models |
|---|---|---|
| `Outcomes` | outcomes.dfy | `Result`/`Option`; the Python exceptions the code can raise (`IndexError`, `ZeroDivisionError`) |
| `Seqs` | seqs.dfy | order-preserving de-duplication (`if word not in words[i]`) and the `Counter` keys 0..k of contiguous group marks |
| `Strings` | strings.dfy | ASCII `lower`/`isupper`, and Python's lexicographic string order |
| `Tokenizer` | tokenizer.dfy | `str.split`, `str.count`, `IGNORE_CHARS`, `splitSpecialChar` |
| `Capitals` | capitals.dfy | `NOT_SPECIAL_WORDS`, `CAPITAL_WORD_PATTERN`, the capital map, `toOriginWord` |
| `StopFilter` | stopwords.dfy | `STOP_WORDS` and the stop-word filter |
| `Matching` | matching.dfy | `isMaching` and its thresholds |
| `Grouping` | grouping.dfy | `groupSimilarWord`, both loops |
| `Sorting` | sorting.dfy | `sort_values(by='word')` |
| `Aggregate` | aggregate.dfy | spelling collection, `Counter`, the `countDf` table, the ranking, and `wordCalculator` itself |

Python exceptions are modelled as values:

- `groupSimilarWord([])` raises `IndexError` at `samesame[0]`.
- `isMaching` on two unequal words, one of them empty, divides by zero.

The float thresholds 0.45 are compared exactly, as `20 * j > 9 * m`. At the
one boundary where the two could differ, `j / m` exactly 0.45, both forms
are false.

Three behaviours of the code that a reader might not expect:

- **Capital map.** `toCapitalWords` keeps the **last** capital spelling of a
  word, not the first (`Capitals.LastSpellingWins`).
- **Tokenizer.** The tokenizer's result depends on the order of the
  delimiters:
  - `"e.g"` split before `"."` and after it gives different fragments
    (`Tokenizer.DelimiterOrderMatters`).
  - The `"..."` round never splits anything because `"."` ran first
    (`Tokenizer.EllipsisNeverSplits`).
- **Empty input.** When no token survives the stop filter, the source raises
  `IndexError` inside `groupSimilarWord`. It does not return an empty table.
  This covers empty text and text made only of stop words or delimiters
  (`Aggregate.WordCalculator`).

## Model

| member | source | states |
|---|---|---|
| Tokenizer.IndexOf | server/app.py:29 | where `str.split` cuts: the leftmost occurrence of the separator, or none exactly when the separator does not occur |
| Tokenizer.SplitJoin | server/app.py:29 | joining the pieces of `word.split(sep)` with `sep` gives back the word |
| Tokenizer.SplitCount | server/app.py:29 | one split yields one piece more than the number of non-overlapping occurrences of the separator |
| Tokenizer.SplitPiecesAvoid | server/app.py:29 | no piece of a split contains the separator |
| Tokenizer.SplitPiecesAreFactors | server/app.py:29 | every piece of a split is a substring of the word split |
| Tokenizer.SplitAbsent | server/app.py:29 | a word without the separator splits into itself alone |
| Tokenizer.SplitSpecialChar | server/app.py:21-34 | an empty delimiter list returns the words unchanged; every output fragment is a substring of an input word and contains none of the delimiters |
| Tokenizer.LaterDelimiterIsIdle | server/app.py:21-34 | once no fragment contains `d1`, a later round on a delimiter containing `d1` leaves the fragments unchanged |
| Tokenizer.EllipsisNeverSplits | server/app.py:11-12 | with the source's delimiter order, the `"..."` round is the identity |
| Tokenizer.DelimiterOrderMatters | server/app.py:21-34 | `"e.g"` then `"."` yields `["", ""]`; `"."` then `"e.g"` yields `["e", "g"]` |
| Capitals.WholeMatchClosedForm | server/app.py:16 | a full match of `[A-Z].*[A-Z]+` is exactly: length at least 2, first and last letters upper case, no newline in between |
| Capitals.CapitalWordOnToken | server/app.py:37-42 | a newline-free token is a capital word iff it is a single upper-case letter other than A, I, U, or has length at least 2 with upper-case first and last letters |
| Capitals.CapitalMapMeaning | server/app.py:45-52 | the capital map has a key exactly when some capital token lower-cases to it, and maps each key to a capital word whose lower-case form is the key |
| Capitals.LastSpellingWins | server/app.py:48-50 | the stored spelling is a token of the text, and no later capital token has the same lower-case form |
| Capitals.OriginWordRestoresSpelling | server/app.py:55-59 | restoring a lower-case token preserves its lower-case form; the result is the token itself or a capital token of the text, and it is a capital word, different from the token, exactly when the text holds a capital spelling of the token |
| StopFilter.LowerAll | server/app.py:131 | one lower-cased token per raw token, position by position |
| StopFilter.RemoveStopWords | server/app.py:137-139 | a word survives iff it was present and is not a stop word, and each survivor keeps its multiplicity |
| Matching.CommonPrefixLength | server/app.py:74-80 | the scan stops at a common prefix that cannot be extended |
| Matching.CommonPrefixIsLongest | server/app.py:74-80 | every common prefix is at most as long as the one the scan finds |
| Matching.CommonPrefixSymmetric | server/app.py:74-80 | the scanned prefix length does not depend on argument order |
| Matching.IsMatching | server/app.py:67-82 | raises ZeroDivisionError exactly when the words differ and one is empty; equal words always match |
| Matching.MatchingReflexive | server/app.py:68-69 | every word matches itself |
| Matching.MatchingSymmetric | server/app.py:67-82 | the outcome does not depend on argument order |
| Matching.SimilarIffLongSharedPrefix | server/app.py:82 | distinct words match iff they share a prefix longer than 3 and longer than 0.45 times the longer word |
| Matching.SimilarExamples | server/app.py:62-82 | science/scientist and love/loves match |
| Matching.DissimilarExamples | server/app.py:62-82 | analysis/data and cat/cats do not match |
| Grouping.SameAsPredecessor | server/app.py:86-97 | raises IndexError on no words; otherwise succeeds iff no adjacent comparison divides by zero; flag `i` says whether word `i` matches word `i-1`; flag 0 is false |
| Grouping.MarksFromFlags | server/app.py:100-116 | mark 0 is 0, and each later mark grows by one exactly when its flag is false |
| Grouping.GroupSimilarWord | server/app.py:85-116 | raises IndexError on no words, ZeroDivisionError when a neighbour comparison divides by zero, and otherwise returns one mark per word that starts at 0 and grows exactly at each non-matching neighbour |
| Grouping.GroupingIsUnique | server/app.py:85-116 | the words determine the marks |
| Grouping.GroupingIsContiguous | server/app.py:85-116 | marks start at 0 and step by 0 or 1 |
| Grouping.GroupingSteps | server/app.py:103-114 | each step is 0 or 1, and 0 exactly when the neighbours match |
| Grouping.ContiguousBounds | server/app.py:103-114 | marks never decrease and grow by at most the distance |
| Grouping.ContiguousCovers | server/app.py:103-114 | every group index up to the last mark is used |
| Grouping.EqualWordsShareMark | server/app.py:144-147 | in sorted input, equal words get the same mark |
| Strings.LexLeTotal | server/app.py:144 | the word order compares any two strings |
| Strings.LexLeAntisymmetric | server/app.py:144 | the word order is antisymmetric |
| Strings.LexLeTransitive | server/app.py:144 | the word order is transitive |
| Sorting.SortWords | server/app.py:144 | the result is sorted and a permutation of the input |
| Seqs.Distinct | server/app.py:159-161 | keeps one copy of each element, and only elements of the input |
| Seqs.DistinctKeepsFirstOccurrenceOrder | server/app.py:159-161 | the kept elements appear in the order of their first occurrences in the input |
| Aggregate.Members | server/app.py:154-164 | group `g` has as many members as there are tokens marked `g` |
| Aggregate.CollectSpellingsMeaning | server/app.py:154-164 | for contiguous marks, list `g` holds the distinct spellings of the tokens marked `g`, in order |
| Aggregate.DistinctOfContiguous | server/app.py:165-168 | for contiguous marks, the counter's keys come out as 0, 1, …, k |
| Aggregate.CountTable | server/app.py:165-170 | one row per group |
| Aggregate.AggregateRow | server/app.py:165-170 | row `g` pairs group `g`'s distinct spellings with the number of tokens marked `g` |
| Aggregate.AggregateCountsSum | server/app.py:165-170 | the row counts add up to the number of tokens |
| Aggregate.AggregateWellFormed | server/app.py:154-170 | every row has at least one spelling, no spelling twice, a count at least the number of spellings, and only spellings of the tokens |
| Aggregate.AggregateCovers | server/app.py:154-164 | each token's spelling appears in the row of its mark |
| Aggregate.SpellingsPinGroup | server/app.py:144-164 | on sorted tokens, two spellings with the same lower-case form are in the same row |
| Aggregate.AggregateSeparate | server/app.py:144-170 | no lower-case form is spelled in two rows, and no row is repeated |
| Aggregate.InsertByCount | server/app.py:173 | inserting into rows ranked by descending count keeps them ranked and adds exactly that row |
| Aggregate.SortByCount | server/app.py:173 | the ranking is by non-increasing count and is a permutation of the rows |
| Aggregate.RankingKeepsGroups | server/app.py:173 | ranking keeps the same rows and keeps lower-case forms apart |
| Aggregate.NonStopTokensShape | server/app.py:131-139 | every surviving token is a lower-cased raw token, is lower case, and is not a stop word |
| Aggregate.ShownSpellingsAvoidStops | server/app.py:137-139 | no shown spelling lower-cases to a stop word |
| Aggregate.RestoredFacts | server/app.py:150-151 | each restored spelling lower-cases back to its sorted token, is that token or a capital word of the text, and is a capital word exactly when the text holds a capital spelling of the token |
| Aggregate.RankCounts | server/app.py:165-173 | the ranked counts do not increase and add up to the number of surviving tokens |
| Aggregate.RankSeparate | server/app.py:144-173 | ranked rows are well formed and keep lower-case forms apart |
| Aggregate.RankSpellings | server/app.py:150-173 | every shown spelling lower-cases to a surviving token, is that token or a capital word of the text, and is a capital word exactly when the text holds a capital spelling of that token |
| Aggregate.RankCovers | server/app.py:144-173 | every surviving token is shown, under some spelling, in some row |
| Aggregate.RankIsRankedFrom | server/app.py:144-173 | the ranked table holds, up to row order, the rows of the `countDf` built from the grouping of the sorted surviving tokens |
| Aggregate.RankedFromIsDetermined | server/app.py:85-116 | two tables built from the grouping of the same tokens have the same rows, because the tokens determine the grouping |
| Aggregate.TwoSimilarTokensShareARow | server/app.py:85-116 | two distinct similar tokens land in one row of count 2 |
| Aggregate.ScienceAndScientistShareARow | server/app.py:62-116 | `science` and `scientist` form one row of count 2, not two rows of count 1 |
| Aggregate.RankGroups | server/app.py:128-175 | raises IndexError iff no token survives the stop filter; otherwise counts do not increase and add up to the surviving tokens; rows are well formed and separate; every shown spelling is a surviving token or a capital word for one; every surviving token is shown; the rows are, up to order, those of the grouping of the sorted surviving tokens |
| Aggregate.WordCalculator | server/app.py:119-175 | the same promises for the tokens of `text` under `STOP_WORDS`, including which tokens share a row; in particular no shown spelling is a stop word |

## Left out

- The Flask application and its HTTP route (server/app.py:180-211), and the unused `json` import. They are I/O, not logic.
- The client files (the browser front end and its webpack configuration). They are not part of the pipeline.
- `SLIENT_VOWELS` (server/app.py:18). The pipeline never reads it.
- numpy and pandas are replaced by sequences. The array built by `np.append` becomes a sequence of strings. The data frames become sequences of rows. numpy's handling of embedded NUL characters is not modelled.
- Case handling is ASCII only. `str.lower` and `str.isupper` on non-ASCII letters are not modelled.
- Aggregate.SortByCount: the order among rows of equal count is not promised. pandas' default quicksort is not stable, and the model's insertion sort is only one of the orders it may produce.
- StopFilter.RemoveStopWords: states membership and multiplicities, not that the survivors keep their order. Alphabetical sorting follows immediately, so the order does not matter.
- Tokenizer.SplitSpecialChar: states a round trip only for a single split (`Tokenizer.SplitJoin`), not for the whole delimiter cascade.
- Matching.IsMatching: compares the 0.45 thresholds in exact rational arithmetic, not in binary floating point.
