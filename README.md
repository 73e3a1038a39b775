# Search server model

This is a Dafny model of `SearchServer`, a small in-memory search engine with an inverted index:

- **Documents.** A document is added under an integer id, with a status and a list of ratings.
  - The text is split on single spaces into words, and stop words are removed.
  - Each remaining word gains a term frequency for the document. The term frequency is the word's count divided by the number of non-stop words.
  - The document table keeps the first rating and status stored for an id. The rating is the average of the ratings, truncated toward zero.
- **Queries.** A query is a line of words. A word starting with `-` is a minus word. Stop words are dropped from both sets.
- **Search.**
  - `FindAllDocuments` takes the stored documents that a plus word hits and that the caller's predicate accepts. It then erases every document a minus word hits. It lists the survivors in ascending id order, each with its TF-IDF relevance and stored rating.
  - `FindTopDocuments` ranks them by relevance, then by rating, and keeps at most `MAX_RESULT_DOCUMENT_COUNT` (5) of them.
  - `MatchDocument` reports which plus words occur in one document, in ascending order. A minus-word hit empties that list.

## Modules

- **`Tokenizer`.**
  - `Words` is the reference split: the maximal runs of non-space characters.
  - `SplitIntoWords` is the character loop of the implementation, proved equal to `Words`.
  - `RemoveStopWords` filters out stop words.
- **`Ordering`.** The iteration order of the ordered containers:
  - `std::set<std::string>` is ascending lexicographic order, via `InOrder`.
  - The listing loop over `std::map<int, double>` at main.cpp:262 takes the least remaining key each time. The posting loops take their keys in an arbitrary order (see "## Left out").
- **`Rating`.** C++ integer division, which truncates toward zero, and the average rating.
- **`Ranking`.** The result item `Document`, the sort comparator, an in-place insertion sort on an array, and facts about id sets of result sequences.
- **`Server`.** The `SearchServer` class:
  - Its three fields: `stopWords`, `wordToDocumentFreqs` and `documents`.
  - The mutators `SetStopWords` and `AddDocument`, which change the fields.
  - The query side: parsing, `FindAllDocuments`, both `FindTopDocuments` forms and `MatchDocument`. Loops over local maps and sets are methods proved against ghost specification functions: `Postings`, `Tf`, `Hit`, `Relevance`, `Candidates`, `Selected` and `IsTopDocuments`.

The C++ `log` is a parameter `ln: real -> real` of every relevance-computing operation. Term frequencies and relevances are exact reals. Relevance is specified as the sum, over the plus words, of term frequency times `ln(document count / document frequency)`. The selection and membership properties do not depend on `ln`.

## Model

| member | source | states |
|---|---|---|
| Tokenizer.SplitIntoWords | main.cpp:27-45 | the character loop returns exactly `Words(text)`, the maximal non-space runs in order |
| Tokenizer.WordsAreWords | main.cpp:27-45 | every produced word is non-empty and free of spaces |
| Tokenizer.NoWordsIffAllSpaces | main.cpp:27-45 | the split is empty iff the text is empty or all spaces |
| Tokenizer.WordsOfJoin | main.cpp:27-45 | round trip: splitting words joined by single spaces gives the words back |
| Tokenizer.WordOfWord | main.cpp:27-45 | a single word splits into itself |
| Tokenizer.WordsOfSeparated | main.cpp:31-35 | a space separates two texts: the words of `t + " " + u` are those of `t` then those of `u` |
| Tokenizer.WordsOfSnocSpace | main.cpp:31-35 | a trailing space adds no word |
| Tokenizer.WordsOfSnocStart | main.cpp:36-38 | a non-space after a space or at the start begins a new one-character word |
| Tokenizer.WordsOfSnocExtend | main.cpp:36-38 | a non-space after a non-space extends the last word |
| Tokenizer.WordsOfSnocWholeRun | main.cpp:36-42 | a text without spaces is one word, and stays one when a non-space is appended |
| Tokenizer.WordsOfLeadingSpace | main.cpp:31-35 | a leading space adds no word |
| Tokenizer.RunLength | main.cpp:30-38 | the length of the leading non-space run: all its characters are non-spaces and a space or the end follows |
| Tokenizer.RunLengthOfConcat | main.cpp:30-38 | appending text after a space, or text beginning with a space, leaves the leading run unchanged |
| Tokenizer.WordsOfConcatFront | main.cpp:30-38 | a leading run ended by a space is a whole word, also after appending text |
| Tokenizer.WordsFront | main.cpp:30-38 | a text starting with a non-space yields its leading run as the first word |
| Tokenizer.RemoveStopWordsCount | main.cpp:160-168 | a word survives stop-word removal iff it occurs and is not a stop word; its count is unchanged or 0 |
| Tokenizer.RemoveStopWordsCounts | main.cpp:160-168 | the same for all words at once |
| Tokenizer.RemoveStopWordsOfStopsOnly | main.cpp:160-168 | a text made only of stop words leaves no words |
| Tokenizer.RemoveStopWordsAppend | main.cpp:160-168 | removal distributes over concatenation, so relative order is kept |
| Ordering.LessIrreflexive | main.cpp:121 | lexicographic order on strings is irreflexive |
| Ordering.LessTransitive | main.cpp:121 | lexicographic order is transitive |
| Ordering.LessTotal | main.cpp:121 | any two distinct strings are ordered |
| Ordering.LeastExists | main.cpp:121 | a non-empty set of strings has a least element |
| Ordering.InOrder | main.cpp:121 | lists a string set in strictly ascending order, with exactly its elements |
| Ordering.IntLeastExists | main.cpp:262 | a non-empty set of ids has a least element, the next key of `std::map` iteration |
| Rating.TruncDiv | main.cpp:178 | C++ `/`: the remainder is smaller than the divisor in magnitude and has the dividend's sign |
| Rating.TruncatedRemainder | main.cpp:178 | the magnitude quotient with the operands' sign has those remainder properties |
| Rating.TruncDivUnique | main.cpp:178 | those two remainder properties determine the quotient |
| Rating.TruncDivOfNegative | main.cpp:178 | `-3 / 2` is `-1` in C++ but `-2` in Euclidean division |
| Rating.SumSnoc | main.cpp:174-177 | the rating sum grows by the appended rating |
| Rating.SumBounds | main.cpp:174-177 | a sum of `n` ratings in `[lo, hi]` lies in `[lo*n, hi*n]` |
| Rating.AverageRating | main.cpp:170-179 | 0 for no ratings; otherwise a quotient of the sum by the count whose remainder is smaller in absolute value than the count and has the sign of the sum, which is division truncated toward zero |
| Rating.QuotientWithinRange | main.cpp:178 | a truncated quotient of a value in `[lo*n, hi*n]` lies in `[lo, hi]` |
| Rating.AverageRatingWithinRange | main.cpp:170-179 | the average of ratings in `[lo, hi]` is again in `[lo, hi]` |
| Rating.AverageRatingExamples | main.cpp:491-530 | the averages of the rating tests, among them 1777 and 3397, and rounding toward zero for negatives |
| Ranking.Precedes | main.cpp:98-104 | higher relevance first; at equal relevance the higher rating first; relevances are compared exactly |
| Ranking.PrecedesIsStrictWeakOrder | main.cpp:97-104 | the exact comparator is irreflexive and asymmetric, and "not before" is transitive (negative transitivity) |
| Ranking.SwapDown | main.cpp:97-104 | one exchange of the sort: an element and its left neighbour change places, and the multiset is kept |
| Ranking.InsertIntoPrefix | main.cpp:97-104 | extends the sorted prefix by one element, keeping the multiset |
| Ranking.SortByRank | main.cpp:97-104 | sorts the array in place by the comparator; the result is a permutation |
| Ranking.DocIdsSnoc | main.cpp:262-268 | appending an item adds its id to the id set |
| Ranking.DistinctIdsCount | main.cpp:105-107 | items with distinct ids have as many ids as items |
| Ranking.DistinctIdsOnce | main.cpp:105-107 | an item occurs at most once among items with distinct ids |
| Ranking.PermutationKeepsDistinctIds | main.cpp:97-104 | sorting keeps the ids distinct |
| Ranking.RankedPrefix | main.cpp:97-107 | the first `n` sorted items are distinct, drawn from the input, sorted, and rank no lower than any left-out item |
| Ranking.LeftOutRanksLower | main.cpp:105-107 | no left-out item ranks before a kept one |
| Server.SearchServer.constructor | main.cpp:149-151 | a new server has no stop words, no postings and no documents |
| Server.SearchServer.HitExtend | main.cpp:233-259 | a document is hit by `words + {w}` iff it is hit by `words` or is in the postings of `w` |
| Server.SearchServer.SetStopWords | main.cpp:65-69 | the stop words gain exactly the words of the text; the index stays valid |
| Server.SearchServer.IsStopWord | main.cpp:156-158 | membership in the stop-word set |
| Server.SearchServer.SplitIntoWordsNoStop | main.cpp:160-168 | the words of the text without stop words, in order |
| Server.SearchServer.ComputeAverageRating | main.cpp:170-179 | 0 for no ratings, otherwise the sum truncated-divided by the count |
| Server.SearchServer.IncrementWithin | main.cpp:75 | on the index as a value: `+=` on one posting by a positive amount keeps every posting positive, adds one id, and changes that one frequency only |
| Server.SearchServer.AddTermFrequency | main.cpp:75 | `+=` on a posting: one frequency grows by `inc`, a missing entry counting as 0; nothing else changes |
| Server.SearchServer.IndexWords | main.cpp:73-76 | every word occurrence adds `inc` to its posting for the document; other words and documents are unchanged; no words, no change |
| Server.SearchServer.AccumulatedIsScaledCount | main.cpp:74-75 | adding `inc` once per occurrence gives count times `inc` |
| Server.SearchServer.AccumulatedIsScaledOccurrences | main.cpp:74-75 | repeated addition equals occurrences times `inc` |
| Server.SearchServer.OccurrencesIsCount | main.cpp:74-75 | counting occurrences in a loop equals the multiset count |
| Server.SearchServer.AddDocument | main.cpp:71-82 | each non-stop word's frequency grows by its count over the number of non-stop words; all else unchanged; a stop-word-only text changes no posting; emplace keeps the first entry; the count grows by 1 iff the id was new |
| Server.SearchServer.TermFrequencyOfDocument | main.cpp:72-76 | the frequency added to a word is its count in the text over the number of non-stop words, 0 for other words |
| Server.SearchServer.WordFrequency | main.cpp:73-75 | `m` occurrences of weight `1/n` weigh `m/n`; an absent word weighs 0 |
| Server.SearchServer.DocumentCount | main.cpp:114-116 | the number of stored documents bounds every document frequency |
| Server.SearchServer.DocumentFrequencyBound | main.cpp:114-116 | every word's posting list has at most as many entries as there are documents |
| Server.SearchServer.DocumentFrequencyRatio | main.cpp:222-224 | the argument of `log` in the inverse document frequency is at least 1 |
| Server.SearchServer.RatioInEveryDocument | main.cpp:223 | a word every document contains has document count over document frequency equal to 1 |
| Server.SearchServer.ComputeWordInverseDocumentFreq | main.cpp:222-224 | the IDF is `ln` of `DocumentFrequencyRatio`, the only place `ln` enters; a word in every document gets `ln(1)` |
| Server.SearchServer.RelevanceSplit | main.cpp:233-250 | relevance is a sum independent of the word order: any word can be taken first |
| Server.SearchServer.RelevanceWithoutHit | main.cpp:242-245 | a document no plus word hits has relevance 0 |
| Server.SearchServer.ParseQueryWord | main.cpp:187-199 | minus iff the text starts with `-`; only that character is stripped; stop iff the rest is a stop word |
| Server.SearchServer.QueryWordsSnoc | main.cpp:208-216 | one more query word goes to the plus set or, without its `-`, to the minus set, unless it is a stop word |
| Server.SearchServer.ParseQuery | main.cpp:206-219 | the loop yields exactly the plus and minus sets of the raw query |
| Server.SearchServer.QueryMembership | main.cpp:206-219 | plus words are the query's non-stop words not starting with `-`; minus words are the non-stop `w` with `"-" + w` in the query |
| Server.SearchServer.LoneMinusIsEmptyMinusWord | main.cpp:190-192 | a lone `-` is the empty minus word |
| Server.SearchServer.MinusWordExcludes | main.cpp:252-259 | a document hit by a minus word is never selected, whatever the predicate |
| Server.SearchServer.SelectedByStatus | main.cpp:85-87 | the status predicate selects exactly the documents with that status hit by a plus word and no minus word |
| Server.SearchServer.StopWordQueryFindsNothing | main.cpp:358-363 | a query made only of stop words selects nothing and its top-K answer is empty |
| Server.SearchServer.AddWordRelevance | main.cpp:237-249 | the postings loop of one plus word adds term frequency times IDF to every accepted document containing it |
| Server.SearchServer.RelevanceStep | main.cpp:233-250 | after one more plus word the map holds the candidates and relevances over the larger word set |
| Server.SearchServer.CandidatesStep | main.cpp:233-250 | the candidates for one more word are the old candidates plus the accepted documents in its postings |
| Server.SearchServer.AccumulatePlus | main.cpp:232-250 | the relevance map's keys are the accepted documents some plus word hits, each with its relevance |
| Server.SearchServer.EraseMinus | main.cpp:252-259 | exactly the documents hit by a minus word are erased; the other relevances are kept |
| Server.SearchServer.Materialize | main.cpp:261-269 | the map is listed in ascending id order, with its relevances and the stored ratings |
| Server.SearchServer.FindAllDocuments | main.cpp:231-270 | each selected document appears once, in ascending id order, with its relevance and stored rating, and no other document appears |
| Server.StatusIs | main.cpp:86 | the predicate accepts a document exactly when its status is the given one, whatever its id and rating |
| Server.SearchServer.FindTopDocuments | main.cpp:92-109 | the answer is a top-K answer (`IsTopDocuments`): min(5, \|selected\|) distinct selected items, sorted by rank, none outranked by a left-out document |
| Server.SearchServer.TopOfSorted | main.cpp:97-107 | the truncated sorted permutation of the selection is such a top-K answer |
| Server.SearchServer.FindTopDocumentsByStatus | main.cpp:85-87 | equals the predicate form with `status == givenStatus`, `Actual` by default |
| Server.SearchServer.MatchDocument | main.cpp:118-139 | unknown id: `OutOfRange`; otherwise the stored status and either no words (a minus word hits) or exactly the plus words the document contains, in ascending order |

## Left out

- Console input (`ReadLine`, `ReadLineWithNumber`) and `PrintDocument` are I/O.
- The assertion macros, the `Test*` functions and `main` are not modelled. Their scenarios appear only as the properties above: `StopWordQueryFindsNothing`, `AverageRatingExamples`, `SelectedByStatus` and the `MatchDocument` contract.
- `log` and `double` arithmetic are not modelled. `ln` is a parameter and reals are exact, so no numeric relevance value is proved.
- Ranking.Precedes: compares relevances exactly, while the source treats relevances closer than 1e-6 as equal and then orders by rating; relevances that differ by less than 1e-6 are ordered by relevance in the model.
- Server.SearchServer.FindTopDocuments: the comparator treats relevances closer than 1e-6 as equal, and the model compares them exactly. The order `std::sort` leaves among equally ranked items is not modelled. The model sorts by insertion sort and proves only the sortedness, permutation and truncation facts.
- Server.SearchServer.ComputeAverageRating: the sum is unbounded, so the `int` overflow of `rating_sum` is not modelled.
- Server.SearchServer.AddDocument:
  - For a text with no non-stop words, C++ computes `1.0 / 0` (infinity) and never uses it. The model uses 0.
  - Frequencies are exact reals, not accumulated doubles.
- Server.SearchServer.AddWordRelevance and Server.SearchServer.EraseMinus: the postings of a word are visited in an arbitrary order, not necessarily `std::map`'s ascending order. The result does not depend on that order, because the reals are exact and erasing commutes.
- Strings are sequences of characters, not bytes. `ParseQueryWord` on an empty word, where C++ reads `'\0'` as `text[0]`, is modelled as "not a minus word". The tokenizer never produces an empty word.

## Notes on the code

- Duplicate ids are not rejected. Postings accumulate, but `emplace` keeps the first rating and status, so `GetDocumentCount` does not grow.
- `documents_.at` in `MatchDocument` throws for an unknown id. The model returns `OutOfRange` rather than requiring the id to exist.
- In `FindAllDocuments` every posting refers to a stored document (`Valid`), so none of its `at` calls can fail.
