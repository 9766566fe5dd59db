# SearchServerPets in Dafny

A model of the core of `SearchServerPets`, a small in-memory TF-IDF search
engine. It covers:

- Tokenizing a line on the space character. Empty tokens are kept.
- Dropping stop words.
- Ingesting documents into an inverted index: word -> (document id -> term frequency).
- Parsing a query into plus words and minus words.
- Scoring every matching document by the sum of tf * idf over the plus words.
- Dropping every document that a minus word lists.
- Returning the at most five most relevant documents, most relevant first.

The model has four modules, one per file:

- `Tokenizer` (`tokenizer.dfy`):
  - `Split` defines splitting as a function.
  - `Join` is its inverse.
  - `SplitIntoWords` is the scanning loop.
  - `WithoutStopWords` is the stop-word filter.
- `InvertedIndex` (`inverted_index.dfy`): the index as a value.
  - `InsertEntry` is one `map::insert` under a word, which never overwrites.
  - `AddDocumentIndex` is the effect of ingesting one document.
  - Lemmas about keys, entries, term frequencies and well-formedness.
- `Ranking` (`ranking.dfy`):
  - the `Document` and `Query` records and `MaxResultDocumentCount`;
  - `Parse`, and the relevance map `Relevances` of a query;
  - the loops of `FindAllDocuments` over value maps: `AccumulateTerm`, `ErasePostings`, `ComputeRelevances` and `CollectMatched`;
  - the relevance sort (`SortByRelevance`) and the capped result `TopDocuments`;
  - `IsTopResult`, which says what a valid answer is.
- `SearchServerPets` (`search_server.dfy`):
  - the class `SearchServer` with the fields `wordToDocumentFreqs`, `stopWords` and `documentCount`, updated in place by `SetStopWords` and `AddDocument`;
  - the query methods;
  - the driver `CreateSearchServer`, which takes the stop-word line and the document lines as parameters.

The invariant `SearchServer.Valid` has two parts:

- Every indexed word lists at least one document, each with a frequency in (0, 1].
- No more distinct ids are indexed than documents were added.

The constructor establishes it, `SetStopWords` and `AddDocument` keep it, and it is what makes the idf's division well defined.

Two behaviours of the code are modelled as written:

- Ingestion uses `map::insert`, which keeps an entry that already exists for the same (word, id). It does not overwrite it (`AddDocumentEntries`).
- A query word is a minus word when `w[0] == '-'`. For the empty word, `w[0]` is the terminating NUL, so the empty word is a plus word.

Every traversal of a `std::map` posting visits its ids in ascending order. The model's posting loops do the same: each step takes the least id not yet visited.

## Model

| member | source | states |
|---|---|---|
| Tokenizer.Split | SearchServerPets/SearchServerPets.cpp:27-42 | a text with n spaces splits into n + 1 tokens |
| Tokenizer.SplitIntoWords | SearchServerPets/SearchServerPets.cpp:27-42 | the scanning loop returns exactly the tokens `Split` specifies |
| Tokenizer.SplitTokensHaveNoSpace | SearchServerPets/SearchServerPets.cpp:31-37 | no token contains a space |
| Tokenizer.JoinSplit | SearchServerPets/SearchServerPets.cpp:27-42 | joining the tokens with single spaces gives back the text, so nothing is lost, empty tokens included |
| Tokenizer.SplitJoin | SearchServerPets/SearchServerPets.cpp:27-42 | splitting the join of non-empty lists of space-free tokens gives back the tokens, so the split is unique |
| Tokenizer.SplitNeverEmpty | SearchServerPets/SearchServerPets.cpp:39 | there is always at least one token; the empty text gives one empty token |
| Tokenizer.WithoutStopWords | SearchServerPets/SearchServerPets.cpp:90-98 | the kept words are exactly the tokens that are not stop words, and never more than the tokens |
| Tokenizer.CountWithoutStopWords | SearchServerPets/SearchServerPets.cpp:90-98 | the filter keeps every occurrence of a non-stop word and removes every occurrence of a stop word |
| Tokenizer.WithoutStopWordsAppend | SearchServerPets/SearchServerPets.cpp:90-98 | filtering a concatenation is the concatenation of the filtered parts, so the kept words stay in text order |
| InvertedIndex.Tf | SearchServerPets/SearchServerPets.cpp:65 | the term frequency count / size of a word of the document lies in (0, 1] |
| InvertedIndex.InsertEntry | SearchServerPets/SearchServerPets.cpp:65 | one insert adds exactly the word to the keys |
| InvertedIndex.InsertEntryPosting | SearchServerPets/SearchServerPets.cpp:65 | one insert leaves other documents' entries alone and keeps an existing entry of the document; otherwise it adds the entry under that word only |
| InvertedIndex.InsertWordsKeys | SearchServerPets/SearchServerPets.cpp:64-66 | after k inserts the keys are the old keys plus the first k words |
| InvertedIndex.InsertWordsOthers | SearchServerPets/SearchServerPets.cpp:64-66 | inserting words never changes an entry of another document |
| InvertedIndex.InsertWordsOwn | SearchServerPets/SearchServerPets.cpp:64-66 | an existing entry of the document survives; otherwise an entry appears exactly under the inserted words, holding the word's frequency |
| InvertedIndex.AddDocumentIndex | SearchServerPets/SearchServerPets.cpp:61-67 | the keys after ingestion are the old keys plus the document's content words |
| InvertedIndex.AddEmptyDocument | SearchServerPets/SearchServerPets.cpp:62-66 | a document with no content words leaves the index unchanged |
| InvertedIndex.AddDocumentEntries | SearchServerPets/SearchServerPets.cpp:61-67 | other documents' entries are untouched, an existing (word, id) entry is not overwritten, and a new entry exists exactly for the content words, with value count / size |
| InvertedIndex.AddDocumentAvoidsStopWords | SearchServerPets/SearchServerPets.cpp:61-67 | ingestion never makes a stop word a key |
| InvertedIndex.InsertEntryKeepsWellFormed | SearchServerPets/SearchServerPets.cpp:65 | an insert with a frequency in (0, 1] keeps every posting non-empty with frequencies in (0, 1] |
| InvertedIndex.InsertWordsKeepsWellFormed | SearchServerPets/SearchServerPets.cpp:64-66 | the ingestion loop keeps the index well formed |
| InvertedIndex.AddDocumentKeepsWellFormed | SearchServerPets/SearchServerPets.cpp:61-67 | ingestion keeps the index well formed |
| InvertedIndex.InsertEntryIds | SearchServerPets/SearchServerPets.cpp:65 | an insert adds no document id other than its own |
| InvertedIndex.InsertWordsIds | SearchServerPets/SearchServerPets.cpp:64-66 | the ingestion loop adds no id other than the document's |
| InvertedIndex.AddDocumentIds | SearchServerPets/SearchServerPets.cpp:61-67 | ingestion adds no id other than the document's |
| InvertedIndex.AddDocumentKeepsBound | SearchServerPets/SearchServerPets.cpp:61-67 | ingestion keeps the index well formed, keeps the number of distinct ids at most the document count, and adds no stop-word key |
| InvertedIndex.IdfArgumentAtLeastOne | SearchServerPets/SearchServerPets.cpp:109 | in a valid server the logarithm's argument document_count / df is at least 1 |
| InvertedIndex.TfSumsToOne | SearchServerPets/SearchServerPets.cpp:64-66 | the frequencies of a non-empty document's distinct words add up to 1 |
| Ranking.IsMinusWord | SearchServerPets/SearchServerPets.cpp:134 | a word is a minus word exactly when it is non-empty and starts with '-'; for the empty word `v[i][0]` reads the terminating NUL, so the empty word is a plus word |
| Ranking.Parse | SearchServerPets/SearchServerPets.cpp:130-141 | every query word lands in one of the two lists: together they have as many entries as the query has words |
| Ranking.ParseRoutesEveryWord | SearchServerPets/SearchServerPets.cpp:130-141 | the plus words are exactly the words not starting with '-'; the minus words are exactly the words starting with '-', without it |
| Ranking.MinusWordOf | SearchServerPets/SearchServerPets.cpp:134-135 | a word goes to the minus list as `m` exactly when it is '-' followed by `m` |
| Ranking.ParsePlusCount | SearchServerPets/SearchServerPets.cpp:137 | each plus word occurs in the plus list as often as in the query; a word starting with '-' never occurs there |
| Ranking.ParseMinusCount | SearchServerPets/SearchServerPets.cpp:134-135 | `m` occurs in the minus list as often as "-" + `m` occurs in the query |
| Ranking.ParseAppend | SearchServerPets/SearchServerPets.cpp:133-138 | parsing a concatenation appends the parts' plus lists and their minus lists, so both lists keep the query order |
| Ranking.ParseEdgeCases | SearchServerPets/SearchServerPets.cpp:134 | the empty word is a plus word; a lone "-" yields the minus word "" |
| Ranking.TermIdsMembership | SearchServerPets/SearchServerPets.cpp:104-119 | a document is listed by a word list exactly when some word of it is a key whose posting holds the document |
| Ranking.Idf | SearchServerPets/SearchServerPets.cpp:109 | the idf of a word that every document lists is log(1) |
| Ranking.Contribution | SearchServerPets/SearchServerPets.cpp:108-109 | a word absent from the index, or whose posting does not list the document, adds nothing |
| Ranking.ScoreOf | SearchServerPets/SearchServerPets.cpp:104-111 | a document that no plus word lists scores 0 |
| Ranking.Relevances | SearchServerPets/SearchServerPets.cpp:100-119 | a query without plus words matches nothing; a document that a minus word lists never matches |
| Ranking.ScoreOfAppend | SearchServerPets/SearchServerPets.cpp:104-111 | scores over concatenated plus-word lists add up |
| Ranking.RepeatedTermCountsTwice | SearchServerPets/SearchServerPets.cpp:104-111 | a plus word given twice contributes its tf * idf twice |
| Ranking.MatchCondition | SearchServerPets/SearchServerPets.cpp:100-128 | a document matches exactly when some plus word present in the index lists it and no minus word present in the index does (exclusion dominates) |
| Ranking.TermIdsPerm | SearchServerPets/SearchServerPets.cpp:104-119 | any permutation of a word list lists the same documents |
| Ranking.ScorePerm | SearchServerPets/SearchServerPets.cpp:104-111 | any permutation of the plus words gives every document the same score (exact arithmetic) |
| Ranking.PlusOrderIrrelevant | SearchServerPets/SearchServerPets.cpp:104-111 | any permutation of the plus words gives the same relevance map (exact arithmetic) |
| Ranking.MinusOrderIrrelevant | SearchServerPets/SearchServerPets.cpp:112-119 | any permutation of the minus words gives the same relevance map |
| Ranking.UnknownPlusWordIgnored | SearchServerPets/SearchServerPets.cpp:105-107 | a plus word absent from the index can be dropped without changing the result |
| Ranking.UnknownMinusWordIgnored | SearchServerPets/SearchServerPets.cpp:113-115 | a minus word absent from the index can be dropped without changing the result |
| Ranking.AccumulateTerm | SearchServerPets/SearchServerPets.cpp:108-110 | visiting the posting in ascending id order, every document of the posting gains posting[d] * idf, starting from 0 when new; the others keep their value |
| Ranking.ErasePostings | SearchServerPets/SearchServerPets.cpp:116-118 | visiting the posting in ascending id order, every document of the posting is removed and the others keep their relevance |
| Ranking.AddPlusWord | SearchServerPets/SearchServerPets.cpp:104-111 | one pass of the plus loop takes the map for the first k plus words to the map for the first k + 1 |
| Ranking.DropMinusWord | SearchServerPets/SearchServerPets.cpp:112-119 | one pass of the minus loop takes the map for the first k minus words to the map for the first k + 1 |
| Ranking.ComputeRelevances | SearchServerPets/SearchServerPets.cpp:101-119 | the two loops compute exactly the relevance map of the query |
| Ranking.SortedKeysComplete | SearchServerPets/SearchServerPets.cpp:123 | iterating the relevance map visits every matched id |
| Ranking.SortedKeysAscending | SearchServerPets/SearchServerPets.cpp:123 | the ids are visited in strictly ascending order |
| Ranking.AscendingEntriesEnumerate | SearchServerPets/SearchServerPets.cpp:122-125 | the matched vector holds every (id, relevance) of the map and nothing else, in ascending id order |
| Ranking.CollectMatched | SearchServerPets/SearchServerPets.cpp:122-125 | the collecting loop builds exactly that vector |
| Ranking.InsertedAddsOne | SearchServerPets/SearchServerPets.cpp:73-79 | one insertion step adds exactly the inserted document |
| Ranking.InsertedKeepsOrder | SearchServerPets/SearchServerPets.cpp:73-79 | one insertion step keeps the order by non-increasing relevance |
| Ranking.InsertionSortedSpec | SearchServerPets/SearchServerPets.cpp:73-79 | sorting yields a permutation in non-increasing relevance |
| Ranking.InsertByRelevance | SearchServerPets/SearchServerPets.cpp:73-79 | the insertion loop puts the document where the function `Inserted` places it |
| Ranking.SortByRelevance | SearchServerPets/SearchServerPets.cpp:73-79 | the sorting loop returns the insertion-sorted vector |
| Ranking.EnumerationSize | SearchServerPets/SearchServerPets.cpp:122-125 | the matched vector has as many entries as the map |
| Ranking.PermutationKeepsDistinctIds | SearchServerPets/SearchServerPets.cpp:73-79 | after sorting, every id still occurs at most once |
| Ranking.ReorderedEntries | SearchServerPets/SearchServerPets.cpp:73-79 | after sorting, every entry is still an (id, relevance) of the relevance map |
| Ranking.OmittedNotHigher | SearchServerPets/SearchServerPets.cpp:80-82 | a document cut off by the resize is not more relevant than any document kept |
| Ranking.TopOfSorted | SearchServerPets/SearchServerPets.cpp:70-84 | sorting and resizing the matched vector gives a valid answer (IsTopResult) |
| Ranking.TopDocuments | SearchServerPets/SearchServerPets.cpp:80-82 | the result never has more than MaxResultDocumentCount (5, the constant of line 12) entries |
| Ranking.TopDocumentsSpec | SearchServerPets/SearchServerPets.cpp:70-84 | the result has min(5, matched) entries, non-increasing relevance and distinct ids, each entry from the relevance map, and nothing omitted is more relevant than anything kept |
| Ranking.SelectTop | SearchServerPets/SearchServerPets.cpp:73-82 | sort and resize compute the capped result |
| SearchServerPets.SearchServer.constructor | SearchServerPets/SearchServerPets.cpp:86-88 | a new server has an empty index, no stop words, a count of 0 and is valid |
| SearchServerPets.SearchServer.SetStopWords | SearchServerPets/SearchServerPets.cpp:55-59 | the stop words grow by exactly the tokens of the text, the empty one included; the index and the count are unchanged |
| SearchServerPets.SearchServer.SplitIntoWordsNoStop | SearchServerPets/SearchServerPets.cpp:90-98 | returns the tokens of the text that are not stop words, in order |
| SearchServerPets.SearchServer.AddDocument | SearchServerPets/SearchServerPets.cpp:61-67 | the count grows by one; the index becomes the ingestion of the content words; stop words are unchanged; validity and stop-word-free keys are kept |
| SearchServerPets.SearchServer.ParseQuery | SearchServerPets/SearchServerPets.cpp:130-141 | returns the parse of the query's content words |
| SearchServerPets.SearchServer.FindAllDocuments | SearchServerPets/SearchServerPets.cpp:100-128 | returns every matching document with its relevance, in ascending id order |
| SearchServerPets.SearchServer.FindTopDocuments | SearchServerPets/SearchServerPets.cpp:70-84 | returns the capped, relevance-sorted result, which is a valid answer; the server is not modified |
| SearchServerPets.RepeatQuery | SearchServerPets/SearchServerPets.cpp:70-84 | the same query asked twice gives the same answer |
| SearchServerPets.RepeatSetStopWords | SearchServerPets/SearchServerPets.cpp:55-59 | setting the same stop words twice has the effect of setting them once |
| SearchServerPets.IndexOfIds | SearchServerPets/SearchServerPets.cpp:147-149 | with sequential ids only ids 0 .. n - 1 occur in the index |
| SearchServerPets.IndexOfExact | SearchServerPets/SearchServerPets.cpp:147-149 | with sequential ids, document i is listed under exactly its content words, each with its exact frequency |
| SearchServerPets.IndexOfAvoidsStopWords | SearchServerPets/SearchServerPets.cpp:143-152 | no stop word ever becomes a key |
| SearchServerPets.CreateSearchServer | SearchServerPets/SearchServerPets.cpp:143-152 | the server built from a stop-word line and n documents is valid, holds the stop words of the line and a count of n, and its index is the one that ingesting documents 0 .. n - 1 in order produces |

## Left out

- Console input and output are not modelled: `ReadLine`, `ReadLineWithNumber`, `main` and the printing of results. `CreateSearchServer` takes the stop-word line and the document lines as parameters. The document count is the length of that sequence.
- `double` arithmetic is modelled as exact `real` arithmetic. Rounding is not modelled. In particular, the `+=` of line 109 makes a `double` relevance depend on the order of the plus words in its last bits, and so possibly the order of near-ties; the order-independence lemmas hold for the exact sums only.
- The natural logarithm `log` is a parameter `ln: real -> real` of the query methods. No property of `log` is assumed.
- `int` overflow of `document_count` and of document ids is not modelled: both are unbounded integers.
- `std::sort` is not stable and leaves the order of equal relevances unspecified. The model sorts with a stable insertion sort. The properties stated in `IsTopResult` hold for any tie order.
- Strings are modelled as sequences of characters, while `std::string` holds bytes. No behaviour depends on the difference: the only characters the code looks at are ' ' and '-', and in UTF-8 neither byte ever occurs inside a multi-byte character.
- FindAllDocuments computes the idf once per plus word, while the source recomputes it for every document of the posting. The value is the same because the index does not change during a query.
- SearchServerPets.SearchServer.FindAllDocuments: requires `Valid()`. The source needs no such condition because every object it builds satisfies the invariant, which the constructor, `SetStopWords` and `AddDocument` keep.
- SearchServerPets.SearchServer.FindTopDocuments: requires `Valid()`, for the same reason.
- SearchServerPets.SearchServer.AddDocument: requires `Valid()`, for the same reason, so that it can promise to keep it.
- SearchServerPets.RepeatQuery: requires `Valid()`, for the same reason.
- SearchServerPets.SearchServer.SetStopWords: requires `Valid()`, for the same reason, so that it can promise to keep it.
- SearchServerPets.RepeatSetStopWords: requires `Valid()`, for the same reason.
- Concurrency is not modelled: the program is single-threaded.
