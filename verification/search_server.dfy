/**
 The search server object: its stop words, its inverted index and its
 document count, updated in place by SetStopWords and AddDocument and read by
 the query methods; plus the driver that fills a server with documents whose
 ids are 0, 1, 2, ...
 */
module SearchServerPets {
  import opened Tokenizer
  import opened InvertedIndex
  import opened Ranking

  class SearchServer {
    var wordToDocumentFreqs: Index
    var stopWords: set<string>
    var documentCount: nat

    /**
     Every indexed word lists some document with a frequency in (0, 1], and
     no more distinct ids are indexed than documents were added, so the
     logarithm's argument documentCount / df is defined and at least 1.
     */
    ghost predicate Valid()
      reads this
    {
      WellFormed(wordToDocumentFreqs) && |IndexedIds(wordToDocumentFreqs)| <= documentCount
    }

    constructor ()
      ensures Valid()
      ensures wordToDocumentFreqs == map[] && stopWords == {} && documentCount == 0
    {
      wordToDocumentFreqs := map[];
      stopWords := {};
      documentCount := 0;
    }

    /** Every token of `text`, the empty one included, becomes a stop word. */
    method SetStopWords(text: string)
      requires Valid()
      modifies this
      ensures Valid()
      ensures stopWords == old(stopWords) + (set w | w in Split(text))
      ensures wordToDocumentFreqs == old(wordToDocumentFreqs)
      ensures documentCount == old(documentCount)
    {
      var words := SplitIntoWords(text);
      for i := 0 to |words|
        invariant stopWords == old(stopWords) + (set w | w in words[..i])
        invariant wordToDocumentFreqs == old(wordToDocumentFreqs)
        invariant documentCount == old(documentCount)
      {
        assert words[..i + 1] == words[..i] + [words[i]];
        stopWords := stopWords + {words[i]};
      }
      assert words[..|words|] == words;
    }

    /** The tokens of `text` that are not stop words, in order. */
    method SplitIntoWordsNoStop(text: string) returns (words: seq<string>)
      ensures words == ContentWords(text, stopWords)
    {
      var tokens := SplitIntoWords(text);
      words := [];
      for i := 0 to |tokens|
        invariant words == WithoutStopWords(tokens[..i], stopWords)
      {
        assert tokens[..i + 1][..i] == tokens[..i];
        if tokens[i] !in stopWords {
          words := words + [tokens[i]];
        } else {
          assert words + [] == words;
        }
      }
      assert tokens[..|tokens|] == tokens;
    }

    /**
     Ingests a document: the count grows by one whatever the text, and every
     content word gets an entry for `documentId` holding its frequency among
     the content words, unless it already has one.
     */
    method AddDocument(documentId: int, document: string)
      requires Valid()
      modifies this
      ensures Valid()
      ensures documentCount == old(documentCount) + 1
      ensures stopWords == old(stopWords)
      ensures wordToDocumentFreqs
        == AddDocumentIndex(old(wordToDocumentFreqs), documentId, ContentWords(document, stopWords))
      ensures old(wordToDocumentFreqs).Keys !! stopWords ==> wordToDocumentFreqs.Keys !! stopWords
    {
      ghost var before := wordToDocumentFreqs;
      var v := SplitIntoWordsNoStop(document);
      documentCount := documentCount + 1;
      for i := 0 to |v|
        invariant wordToDocumentFreqs == InsertWords(before, documentId, v, i)
        invariant documentCount == old(documentCount) + 1 && stopWords == old(stopWords)
      {
        var word := v[i];
        var posting := PostingOf(wordToDocumentFreqs, word);
        if documentId !in posting {
          posting := posting[documentId := Tf(word, v)];
        }
        wordToDocumentFreqs := wordToDocumentFreqs[word := posting];
      }
      AddDocumentKeepsBound(before, documentId, v, old(documentCount), stopWords);
    }

    /** The content words of `query` split into plus and minus words. */
    method ParseQuery(query: string) returns (q: Query)
      ensures q == Parse(ContentWords(query, stopWords))
    {
      var v := SplitIntoWordsNoStop(query);
      var plus, minus := [], [];
      for i := 0 to |v|
        invariant Query(plus, minus) == Parse(v[..i])
      {
        assert v[..i + 1][..i] == v[..i];
        if IsMinusWord(v[i]) {
          minus := minus + [v[i][1..]];
        } else {
          plus := plus + [v[i]];
        }
      }
      assert v[..|v|] == v;
      q := Query(plus, minus);
    }

    /** The relevance of every document matching `query`, with logarithm `ln`. */
    ghost function Matches(query: string, ln: real -> real): map<int, real>
      reads this
    {
      Relevances(wordToDocumentFreqs, documentCount, ln, Parse(ContentWords(query, stopWords)))
    }

    /**
     All documents matching `query`, in ascending id order, each with its
     relevance: the sum over the plus words (repeats counted) of tf * idf,
     leaving out every document that a minus word lists.
     */
    method FindAllDocuments(query: string, ln: real -> real) returns (matched: seq<Document>)
      requires Valid()
      ensures matched == AscendingEntries(Matches(query, ln))
    {
      var q := ParseQuery(query);
      var relevance := ComputeRelevances(wordToDocumentFreqs, documentCount, ln, q);
      matched := CollectMatched(relevance);
    }

    /**
     The at most MaxResultDocumentCount most relevant matches of `query`, most
     relevant first. The server is left as it was, so the same query gives the
     same result again.
     */
    method FindTopDocuments(query: string, ln: real -> real) returns (top: seq<Document>)
      requires Valid()
      ensures top == TopDocuments(Matches(query, ln))
      ensures IsTopResult(top, Matches(query, ln))
    {
      ghost var m := Matches(query, ln);
      var matched := FindAllDocuments(query, ln);
      top := SelectTop(m, matched);
      TopDocumentsSpec(m);
    }
  }

  /** Asking the same query twice gives the same answer. */
  method RepeatQuery(server: SearchServer, query: string, ln: real -> real)
    returns (first: seq<Document>, second: seq<Document>)
    requires server.Valid()
    ensures first == second
  {
    first := server.FindTopDocuments(query, ln);
    second := server.FindTopDocuments(query, ln);
  }

  /** Setting the same stop words twice has the effect of setting them once. */
  method RepeatSetStopWords(server: SearchServer, text: string)
    requires server.Valid()
    modifies server
    ensures server.Valid()
    ensures server.stopWords == old(server.stopWords) + (set w | w in Split(text))
    ensures server.wordToDocumentFreqs == old(server.wordToDocumentFreqs)
    ensures server.documentCount == old(server.documentCount)
  {
    server.SetStopWords(text);
    server.SetStopWords(text);
  }

  /** The index after the documents are added with ids 0, 1, 2, ... in order. */
  function IndexOf(documents: seq<string>, stopWords: set<string>): Index
  {
    if documents == [] then map[]
    else
      var n := |documents| - 1;
      AddDocumentIndex(IndexOf(documents[..n], stopWords), n, ContentWords(documents[n], stopWords))
  }

  lemma IndexOfStep(documents: seq<string>, n: nat, stopWords: set<string>)
    requires n < |documents|
    ensures IndexOf(documents[..n + 1], stopWords)
      == AddDocumentIndex(IndexOf(documents[..n], stopWords), n, ContentWords(documents[n], stopWords))
  {
    assert documents[..n + 1][..n] == documents[..n];
  }

  /** With sequential ids, only ids 0 .. |documents| - 1 occur in the index. */
  lemma {:induction false} IndexOfIds(documents: seq<string>, stopWords: set<string>)
    ensures forall d :: d in IndexedIds(IndexOf(documents, stopWords)) ==> 0 <= d < |documents|
  {
    if documents != [] {
      var n := |documents| - 1;
      IndexOfIds(documents[..n], stopWords);
      AddDocumentIds(IndexOf(documents[..n], stopWords), n, ContentWords(documents[n], stopWords));
    }
  }

  /**
   With sequential ids no insertion ever meets an existing entry, so document
   `id` is listed under exactly its content words, each with its exact
   frequency among them.
   */
  lemma {:induction false} IndexOfExact(documents: seq<string>, stopWords: set<string>, id: int, w: string)
    requires 0 <= id < |documents|
    ensures var v := ContentWords(documents[id], stopWords);
      var p := PostingOf(IndexOf(documents, stopWords), w);
      && (id in p <==> w in v)
      && (w in v ==> p[id] == Tf(w, v))
  {
    var n := |documents| - 1;
    var init := documents[..n];
    var before := IndexOf(init, stopWords);
    var v := ContentWords(documents[n], stopWords);
    AddDocumentEntries(before, n, v, w);
    if id == n {
      IndexOfIds(init, stopWords);
      assert id !in IndexedIds(before);
    } else {
      IndexOfExact(init, stopWords, id, w);
      assert init[id] == documents[id];
    }
  }

  /** No stop word is ever a key of an index built after the stop words were set. */
  lemma {:induction false} IndexOfAvoidsStopWords(documents: seq<string>, stopWords: set<string>)
    ensures IndexOf(documents, stopWords).Keys !! stopWords
  {
    if documents != [] {
      var n := |documents| - 1;
      IndexOfAvoidsStopWords(documents[..n], stopWords);
      AddDocumentAvoidsStopWords(IndexOf(documents[..n], stopWords), n, ContentWords(documents[n], stopWords), stopWords);
    }
  }

  /**
   A server built from a stop-word line and documents numbered 0, 1, 2, ...
   in the order given (the lines the program reads, as parameters).
   */
  method CreateSearchServer(stopWordsLine: string, documents: seq<string>) returns (server: SearchServer)
    ensures fresh(server) && server.Valid()
    ensures server.stopWords == set w | w in Split(stopWordsLine)
    ensures server.documentCount == |documents|
    ensures server.wordToDocumentFreqs == IndexOf(documents, server.stopWords)
  {
    server := new SearchServer();
    server.SetStopWords(stopWordsLine);
    for documentId := 0 to |documents|
      invariant fresh(server) && server.Valid()
      invariant server.stopWords == set w | w in Split(stopWordsLine)
      invariant server.documentCount == documentId
      invariant server.wordToDocumentFreqs == IndexOf(documents[..documentId], server.stopWords)
    {
      IndexOfStep(documents, documentId, server.stopWords);
      server.AddDocument(documentId, documents[documentId]);
    }
    assert documents[..|documents|] == documents;
  }
}
