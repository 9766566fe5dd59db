/**
 The inverted index of the search server as a value: word -> (document id ->
 term frequency), and the effect of ingesting one document on it.
 */
module InvertedIndex {
  import opened Tokenizer

  type Index = map<string, map<int, real>>

  /** The documents listed under `w`; a word that is not a key lists none. */
  function PostingOf(index: Index, w: string): map<int, real>
  {
    if w in index then index[w] else map[]
  }

  /** Term frequency of `w` in the filtered word list `v` of a document. */
  function Tf(w: string, v: seq<string>): (tf: real)
    requires w in v
    ensures 0.0 < tf <= 1.0
  {
    var c, n := Count(w, v), |v|;
    assert 1 <= c <= n;
    c as real / n as real
  }

  /**
   Inserting the entry (id, tf) under `w`: a word that is not yet a key
   becomes one, and an entry that `id` already has under `w` is kept as it is.
   */
  function InsertEntry(index: Index, w: string, id: int, tf: real): (r: Index)
    ensures r.Keys == index.Keys + {w}
  {
    var p := PostingOf(index, w);
    index[w := if id in p then p else p[id := tf]]
  }

  /**
   The index after the first `k` words of the filtered word list `v` of
   document `id` have been inserted, one after another, each with its
   frequency in `v`.
   */
  function InsertWords(index: Index, id: int, v: seq<string>, k: nat): Index
    requires k <= |v|
  {
    if k == 0 then index
    else InsertEntry(InsertWords(index, id, v, k - 1), v[k - 1], id, Tf(v[k - 1], v))
  }

  /** The index after document `id` with filtered word list `v` is ingested. */
  function AddDocumentIndex(index: Index, id: int, v: seq<string>): (r: Index)
    ensures r.Keys == index.Keys + (set w | w in v)
  {
    InsertWordsKeys(index, id, v, |v|);
    assert v[..|v|] == v;
    InsertWords(index, id, v, |v|)
  }

  /** The words inserted so far become keys; no other key appears or disappears. */
  lemma {:induction false} InsertWordsKeys(index: Index, id: int, v: seq<string>, k: nat)
    requires k <= |v|
    ensures forall w :: w in InsertWords(index, id, v, k) <==> w in index || w in v[..k]
  {
    if k > 0 {
      InsertWordsKeys(index, id, v, k - 1);
      assert v[..k] == v[..k - 1] + [v[k - 1]];
    }
  }

  /** Ingesting a document with no filtered words leaves the index as it was. */
  lemma AddEmptyDocument(index: Index, id: int)
    ensures AddDocumentIndex(index, id, []) == index
  {
  }

  /** Inserting under `u` changes the posting of `w` only in the entry of `id`. */
  lemma InsertEntryPosting(index: Index, u: string, id: int, tf: real, w: string)
    ensures var before, after := PostingOf(index, w), PostingOf(InsertEntry(index, u, id, tf), w);
      && (forall d :: d != id ==> (d in after <==> d in before))
      && (forall d :: d != id && d in before ==> after[d] == before[d])
      && (id in before ==> after == before)
      && (id !in before ==> (id in after <==> w == u))
      && (id !in before && w == u ==> after[id] == tf)
  {
  }

  /** Inserting words leaves the entries of every other document under `w` as they were. */
  lemma {:induction false} InsertWordsOthers(index: Index, id: int, v: seq<string>, k: nat, w: string)
    requires k <= |v|
    ensures var before, after := PostingOf(index, w), PostingOf(InsertWords(index, id, v, k), w);
      && (forall d :: d != id ==> (d in after <==> d in before))
      && (forall d :: d != id && d in before ==> after[d] == before[d])
  {
    if k > 0 {
      InsertWordsOthers(index, id, v, k - 1, w);
      InsertEntryPosting(InsertWords(index, id, v, k - 1), v[k - 1], id, Tf(v[k - 1], v), w);
    }
  }

  /**
   Inserting the first `k` words keeps an existing entry of document `id`
   under `w`; otherwise one appears exactly when `w` is among those words,
   holding its frequency in `v`.
   */
  lemma {:induction false} InsertWordsOwn(index: Index, id: int, v: seq<string>, k: nat, w: string)
    requires k <= |v|
    ensures var before, after := PostingOf(index, w), PostingOf(InsertWords(index, id, v, k), w);
      && (id in before ==> after == before)
      && (id !in before ==> (id in after <==> w in v[..k]))
      && (id !in before && w in v[..k] ==> w in v && after[id] == Tf(w, v))
  {
    if k > 0 {
      var u := v[k - 1];
      assert v[..k] == v[..k - 1] + [u];
      assert w in v[..k] <==> w in v[..k - 1] || w == u;
      InsertWordsOwn(index, id, v, k - 1, w);
      InsertEntryPosting(InsertWords(index, id, v, k - 1), u, id, Tf(u, v), w);
    }
  }

  /**
   What ingestion does to the entries of every word: entries of other
   documents are untouched, an existing entry of this document is kept, and a
   new one holds the word's frequency in `v`.
   */
  lemma AddDocumentEntries(index: Index, id: int, v: seq<string>, w: string)
    ensures var before, after := PostingOf(index, w), PostingOf(AddDocumentIndex(index, id, v), w);
      && (forall d :: d != id ==> (d in after <==> d in before))
      && (forall d :: d != id && d in before ==> after[d] == before[d])
      && (id in before ==> after == before)
      && (id !in before ==> (id in after <==> w in v))
      && (id !in before && w in v ==> after[id] == Count(w, v) as real / |v| as real)
  {
    InsertWordsOthers(index, id, v, |v|, w);
    InsertWordsOwn(index, id, v, |v|, w);
    assert v[..|v|] == v;
  }

  /** If neither the index nor `v` holds a stop word, neither does the result. */
  lemma AddDocumentAvoidsStopWords(index: Index, id: int, v: seq<string>, stopWords: set<string>)
    requires index.Keys !! stopWords
    requires forall w :: w in v ==> w !in stopWords
    ensures AddDocumentIndex(index, id, v).Keys !! stopWords
  {
  }

  /** A posting lists some document, and every frequency in it lies in (0, 1]. */
  ghost predicate ValidPosting(p: map<int, real>)
  {
    p != map[] && forall d :: d in p ==> 0.0 < p[d] <= 1.0
  }

  /** Every word of the index has a valid posting. */
  ghost predicate WellFormed(index: Index)
  {
    forall w :: w in index ==> ValidPosting(index[w])
  }

  /** All document ids that occur in the index. */
  function IndexedIds(index: Index): set<int>
  {
    set w, d | w in index && d in index[w] :: d
  }

  lemma InsertEntryKeepsWellFormed(index: Index, w: string, id: int, tf: real)
    requires WellFormed(index) && 0.0 < tf <= 1.0
    ensures WellFormed(InsertEntry(index, w, id, tf))
  {
    var p := PostingOf(index, w);
    if id !in p {
      assert id in p[id := tf];
    }
  }

  lemma {:induction false} InsertWordsKeepsWellFormed(index: Index, id: int, v: seq<string>, k: nat)
    requires k <= |v| && WellFormed(index)
    ensures WellFormed(InsertWords(index, id, v, k))
  {
    if k > 0 {
      var before := InsertWords(index, id, v, k - 1);
      var tf := Tf(v[k - 1], v);
      assert InsertWords(index, id, v, k) == InsertEntry(before, v[k - 1], id, tf);
      InsertWordsKeepsWellFormed(index, id, v, k - 1);
      InsertEntryKeepsWellFormed(before, v[k - 1], id, tf);
    }
  }

  lemma AddDocumentKeepsWellFormed(index: Index, id: int, v: seq<string>)
    requires WellFormed(index)
    ensures WellFormed(AddDocumentIndex(index, id, v))
  {
    InsertWordsKeepsWellFormed(index, id, v, |v|);
  }

  lemma InsertEntryIds(index: Index, w: string, id: int, tf: real)
    ensures IndexedIds(InsertEntry(index, w, id, tf)) <= IndexedIds(index) + {id}
  {
    var r := InsertEntry(index, w, id, tf);
    forall d | d in IndexedIds(r) ensures d in IndexedIds(index) + {id} {
      var u :| u in r && d in r[u];
      if d != id {
        assert d in PostingOf(index, u);
      }
    }
  }

  lemma {:induction false} InsertWordsIds(index: Index, id: int, v: seq<string>, k: nat)
    requires k <= |v|
    ensures IndexedIds(InsertWords(index, id, v, k)) <= IndexedIds(index) + {id}
  {
    if k > 0 {
      InsertWordsIds(index, id, v, k - 1);
      InsertEntryIds(InsertWords(index, id, v, k - 1), v[k - 1], id, Tf(v[k - 1], v));
    }
  }

  /** Ingestion adds at most the id of the document ingested. */
  lemma AddDocumentIds(index: Index, id: int, v: seq<string>)
    ensures IndexedIds(AddDocumentIndex(index, id, v)) <= IndexedIds(index) + {id}
  {
    InsertWordsIds(index, id, v, |v|);
  }

  lemma {:induction false} SubsetCardinality<T>(a: set<T>, b: set<T>)
    requires a <= b
    ensures |a| <= |b|
  {
    if a != {} {
      var x :| x in a;
      SubsetCardinality(a - {x}, b - {x});
    }
  }

  /**
   Ingesting one more document keeps the index well formed, keeps the number
   of distinct ids at most the number of documents, and adds no stop word as
   a key when the document's words hold none.
   */
  lemma AddDocumentKeepsBound(index: Index, id: int, v: seq<string>, documentCount: nat, stopWords: set<string>)
    requires WellFormed(index) && |IndexedIds(index)| <= documentCount
    requires forall w :: w in v ==> w !in stopWords
    ensures var r := AddDocumentIndex(index, id, v);
      && WellFormed(r) && |IndexedIds(r)| <= documentCount + 1
      && (index.Keys !! stopWords ==> r.Keys !! stopWords)
  {
    var r := AddDocumentIndex(index, id, v);
    AddDocumentKeepsWellFormed(index, id, v);
    AddDocumentIds(index, id, v);
    SubsetCardinality(IndexedIds(r), IndexedIds(index) + {id});
    if index.Keys !! stopWords {
      AddDocumentAvoidsStopWords(index, id, v, stopWords);
    }
  }

  /**
   When the index lists at most `documentCount` distinct ids, the argument
   `documentCount / df(w)` of the logarithm is at least 1 for every key.
   */
  lemma IdfArgumentAtLeastOne(index: Index, documentCount: nat, w: string)
    requires WellFormed(index)
    requires |IndexedIds(index)| <= documentCount
    requires w in index
    ensures documentCount as real / |index[w]| as real >= 1.0
  {
    forall d | d in index[w] ensures d in IndexedIds(index) {
      assert w in index && d in index[w];
    }
    SubsetCardinality(index[w].Keys, IndexedIds(index));
    assert |index[w].Keys| == |index[w]|;
  }

  /** The distinct words of `v`, in order of first occurrence. */
  function Distinct(v: seq<string>): (ws: seq<string>)
    ensures forall w :: w in ws <==> w in v
  {
    if v == [] then []
    else
      var init := v[..|v| - 1];
      Distinct(init) + (if v[|v| - 1] in init then [] else [v[|v| - 1]])
  }

  /** The total of the frequencies in `v` of the words `ws`. */
  function SumTf(ws: seq<string>, v: seq<string>): real
    requires forall w :: w in ws ==> w in v
  {
    if ws == [] then 0.0
    else SumTf(ws[..|ws| - 1], v) + Tf(ws[|ws| - 1], v)
  }

  /** The total of the occurrence counts in `v` of the words `ws`. */
  function SumCount(ws: seq<string>, v: seq<string>): nat
  {
    if ws == [] then 0
    else SumCount(ws[..|ws| - 1], v) + Count(ws[|ws| - 1], v)
  }

  lemma {:induction false} CountDistinct(x: string, v: seq<string>)
    ensures Count(x, Distinct(v)) == if x in v then 1 else 0
  {
    if v != [] {
      var init := v[..|v| - 1];
      var last := v[|v| - 1];
      assert v == init + [last];
      CountDistinct(x, init);
      var d := Distinct(init);
      if last in init {
        assert Distinct(v) == d + [];
        assert d + [] == d;
      } else {
        assert (d + [last])[..|d|] == d;
      }
    }
  }

  lemma {:induction false} SumCountAppend(ws: seq<string>, init: seq<string>, x: string)
    ensures SumCount(ws, init + [x]) == SumCount(ws, init) + Count(x, ws)
  {
    if ws != [] {
      var v := init + [x];
      assert v[..|v| - 1] == init;
      SumCountAppend(ws[..|ws| - 1], init, x);
    }
  }

  lemma {:induction false} SumCountDistinct(v: seq<string>)
    ensures SumCount(Distinct(v), v) == |v|
  {
    if v != [] {
      var init := v[..|v| - 1];
      var last := v[|v| - 1];
      assert v == init + [last];
      var d := Distinct(init);
      SumCountDistinct(init);
      SumCountAppend(d, init, last);
      CountDistinct(last, init);
      if last in init {
        assert Distinct(v) == d + [];
        assert d + [] == d;
      } else {
        assert (d + [last])[..|d|] == d;
        assert Count(last, init) == 0;
      }
    }
  }

  lemma {:induction false} SumTfIsSumCount(ws: seq<string>, v: seq<string>)
    requires forall w :: w in ws ==> w in v
    ensures v != [] ==> SumTf(ws, v) == SumCount(ws, v) as real / |v| as real
  {
    if ws != [] && v != [] {
      var init, last := ws[..|ws| - 1], ws[|ws| - 1];
      SumTfIsSumCount(init, v);
      var a, b, n := SumCount(init, v) as real, Count(last, v) as real, |v| as real;
      assert SumTf(ws, v) == a / n + b / n;
      SumOfQuotients(a, b, n);
      assert SumCount(ws, v) as real == a + b;
    }
  }

  lemma QuotientOfSelf(n: real)
    requires n > 0.0
    ensures n / n == 1.0
  {
  }

  lemma SumOfQuotients(a: real, b: real, n: real)
    requires n > 0.0
    ensures a / n + b / n == (a + b) / n
  {
  }

  /**
   The frequencies of the distinct words of a non-empty document add up to 1:
   each occurrence contributes exactly 1 / |v|.
   */
  lemma {:induction false} TfSumsToOne(v: seq<string>)
    requires v != []
    ensures SumTf(Distinct(v), v) == 1.0
  {
    var ws := Distinct(v);
    SumTfIsSumCount(ws, v);
    SumCountDistinct(v);
    var n := |v| as real;
    var total := SumCount(ws, v) as real;
    assert total == n;
    assert SumTf(ws, v) == total / n;
    QuotientOfSelf(n);
  }
}
