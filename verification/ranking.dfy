/**
 The query side of the search server: parsing a query into plus and minus
 words, the relevance of every matching document, and the ordering and
 capping of the result list.
 */
module Ranking {
  import opened Tokenizer
  import opened InvertedIndex

  /** At most this many documents are returned for one query. */
  const MaxResultDocumentCount: nat := 5

  /** A matched document and its accumulated relevance. */
  datatype Document = Document(id: int, relevance: real)

  /** A parsed query: words that add relevance and words that exclude. */
  datatype Query = Query(plus: seq<string>, minus: seq<string>)

  /**
   A word is a minus word when the character read as `w[0]` is '-'. For the
   empty word that read gives the string's terminating NUL character, so the
   empty word is never a minus word.
   */
  predicate IsMinusWord(w: string): (b: bool)
    ensures b <==> |w| > 0 && w[0] == '-'
  {
    (if |w| > 0 then w[0] else '\0') == '-'
  }

  /**
   The query made of the filtered query words `v`: a word whose first
   character is '-' goes, without that character, to `minus`; every other
   word, the empty one included, goes to `plus`. Both keep the order of `v`.
   */
  function Parse(v: seq<string>): (q: Query)
    ensures |q.plus| + |q.minus| == |v|
  {
    if v == [] then Query([], [])
    else
      var q := Parse(v[..|v| - 1]);
      var w := v[|v| - 1];
      if IsMinusWord(w) then Query(q.plus, q.minus + [w[1..]])
      else Query(q.plus + [w], q.minus)
  }

  /** Every query word ends up in exactly one of the two lists. */
  lemma {:induction false} ParseRoutesEveryWord(v: seq<string>)
    ensures forall w :: w in Parse(v).plus <==> w in v && !IsMinusWord(w)
    ensures forall m :: m in Parse(v).minus <==> "-" + m in v
  {
    if v != [] {
      var init, w := v[..|v| - 1], v[|v| - 1];
      assert v == init + [w];
      ParseRoutesEveryWord(init);
      forall m ensures IsMinusWord(w) && m == w[1..] <==> "-" + m == w {
        if "-" + m == w {
          assert w[1..] == m;
        }
        if IsMinusWord(w) && m == w[1..] {
          assert w == [w[0]] + w[1..];
        }
      }
      forall m ensures IsMinusWord("-" + m) {
      }
    }
  }

  /** `x` is routed to the minus list as `m` exactly when `x` is "-" followed by `m`. */
  lemma MinusWordOf(x: string, m: string)
    ensures IsMinusWord(x) && x[1..] == m <==> x == "-" + m
  {
    if x == "-" + m {
      assert x[1..] == m;
    }
    if IsMinusWord(x) && x[1..] == m {
      assert x == [x[0]] + x[1..];
    }
  }

  /** A plus word lands in the plus list as often as it occurs; a minus word never does. */
  lemma {:induction false} ParsePlusCount(v: seq<string>, w: string)
    ensures Count(w, Parse(v).plus) == if IsMinusWord(w) then 0 else Count(w, v)
  {
    if v != [] {
      var init, x := v[..|v| - 1], v[|v| - 1];
      assert v == init + [x];
      var q := Parse(init);
      ParsePlusCount(init, w);
      CountSnoc(w, init, x);
      if IsMinusWord(x) {
        assert Parse(v).plus == q.plus;
      } else {
        assert Parse(v).plus == q.plus + [x];
        CountSnoc(w, q.plus, x);
      }
    }
  }

  /** The minus word `m` lands in the minus list as often as "-" + `m` occurs. */
  lemma {:induction false} ParseMinusCount(v: seq<string>, m: string)
    ensures Count(m, Parse(v).minus) == Count("-" + m, v)
  {
    if v != [] {
      var init, x, e := v[..|v| - 1], v[|v| - 1], "-" + m;
      assert v == init + [x];
      var q := Parse(init);
      ParseMinusCount(init, m);
      CountSnoc(e, init, x);
      MinusWordOf(x, m);
      if IsMinusWord(x) {
        assert Parse(v).minus == q.minus + [x[1..]];
        CountSnoc(m, q.minus, x[1..]);
      } else {
        assert Parse(v).minus == q.minus;
      }
    }
  }

  /** Parsing a concatenation parses each part; both lists keep the order of the words. */
  lemma {:induction false} ParseAppend(a: seq<string>, b: seq<string>)
    ensures Parse(a + b) == Query(Parse(a).plus + Parse(b).plus, Parse(a).minus + Parse(b).minus)
  {
    if b == [] {
      assert a + b == a;
    } else {
      var init, x := b[..|b| - 1], b[|b| - 1];
      assert (a + b)[..|a + b| - 1] == a + init;
      ParseAppend(a, init);
      var pa, pi := Parse(a), Parse(init);
      if IsMinusWord(x) {
        assert (pa.minus + pi.minus) + [x[1..]] == pa.minus + (pi.minus + [x[1..]]);
      } else {
        assert (pa.plus + pi.plus) + [x] == pa.plus + (pi.plus + [x]);
      }
    }
  }

  /** The empty word is a plus word, and a lone '-' is the minus word "". */
  lemma ParseEdgeCases()
    ensures Parse([""]) == Query([""], [])
    ensures Parse(["-"]) == Query([], [""])
  {
    assert [""][..0] == [];
    assert ["-"][..0] == [];
    assert IsMinusWord("-") && "-"[1..] == "";
  }

  /** The ids listed under any of the words `terms`. */
  function TermIds(index: Index, terms: seq<string>): set<int>
  {
    if terms == [] then {}
    else TermIds(index, terms[..|terms| - 1]) + PostingOf(index, terms[|terms| - 1]).Keys
  }

  /** A document is in TermIds exactly when some word lists it. */
  lemma {:induction false} TermIdsMembership(index: Index, terms: seq<string>, d: int)
    ensures d in TermIds(index, terms) <==>
      exists k :: 0 <= k < |terms| && terms[k] in index && d in index[terms[k]]
  {
    if terms != [] {
      var init, w := terms[..|terms| - 1], terms[|terms| - 1];
      TermIdsMembership(index, init, d);
      if d in TermIds(index, init) {
        var k :| 0 <= k < |init| && init[k] in index && d in index[init[k]];
        assert terms[k] == init[k];
      } else if d in PostingOf(index, w) {
        assert terms[|terms| - 1] == w;
      } else {
        forall k | 0 <= k < |terms| && terms[k] in index
          ensures d !in index[terms[k]]
        {
          if k < |init| {
            assert terms[k] == init[k];
          }
        }
      }
    }
  }

  lemma {:induction false} TermIdsAppend(index: Index, a: seq<string>, b: seq<string>)
    ensures TermIds(index, a + b) == TermIds(index, a) + TermIds(index, b)
  {
    if b == [] {
      assert a + b == a;
    } else {
      var init := b[..|b| - 1];
      TermIdsAppend(index, a, init);
      assert (a + b)[..|a + b| - 1] == a + init;
    }
  }

  /**
   The inverse document frequency of a word listed under `df` of the
   `documentCount` documents: the logarithm of their ratio.
   */
  function Idf(documentCount: nat, ln: real -> real, df: nat): (r: real)
    requires df > 0
    ensures df == documentCount ==> r == ln(1.0)
  {
    assert df == documentCount ==> documentCount as real / df as real == 1.0;
    ln(documentCount as real / df as real)
  }

  /**
   What the word `w` adds to the relevance of document `d`: the stored term
   frequency times the word's idf; nothing when `w` does not list `d`.
   */
  function Contribution(index: Index, documentCount: nat, ln: real -> real, w: string, d: int): (c: real)
    ensures w !in index || d !in index[w] ==> c == 0.0
  {
    var p := PostingOf(index, w);
    if d in p then
      assert |p.Keys| > 0 by { assert d in p.Keys; }
      p[d] * Idf(documentCount, ln, |p|)
    else 0.0
  }

  /**
   The relevance of `d` accumulated over the words `terms`, each occurrence
   counted; a document that none of the words lists scores 0.
   */
  function ScoreOf(index: Index, documentCount: nat, ln: real -> real, terms: seq<string>, d: int): (s: real)
    ensures d !in TermIds(index, terms) ==> s == 0.0
  {
    if terms == [] then 0.0
    else
      var init, w := terms[..|terms| - 1], terms[|terms| - 1];
      ScoreOf(index, documentCount, ln, init, d) + Contribution(index, documentCount, ln, w, d)
  }

  /** Scores add up over concatenated word lists. */
  lemma {:induction false} ScoreOfAppend(index: Index, documentCount: nat, ln: real -> real,
                                          a: seq<string>, b: seq<string>, d: int)
    ensures ScoreOf(index, documentCount, ln, a + b, d)
      == ScoreOf(index, documentCount, ln, a, d) + ScoreOf(index, documentCount, ln, b, d)
  {
    if b == [] {
      assert a + b == a;
    } else {
      var init, w := b[..|b| - 1], b[|b| - 1];
      assert (a + b)[..|a + b| - 1] == a + init && (a + b)[|a + b| - 1] == w;
      var c := Contribution(index, documentCount, ln, w, d);
      assert ScoreOf(index, documentCount, ln, a + b, d) == ScoreOf(index, documentCount, ln, a + init, d) + c;
      assert ScoreOf(index, documentCount, ln, b, d) == ScoreOf(index, documentCount, ln, init, d) + c;
      ScoreOfAppend(index, documentCount, ln, a, init, d);
    }
  }

  /** A word that occurs twice among the plus words contributes twice. */
  lemma RepeatedTermCountsTwice(index: Index, documentCount: nat, ln: real -> real,
                                terms: seq<string>, w: string, d: int)
    ensures ScoreOf(index, documentCount, ln, terms + [w, w], d)
      == ScoreOf(index, documentCount, ln, terms, d) + 2.0 * Contribution(index, documentCount, ln, w, d)
  {
    ScoreOfAppend(index, documentCount, ln, terms, [w, w], d);
    var c := Contribution(index, documentCount, ln, w, d);
    assert [w][..0] == [];
    assert ScoreOf(index, documentCount, ln, [w], d) == c;
    assert [w, w][..1] == [w];
    assert ScoreOf(index, documentCount, ln, [w, w], d) == c + c;
  }

  /**
   The relevance map of a query: every document listed under some plus word
   and under no minus word, with its score over the plus words.
   */
  function Relevances(index: Index, documentCount: nat, ln: real -> real, q: Query): (r: map<int, real>)
    ensures q.plus == [] ==> r == map[]
    ensures forall d :: d in TermIds(index, q.minus) ==> d !in r
  {
    map d | d in TermIds(index, q.plus) - TermIds(index, q.minus) :: ScoreOf(index, documentCount, ln, q.plus, d)
  }

  /**
   A document matches exactly when a plus word present in the index lists it
   and no minus word present in the index does; minus words dominate.
   */
  lemma MatchCondition(index: Index, documentCount: nat, ln: real -> real, q: Query, d: int)
    ensures d in Relevances(index, documentCount, ln, q) <==>
      && (exists k :: 0 <= k < |q.plus| && q.plus[k] in index && d in index[q.plus[k]])
      && !(exists k :: 0 <= k < |q.minus| && q.minus[k] in index && d in index[q.minus[k]])
  {
    TermIdsMembership(index, q.plus, d);
    TermIdsMembership(index, q.minus, d);
  }

  /** Queries with the same matching ids and the same scores have the same relevance map. */
  lemma SameRelevances(index: Index, documentCount: nat, ln: real -> real, q1: Query, q2: Query)
    requires TermIds(index, q1.plus) - TermIds(index, q1.minus) == TermIds(index, q2.plus) - TermIds(index, q2.minus)
    requires forall d :: ScoreOf(index, documentCount, ln, q1.plus, d) == ScoreOf(index, documentCount, ln, q2.plus, d)
    ensures Relevances(index, documentCount, ln, q1) == Relevances(index, documentCount, ln, q2)
  {
  }

  /** Taking out the word at position `j` of a permutation of `init + [x]`. */
  lemma RemoveAt(init: seq<string>, x: string, b: seq<string>) returns (j: nat)
    requires multiset(init + [x]) == multiset(b)
    ensures j < |b| && b[j] == x
    ensures multiset(init) == multiset(b[..j] + b[j + 1..])
  {
    assert x in multiset(b);
    j :| 0 <= j < |b| && b[j] == x;
    MultisetAt(b, j);
    assert multiset(init + [x]) == multiset(init) + multiset{x};
    CancelOne(multiset(init), multiset(b[..j] + b[j + 1..]), x);
  }

  /** The multiset of `b` is that of `b` without position `j`, plus `b[j]`. */
  lemma MultisetAt(b: seq<string>, j: nat)
    requires j < |b|
    ensures multiset(b) == multiset(b[..j] + b[j + 1..]) + multiset{b[j]}
  {
    var p, q := b[..j], b[j + 1..];
    assert b == p + [b[j]] + q;
    assert multiset(p + q) == multiset(p) + multiset(q);
  }

  /** Adding the same element to two multisets keeps them apart. */
  lemma CancelOne(a: multiset<string>, c: multiset<string>, x: string)
    requires a + multiset{x} == c + multiset{x}
    ensures a == c
  {
    assert a == (a + multiset{x}) - multiset{x};
    assert c == (c + multiset{x}) - multiset{x};
  }

  /** The documents a word list lists, with the word at position `j` accounted for last. */
  lemma TermIdsRemoveAt(index: Index, b: seq<string>, j: nat)
    requires j < |b|
    ensures TermIds(index, b) == TermIds(index, b[..j] + b[j + 1..]) + PostingOf(index, b[j]).Keys
  {
    var p, x, q := b[..j], b[j], b[j + 1..];
    assert b == (p + [x]) + q;
    assert [x][..0] == [];
    TermIdsAppend(index, p + [x], q);
    TermIdsAppend(index, p, [x]);
    TermIdsAppend(index, p, q);
  }

  /** A score, with the word at position `j` accounted for last. */
  lemma ScoreRemoveAt(index: Index, documentCount: nat, ln: real -> real, b: seq<string>, j: nat, d: int)
    requires j < |b|
    ensures ScoreOf(index, documentCount, ln, b, d)
      == ScoreOf(index, documentCount, ln, b[..j] + b[j + 1..], d) + Contribution(index, documentCount, ln, b[j], d)
  {
    var p, x, q := b[..j], b[j], b[j + 1..];
    assert b == (p + [x]) + q;
    assert [x][..0] == [];
    ScoreOfAppend(index, documentCount, ln, p + [x], q, d);
    ScoreOfAppend(index, documentCount, ln, p, [x], d);
    ScoreOfAppend(index, documentCount, ln, p, q, d);
  }

  /** Word lists that are permutations of each other list the same documents. */
  lemma {:induction false} TermIdsPerm(index: Index, a: seq<string>, b: seq<string>)
    requires multiset(a) == multiset(b)
    ensures TermIds(index, a) == TermIds(index, b)
    decreases |a|
  {
    if a == [] {
      assert |b| == |multiset(b)| == 0;
    } else {
      var init, x := a[..|a| - 1], a[|a| - 1];
      assert a == init + [x];
      var j := RemoveAt(init, x, b);
      TermIdsPerm(index, init, b[..j] + b[j + 1..]);
      TermIdsRemoveAt(index, b, j);
    }
  }

  /** Word lists that are permutations of each other give every document the same score. */
  lemma {:induction false} ScorePerm(index: Index, documentCount: nat, ln: real -> real,
                                     a: seq<string>, b: seq<string>, d: int)
    requires multiset(a) == multiset(b)
    ensures ScoreOf(index, documentCount, ln, a, d) == ScoreOf(index, documentCount, ln, b, d)
    decreases |a|
  {
    if a == [] {
      assert |b| == |multiset(b)| == 0;
    } else {
      var init, x := a[..|a| - 1], a[|a| - 1];
      assert a == init + [x];
      var j := RemoveAt(init, x, b);
      ScorePerm(index, documentCount, ln, init, b[..j] + b[j + 1..], d);
      ScoreRemoveAt(index, documentCount, ln, b, j, d);
    }
  }

  /** Any reordering of the plus words leaves the relevance map unchanged. */
  lemma PlusOrderIrrelevant(index: Index, documentCount: nat, ln: real -> real,
                            a: seq<string>, b: seq<string>, minus: seq<string>)
    requires multiset(a) == multiset(b)
    ensures Relevances(index, documentCount, ln, Query(a, minus))
      == Relevances(index, documentCount, ln, Query(b, minus))
  {
    TermIdsPerm(index, a, b);
    forall d ensures ScoreOf(index, documentCount, ln, a, d) == ScoreOf(index, documentCount, ln, b, d) {
      ScorePerm(index, documentCount, ln, a, b, d);
    }
    SameRelevances(index, documentCount, ln, Query(a, minus), Query(b, minus));
  }

  /** Any reordering of the minus words leaves the relevance map unchanged. */
  lemma MinusOrderIrrelevant(index: Index, documentCount: nat, ln: real -> real,
                             plus: seq<string>, a: seq<string>, b: seq<string>)
    requires multiset(a) == multiset(b)
    ensures Relevances(index, documentCount, ln, Query(plus, a))
      == Relevances(index, documentCount, ln, Query(plus, b))
  {
    TermIdsPerm(index, a, b);
    SameRelevances(index, documentCount, ln, Query(plus, a), Query(plus, b));
  }

  /** A word that is not in the index lists no document. */
  lemma UnknownWordTermIds(index: Index, a: seq<string>, w: string, b: seq<string>)
    requires w !in index
    ensures TermIds(index, a + b) == TermIds(index, (a + [w]) + b)
  {
    assert [w][..0] == [];
    assert TermIds(index, [w]) == {};
    TermIdsAppend(index, a + [w], b);
    TermIdsAppend(index, a, [w]);
    TermIdsAppend(index, a, b);
  }

  /** A word that is not in the index adds nothing to any score. */
  lemma UnknownWordScore(index: Index, documentCount: nat, ln: real -> real,
                         a: seq<string>, w: string, b: seq<string>, d: int)
    requires w !in index
    ensures ScoreOf(index, documentCount, ln, a + b, d) == ScoreOf(index, documentCount, ln, (a + [w]) + b, d)
  {
    assert [w][..0] == [];
    assert ScoreOf(index, documentCount, ln, [w], d) == 0.0;
    ScoreOfAppend(index, documentCount, ln, a + [w], b, d);
    ScoreOfAppend(index, documentCount, ln, a, [w], d);
    ScoreOfAppend(index, documentCount, ln, a, b, d);
  }

  /** A plus word that is not in the index can be dropped from the query. */
  lemma UnknownPlusWordIgnored(index: Index, documentCount: nat, ln: real -> real, q: Query, k: nat)
    requires k < |q.plus| && q.plus[k] !in index
    ensures var dropped := Query(q.plus[..k] + q.plus[k + 1..], q.minus);
      Relevances(index, documentCount, ln, dropped) == Relevances(index, documentCount, ln, q)
  {
    var a, w, b := q.plus[..k], q.plus[k], q.plus[k + 1..];
    assert q.plus == (a + [w]) + b;
    UnknownWordTermIds(index, a, w, b);
    forall d ensures ScoreOf(index, documentCount, ln, a + b, d) == ScoreOf(index, documentCount, ln, q.plus, d) {
      UnknownWordScore(index, documentCount, ln, a, w, b, d);
    }
    SameRelevances(index, documentCount, ln, Query(a + b, q.minus), q);
  }

  /** A minus word that is not in the index can be dropped from the query. */
  lemma UnknownMinusWordIgnored(index: Index, documentCount: nat, ln: real -> real, q: Query, k: nat)
    requires k < |q.minus| && q.minus[k] !in index
    ensures var dropped := Query(q.plus, q.minus[..k] + q.minus[k + 1..]);
      Relevances(index, documentCount, ln, dropped) == Relevances(index, documentCount, ln, q)
  {
    var a, w, b := q.minus[..k], q.minus[k], q.minus[k + 1..];
    assert q.minus == (a + [w]) + b;
    UnknownWordTermIds(index, a, w, b);
    SameRelevances(index, documentCount, ln, Query(q.plus, a + b), q);
  }

  /** One more word at the end of the word list. */
  lemma TermStep(index: Index, documentCount: nat, ln: real -> real, terms: seq<string>, k: nat)
    requires k < |terms|
    ensures TermIds(index, terms[..k + 1]) == TermIds(index, terms[..k]) + PostingOf(index, terms[k]).Keys
    ensures forall d :: (ScoreOf(index, documentCount, ln, terms[..k + 1], d)
      == ScoreOf(index, documentCount, ln, terms[..k], d) + Contribution(index, documentCount, ln, terms[k], d))
  {
    assert terms[..k + 1][..k] == terms[..k];
  }

  /**
   The relevance map after the words `plus` have been accumulated and the
   documents listed under `minus` erased.
   */
  ghost predicate Accumulated(index: Index, documentCount: nat, ln: real -> real,
                              relevance: map<int, real>, plus: seq<string>, minus: seq<string>)
  {
    && relevance.Keys == TermIds(index, plus) - TermIds(index, minus)
    && forall d :: d in relevance ==> relevance[d] == ScoreOf(index, documentCount, ln, plus, d)
  }

  /** Once every plus and minus word is processed, the map is the relevance map. */
  lemma AccumulatedRelevances(index: Index, documentCount: nat, ln: real -> real,
                              relevance: map<int, real>, q: Query)
    requires Accumulated(index, documentCount, ln, relevance, q.plus, q.minus)
    ensures relevance == Relevances(index, documentCount, ln, q)
  {
  }

  /** A plus word that is not in the index changes nothing. */
  lemma UnknownPlusWordStep(index: Index, documentCount: nat, ln: real -> real, relevance: map<int, real>,
                            plus: seq<string>, k: nat)
    requires k < |plus| && plus[k] !in index
    requires Accumulated(index, documentCount, ln, relevance, plus[..k], [])
    ensures Accumulated(index, documentCount, ln, relevance, plus[..k + 1], [])
  {
    TermStep(index, documentCount, ln, plus, k);
    assert TermIds(index, []) == {};
    assert PostingOf(index, plus[k]) == map[];
    forall d | d in relevance
      ensures relevance[d] == ScoreOf(index, documentCount, ln, plus[..k + 1], d)
    {
      assert Contribution(index, documentCount, ln, plus[k], d) == 0.0;
    }
  }

  /** The new relevance of one document after a plus word in the index. */
  lemma PlusWordValue(index: Index, documentCount: nat, ln: real -> real, relevance: map<int, real>,
                      plus: seq<string>, k: nat, posting: map<int, real>, idf: real, d: int)
    requires k < |plus| && plus[k] in index && posting == index[plus[k]]
    requires Accumulated(index, documentCount, ln, relevance, plus[..k], [])
    requires |posting| > 0 && idf == Idf(documentCount, ln, |posting|)
    ensures ValueOrZero(relevance, d) + (if d in posting then posting[d] * idf else 0.0)
      == ScoreOf(index, documentCount, ln, plus[..k + 1], d)
  {
    var before, after := plus[..k], plus[..k + 1];
    assert after[..k] == before && after[k] == plus[k];
    var c := Contribution(index, documentCount, ln, plus[k], d);
    var s0 := ScoreOf(index, documentCount, ln, before, d);
    assert ScoreOf(index, documentCount, ln, after, d) == s0 + c;
    assert ValueOrZero(relevance, d) == s0 by {
      if d !in relevance {
        assert TermIds(index, []) == {};
      }
    }
    if d !in posting {
      assert c == 0.0;
    }
  }

  /** A plus word in the index adds tf * idf for every document it lists. */
  lemma PlusWordStep(index: Index, documentCount: nat, ln: real -> real, relevance: map<int, real>,
                     next: map<int, real>, plus: seq<string>, k: nat, posting: map<int, real>, idf: real)
    requires k < |plus| && plus[k] in index && posting == index[plus[k]]
    requires Accumulated(index, documentCount, ln, relevance, plus[..k], [])
    requires |posting| > 0 && idf == Idf(documentCount, ln, |posting|)
    requires next.Keys == relevance.Keys + posting.Keys
    requires forall d :: d in next ==>
      next[d] == ValueOrZero(relevance, d) + (if d in posting then posting[d] * idf else 0.0)
    ensures Accumulated(index, documentCount, ln, next, plus[..k + 1], [])
  {
    PlusWordKeys(index, relevance.Keys, plus, k);
    forall d | d in next
      ensures next[d] == ScoreOf(index, documentCount, ln, plus[..k + 1], d)
    {
      PlusWordValue(index, documentCount, ln, relevance, plus, k, posting, idf, d);
    }
  }

  lemma PlusWordKeys(index: Index, keys: set<int>, plus: seq<string>, k: nat)
    requires k < |plus| && plus[k] in index
    requires keys == TermIds(index, plus[..k]) - TermIds(index, [])
    ensures keys + index[plus[k]].Keys == TermIds(index, plus[..k + 1]) - TermIds(index, [])
  {
    var after := plus[..k + 1];
    assert after[..k] == plus[..k] && after[k] == plus[k];
  }

  /** One minus word processed: skipped when unknown, otherwise its postings erased. */
  lemma MinusWordStep(index: Index, documentCount: nat, ln: real -> real, relevance: map<int, real>,
                      next: map<int, real>, plus: seq<string>, minus: seq<string>, k: nat)
    requires k < |minus| && Accumulated(index, documentCount, ln, relevance, plus, minus[..k])
    requires minus[k] !in index ==> next == relevance
    requires minus[k] in index ==>
      && next.Keys == relevance.Keys - index[minus[k]].Keys
      && forall d :: d in next ==> next[d] == relevance[d]
    ensures Accumulated(index, documentCount, ln, next, plus, minus[..k + 1])
  {
    TermStep(index, documentCount, ln, minus, k);
  }

  /** The value `m[d]` as `operator[]` reads it: 0 when `d` is not a key. */
  function ValueOrZero(m: map<int, real>, d: int): real
  {
    if d in m then m[d] else 0.0
  }

  /**
   Adds `posting[d] * idf` to the relevance of every document `d` listed in
   `posting`, a document not yet scored starting from 0.
   */
  method AccumulateTerm(relevance: map<int, real>, posting: map<int, real>, idf: real)
    returns (r: map<int, real>)
    ensures r.Keys == relevance.Keys + posting.Keys
    ensures forall d :: d in r ==>
      r[d] == ValueOrZero(relevance, d) + (if d in posting then posting[d] * idf else 0.0)
  {
    r := relevance;
    var rest := posting.Keys;
    while rest != {}
      invariant rest <= posting.Keys
      invariant r.Keys == relevance.Keys + (posting.Keys - rest)
      invariant forall d :: d in r ==>
        r[d] == ValueOrZero(relevance, d) + (if d in posting && d !in rest then posting[d] * idf else 0.0)
      decreases rest
    {
      MinExists(rest);
      var d :| d in rest && forall e :: e in rest ==> d <= e;
      r := r[d := ValueOrZero(r, d) + posting[d] * idf];
      rest := rest - {d};
    }
  }

  /** Erases from `relevance` every document listed in `posting`. */
  method ErasePostings(relevance: map<int, real>, posting: map<int, real>) returns (r: map<int, real>)
    ensures r.Keys == relevance.Keys - posting.Keys
    ensures forall d :: d in r ==> r[d] == relevance[d]
  {
    r := relevance;
    var rest := posting.Keys;
    while rest != {}
      invariant rest <= posting.Keys
      invariant r.Keys == relevance.Keys - (posting.Keys - rest)
      invariant forall d :: d in r ==> r[d] == relevance[d]
      decreases rest
    {
      MinExists(rest);
      var d :| d in rest && forall e :: e in rest ==> d <= e;
      r := r - {d};
      rest := rest - {d};
    }
  }

  /**
   One pass of the first loop of FindAllDocuments: a plus word that is not in
   the index is skipped, otherwise every document it lists gains tf * idf.
   */
  method AddPlusWord(index: Index, documentCount: nat, ln: real -> real,
                     relevance: map<int, real>, plus: seq<string>, k: nat) returns (next: map<int, real>)
    requires k < |plus| && WellFormed(index)
    requires Accumulated(index, documentCount, ln, relevance, plus[..k], [])
    ensures Accumulated(index, documentCount, ln, next, plus[..k + 1], [])
  {
    var word := plus[k];
    if word !in index {
      UnknownPlusWordStep(index, documentCount, ln, relevance, plus, k);
      return relevance;
    }
    var posting := index[word];
    var idf := Idf(documentCount, ln, |posting|);
    next := AccumulateTerm(relevance, posting, idf);
    PlusWordStep(index, documentCount, ln, relevance, next, plus, k, posting, idf);
  }

  /**
   One pass of the second loop of FindAllDocuments: a minus word that is not
   in the index is skipped, otherwise every document it lists is dropped.
   */
  method DropMinusWord(index: Index, documentCount: nat, ln: real -> real,
                       relevance: map<int, real>, plus: seq<string>, minus: seq<string>, k: nat)
    returns (next: map<int, real>)
    requires k < |minus|
    requires Accumulated(index, documentCount, ln, relevance, plus, minus[..k])
    ensures Accumulated(index, documentCount, ln, next, plus, minus[..k + 1])
  {
    var word := minus[k];
    if word !in index {
      MinusWordStep(index, documentCount, ln, relevance, relevance, plus, minus, k);
      return relevance;
    }
    next := ErasePostings(relevance, index[word]);
    MinusWordStep(index, documentCount, ln, relevance, next, plus, minus, k);
  }

  /**
   The two loops of FindAllDocuments: every plus word adds its tf * idf to the
   documents it lists, then every minus word drops the documents it lists.
   */
  method ComputeRelevances(index: Index, documentCount: nat, ln: real -> real, q: Query)
    returns (relevance: map<int, real>)
    requires WellFormed(index)
    ensures relevance == Relevances(index, documentCount, ln, q)
  {
    relevance := map[];
    for k := 0 to |q.plus|
      invariant Accumulated(index, documentCount, ln, relevance, q.plus[..k], [])
    {
      relevance := AddPlusWord(index, documentCount, ln, relevance, q.plus, k);
    }
    assert q.plus[..|q.plus|] == q.plus;
    for k := 0 to |q.minus|
      invariant Accumulated(index, documentCount, ln, relevance, q.plus, q.minus[..k])
    {
      relevance := DropMinusWord(index, documentCount, ln, relevance, q.plus, q.minus, k);
    }
    assert q.minus[..|q.minus|] == q.minus;
    AccumulatedRelevances(index, documentCount, ln, relevance, q);
  }

  /** Ids strictly increase along the list. */
  ghost predicate AscendingIds(docs: seq<Document>)
  {
    forall i, j :: 0 <= i < j < |docs| ==> docs[i].id < docs[j].id
  }

  ghost predicate DistinctIds(docs: seq<Document>)
  {
    forall i, j :: 0 <= i < j < |docs| ==> docs[i].id != docs[j].id
  }

  /** Relevance never increases along the list. */
  ghost predicate NonIncreasing(docs: seq<Document>)
  {
    forall i, j :: 0 <= i < j < |docs| ==> docs[i].relevance >= docs[j].relevance
  }

  /** `docs` holds every entry of `m`, as (id, relevance), and nothing else. */
  ghost predicate Enumerates(docs: seq<Document>, m: map<int, real>)
  {
    && (forall i :: 0 <= i < |docs| ==> docs[i].id in m && docs[i].relevance == m[docs[i].id])
    && (forall d :: d in m ==> exists i :: 0 <= i < |docs| && docs[i].id == d)
  }

  /** Every non-empty set of ids has a least element. */
  lemma {:induction false} MinExists(s: set<int>)
    requires s != {}
    ensures exists m :: m in s && forall e :: e in s ==> m <= e
    decreases s
  {
    assert exists x :: x in s by {
      if forall x :: x !in s {
        assert false;
      }
    }
    var x :| x in s;
    var rest := s - {x};
    if rest == {} {
      assert s == {x};
      assert forall e :: e in s ==> x <= e;
    } else {
      MinExists(rest);
      var y :| y in rest && forall e :: e in rest ==> y <= e;
      var m := if x < y then x else y;
      assert s == rest + {x};
      assert m in s && forall e :: e in s ==> m <= e;
    }
  }

  /** The elements of `s` in ascending order. */
  ghost function SortedKeys(s: set<int>): (keys: seq<int>)
    ensures forall i :: 0 <= i < |keys| ==> keys[i] in s
    decreases s
  {
    if s == {} then []
    else
      MinExists(s);
      var d :| d in s && forall e :: e in s ==> d <= e;
      [d] + SortedKeys(s - {d})
  }

  /** The least element comes first, then the rest in ascending order. */
  lemma SortedKeysStep(s: set<int>, d: int)
    requires d in s && forall e :: e in s ==> d <= e
    ensures SortedKeys(s) == [d] + SortedKeys(s - {d})
  {
  }

  /** SortedKeys lists every element of `s`. */
  lemma {:induction false} SortedKeysComplete(s: set<int>)
    ensures forall k :: k in s ==> k in SortedKeys(s)
    decreases s
  {
    if s != {} {
      MinExists(s);
      var least :| least in s && forall e :: e in s ==> least <= e;
      var keys, tail := SortedKeys(s), SortedKeys(s - {least});
      SortedKeysStep(s, least);
      SortedKeysComplete(s - {least});
      forall k | k in s ensures k in keys {
        if k != least {
          assert k in tail;
          var i :| 0 <= i < |tail| && tail[i] == k;
          assert keys[i + 1] == k;
        }
      }
    }
  }

  /** SortedKeys lists the elements of `s` in strictly ascending order. */
  lemma {:induction false} SortedKeysAscending(s: set<int>)
    ensures forall i, j :: 0 <= i < j < |SortedKeys(s)| ==> SortedKeys(s)[i] < SortedKeys(s)[j]
    decreases s
  {
    if s != {} {
      MinExists(s);
      var least :| least in s && forall e :: e in s ==> least <= e;
      var keys, tail := SortedKeys(s), SortedKeys(s - {least});
      SortedKeysStep(s, least);
      SortedKeysAscending(s - {least});
      forall i, j | 0 <= i < j < |keys| ensures keys[i] < keys[j] {
        assert keys[j] == tail[j - 1] && keys[j] in s - {least};
        if i > 0 {
          assert keys[i] == tail[i - 1];
        }
      }
    }
  }

  /** The entries of `m` under `keys`, in the order of `keys`. */
  function Entries(m: map<int, real>, keys: seq<int>): (docs: seq<Document>)
    requires forall i :: 0 <= i < |keys| ==> keys[i] in m
    ensures |docs| == |keys|
  {
    if keys == [] then [] else [Document(keys[0], m[keys[0]])] + Entries(m, keys[1..])
  }

  lemma {:induction false} EntriesAt(m: map<int, real>, keys: seq<int>, i: nat)
    requires forall i :: 0 <= i < |keys| ==> keys[i] in m
    requires i < |keys|
    ensures Entries(m, keys)[i] == Document(keys[i], m[keys[i]])
  {
    if i > 0 {
      EntriesAt(m, keys[1..], i - 1);
    }
  }

  /** The entries of `m` in ascending id order: how a std::map is walked. */
  ghost function AscendingEntries(m: map<int, real>): seq<Document>
  {
    Entries(m, SortedKeys(m.Keys))
  }

  lemma AscendingEntriesEnumerate(m: map<int, real>)
    ensures AscendingIds(AscendingEntries(m))
    ensures Enumerates(AscendingEntries(m), m)
  {
    var keys := SortedKeys(m.Keys);
    var docs := AscendingEntries(m);
    SortedKeysComplete(m.Keys);
    SortedKeysAscending(m.Keys);
    forall i | 0 <= i < |docs| ensures docs[i] == Document(keys[i], m[keys[i]]) {
      EntriesAt(m, keys, i);
    }
    forall d | d in m ensures exists i :: 0 <= i < |docs| && docs[i].id == d {
      var i :| 0 <= i < |keys| && keys[i] == d;
      assert docs[i].id == d;
    }
  }

  lemma EntriesStep(m: map<int, real>, d: int, tail: seq<int>)
    requires d in m && forall i :: 0 <= i < |tail| ==> tail[i] in m
    ensures Entries(m, [d] + tail) == [Document(d, m[d])] + Entries(m, tail)
  {
    assert ([d] + tail)[1..] == tail;
  }

  lemma CollectStep(m: map<int, real>, rest: set<int>, d: int, docs: seq<Document>)
    requires rest <= m.Keys && d in rest && forall e :: e in rest ==> d <= e
    ensures docs + Entries(m, SortedKeys(rest))
      == (docs + [Document(d, m[d])]) + Entries(m, SortedKeys(rest - {d}))
  {
    var tail := SortedKeys(rest - {d});
    var entries := Entries(m, tail);
    SortedKeysStep(rest, d);
    EntriesStep(m, d, tail);
    assert docs + ([Document(d, m[d])] + entries) == (docs + [Document(d, m[d])]) + entries;
  }

  /** The relevance map turned into a list in ascending id order. */
  method CollectMatched(relevance: map<int, real>) returns (docs: seq<Document>)
    ensures docs == AscendingEntries(relevance)
  {
    docs := [];
    var rest := relevance.Keys;
    while rest != {}
      invariant rest <= relevance.Keys
      invariant docs + Entries(relevance, SortedKeys(rest)) == AscendingEntries(relevance)
      decreases rest
    {
      MinExists(rest);
      var d :| d in rest && forall e :: e in rest ==> d <= e;
      var entry := Document(d, relevance[d]);
      CollectStep(relevance, rest, d, docs);
      docs := docs + [entry];
      rest := rest - {d};
    }
    assert SortedKeys(rest) == [];
    assert docs + [] == docs;
  }

  /**
   `x` inserted into `sorted` after the leading entries whose relevance is at
   least that of `x`.
   */
  function Inserted(sorted: seq<Document>, x: Document): seq<Document>
  {
    if sorted == [] || sorted[0].relevance < x.relevance then [x] + sorted
    else [sorted[0]] + Inserted(sorted[1..], x)
  }

  lemma {:induction false} InsertedAddsOne(sorted: seq<Document>, x: Document)
    ensures multiset(Inserted(sorted, x)) == multiset(sorted) + multiset{x}
  {
    if sorted != [] && sorted[0].relevance >= x.relevance {
      assert sorted == [sorted[0]] + sorted[1..];
      InsertedAddsOne(sorted[1..], x);
    }
  }

  /** An entry no less relevant than every entry of a sorted sequence may precede it. */
  lemma ConsKeepsOrder(h: Document, t: seq<Document>)
    requires NonIncreasing(t)
    requires forall k :: 0 <= k < |t| ==> t[k].relevance <= h.relevance
    ensures NonIncreasing([h] + t)
  {
    var r := [h] + t;
    forall i, j | 0 <= i < j < |r| ensures r[i].relevance >= r[j].relevance {
      assert r[j] == t[j - 1];
      if i > 0 {
        assert r[i] == t[i - 1];
      }
    }
  }

  /** Inserting keeps every relevance under a common bound. */
  lemma {:induction false} InsertedBounded(sorted: seq<Document>, x: Document, b: real)
    requires forall k :: 0 <= k < |sorted| ==> sorted[k].relevance <= b
    requires x.relevance <= b
    ensures forall k :: 0 <= k < |Inserted(sorted, x)| ==> Inserted(sorted, x)[k].relevance <= b
  {
    if sorted != [] && sorted[0].relevance >= x.relevance {
      var rest := sorted[1..];
      assert forall k :: 0 <= k < |rest| ==> rest[k] == sorted[k + 1];
      InsertedBounded(rest, x, b);
    }
  }

  lemma {:induction false} InsertedKeepsOrder(sorted: seq<Document>, x: Document)
    requires NonIncreasing(sorted)
    ensures NonIncreasing(Inserted(sorted, x))
  {
    if sorted == [] || sorted[0].relevance < x.relevance {
      forall k | 0 <= k < |sorted| ensures sorted[k].relevance <= x.relevance {
        if k > 0 {
          assert sorted[0].relevance >= sorted[k].relevance;
        }
      }
      ConsKeepsOrder(x, sorted);
    } else {
      var h, rest := sorted[0], sorted[1..];
      assert forall k :: 0 <= k < |rest| ==> rest[k] == sorted[k + 1];
      InsertedKeepsOrder(rest, x);
      InsertedBounded(rest, x, h.relevance);
      ConsKeepsOrder(h, Inserted(rest, x));
    }
  }

  /** `docs` sorted by non-increasing relevance, by insertion. */
  function InsertionSorted(docs: seq<Document>): seq<Document>
  {
    if docs == [] then []
    else Inserted(InsertionSorted(docs[..|docs| - 1]), docs[|docs| - 1])
  }

  /** Insertion sorting yields a permutation in non-increasing relevance. */
  lemma {:induction false} InsertionSortedSpec(docs: seq<Document>)
    ensures multiset(InsertionSorted(docs)) == multiset(docs)
    ensures NonIncreasing(InsertionSorted(docs))
  {
    if docs != [] {
      var init, last := docs[..|docs| - 1], docs[|docs| - 1];
      assert docs == init + [last];
      InsertionSortedSpec(init);
      InsertedAddsOne(InsertionSorted(init), last);
      InsertedKeepsOrder(InsertionSorted(init), last);
    }
  }

  /** Passing over one entry whose relevance is at least that of `x`. */
  lemma InsertedStep(sorted: seq<Document>, x: Document, j: nat)
    requires j < |sorted| && sorted[j].relevance >= x.relevance
    ensures sorted[..j] + Inserted(sorted[j..], x) == sorted[..j + 1] + Inserted(sorted[j + 1..], x)
  {
    var t := sorted[j..];
    assert t[0] == sorted[j] && t[1..] == sorted[j + 1..];
    var rest := Inserted(t[1..], x);
    assert Inserted(t, x) == [t[0]] + rest;
    assert sorted[..j + 1] == sorted[..j] + [sorted[j]];
    assert sorted[..j] + ([sorted[j]] + rest) == (sorted[..j] + [sorted[j]]) + rest;
  }

  /** Inserts `x` into `sorted` at the place Inserted describes. */
  method InsertByRelevance(sorted: seq<Document>, x: Document) returns (r: seq<Document>)
    ensures r == Inserted(sorted, x)
  {
    var j := 0;
    while j < |sorted| && sorted[j].relevance >= x.relevance
      invariant 0 <= j <= |sorted|
      invariant Inserted(sorted, x) == sorted[..j] + Inserted(sorted[j..], x)
    {
      InsertedStep(sorted, x, j);
      j := j + 1;
    }
    r := sorted[..j] + [x] + sorted[j..];
  }

  /** Sorts by non-increasing relevance, one insertion per entry. */
  method SortByRelevance(docs: seq<Document>) returns (sorted: seq<Document>)
    ensures sorted == InsertionSorted(docs)
  {
    sorted := [];
    for i := 0 to |docs|
      invariant sorted == InsertionSorted(docs[..i])
    {
      assert docs[..i + 1][..i] == docs[..i];
      sorted := InsertByRelevance(sorted, docs[i]);
    }
    assert docs[..|docs|] == docs;
  }


  /** The set of ids on a list. */
  function IdSet(docs: seq<Document>): set<int>
  {
    set i | 0 <= i < |docs| :: docs[i].id
  }

  lemma {:induction false} AscendingIdSetSize(docs: seq<Document>)
    requires AscendingIds(docs)
    ensures |IdSet(docs)| == |docs|
  {
    if docs != [] {
      var init := docs[..|docs| - 1];
      AscendingIdSetSize(init);
      assert IdSet(docs) == IdSet(init) + {docs[|docs| - 1].id};
      assert docs[|docs| - 1].id !in IdSet(init);
    }
  }

  /** A list that enumerates `m` in ascending id order has |m| entries. */
  lemma EnumerationSize(docs: seq<Document>, m: map<int, real>)
    requires AscendingIds(docs) && Enumerates(docs, m)
    ensures |docs| == |m|
  {
    AscendingIdSetSize(docs);
    forall d | d in m ensures d in IdSet(docs) {
      var i :| 0 <= i < |docs| && docs[i].id == d;
    }
    assert IdSet(docs) == m.Keys;
    assert |m.Keys| == |m|;
  }

  lemma {:induction false} DistinctIdsOccurOnce(a: seq<Document>, x: Document)
    requires DistinctIds(a)
    ensures multiset(a)[x] <= 1
  {
    if a != [] {
      var init, last := a[..|a| - 1], a[|a| - 1];
      assert a == init + [last];
      DistinctIdsOccurOnce(init, x);
      if last == x {
        assert x !in init;
      }
    }
  }

  lemma RepeatedOccurrence(b: seq<Document>, i: nat, j: nat)
    requires i < j < |b| && b[i] == b[j]
    ensures multiset(b)[b[i]] >= 2
  {
    assert b == b[..j] + b[j..];
    assert b[i] == b[..j][i];
    assert b[j] == b[j..][0];
  }

  /** Reordering a list of entries with distinct ids keeps the ids distinct. */
  lemma PermutationKeepsDistinctIds(a: seq<Document>, b: seq<Document>, m: map<int, real>)
    requires multiset(a) == multiset(b)
    requires DistinctIds(a) && Enumerates(a, m)
    ensures DistinctIds(b)
  {
    forall i, j | 0 <= i < j < |b| ensures b[i].id != b[j].id {
      if b[i].id == b[j].id {
        assert b[i] in multiset(a) && b[j] in multiset(a);
        assert b[i] == b[j];
        RepeatedOccurrence(b, i, j);
        DistinctIdsOccurOnce(a, b[i]);
        assert false;
      }
    }
  }

  /** Every entry of a reordered enumeration of `m` is an entry of `m`. */
  lemma ReorderedEntries(matched: seq<Document>, sorted: seq<Document>, m: map<int, real>)
    requires Enumerates(matched, m) && multiset(sorted) == multiset(matched)
    ensures forall i :: 0 <= i < |sorted| ==> sorted[i].id in m && sorted[i].relevance == m[sorted[i].id]
  {
    forall i | 0 <= i < |sorted| ensures sorted[i].id in m && sorted[i].relevance == m[sorted[i].id] {
      assert sorted[i] in multiset(matched);
    }
  }

  /**
   In a relevance-sorted reordering of an enumeration of `m`, no entry of `m`
   outside the first `n` has higher relevance than one of the first `n`.
   */
  lemma OmittedNotHigher(matched: seq<Document>, sorted: seq<Document>, m: map<int, real>, n: nat)
    requires Enumerates(matched, m) && multiset(sorted) == multiset(matched)
    requires NonIncreasing(sorted) && n <= |sorted|
    ensures forall d :: d in m && d !in IdSet(sorted[..n]) ==>
      forall i :: 0 <= i < n ==> m[d] <= sorted[i].relevance
  {
    forall d | d in m && d !in IdSet(sorted[..n])
      ensures forall i :: 0 <= i < n ==> m[d] <= sorted[i].relevance
    {
      var k :| 0 <= k < |matched| && matched[k].id == d;
      assert matched[k] in multiset(sorted);
      var j :| 0 <= j < |sorted| && sorted[j] == matched[k];
    }
  }

  /**
   The first MaxResultDocumentCount entries of a relevance-sorted reordering
   of an ascending enumeration of `m`: as many as there are (up to the cap),
   non-increasing, each id once, each entry from `m`, and no entry of `m` that
   was left out has higher relevance than one that was kept.
   */
  lemma TopOfSorted(matched: seq<Document>, sorted: seq<Document>, m: map<int, real>, top: seq<Document>)
    requires AscendingIds(matched) && Enumerates(matched, m)
    requires multiset(sorted) == multiset(matched) && NonIncreasing(sorted)
    requires top == if |sorted| > MaxResultDocumentCount then sorted[..MaxResultDocumentCount] else sorted
    ensures IsTopResult(top, m)
  {
    EnumerationSize(matched, m);
    assert |sorted| == |matched| by {
      assert |multiset(sorted)| == |multiset(matched)|;
    }
    var n := |top|;
    assert top == sorted[..n];
    PermutationKeepsDistinctIds(matched, sorted, m);
    ReorderedEntries(matched, sorted, m);
    OmittedNotHigher(matched, sorted, m, n);
  }

  /**
   The result of a search whose matched documents have relevances `m`: the
   entries sorted by relevance, cut to MaxResultDocumentCount.
   */
  ghost function TopDocuments(m: map<int, real>): (r: seq<Document>)
    ensures |r| <= MaxResultDocumentCount
  {
    var sorted := InsertionSorted(AscendingEntries(m));
    if |sorted| > MaxResultDocumentCount then sorted[..MaxResultDocumentCount] else sorted
  }

  /**
   `top` is a valid answer for the relevances `m`: as many entries as matched
   (up to the cap), in non-increasing relevance, each id once, each entry from
   `m`, and no entry of `m` that was left out has higher relevance than one
   that was kept.
   */
  ghost predicate IsTopResult(top: seq<Document>, m: map<int, real>)
  {
    && |top| == (if |m| > MaxResultDocumentCount then MaxResultDocumentCount else |m|)
    && NonIncreasing(top) && DistinctIds(top)
    && (forall i :: 0 <= i < |top| ==> top[i].id in m && top[i].relevance == m[top[i].id])
    && (forall d :: d in m && d !in IdSet(top) ==>
          forall i :: 0 <= i < |top| ==> m[d] <= top[i].relevance)
  }

  /** The capped, relevance-sorted result is a valid answer. */
  lemma TopDocumentsSpec(m: map<int, real>)
    ensures IsTopResult(TopDocuments(m), m)
  {
    var matched := AscendingEntries(m);
    AscendingEntriesEnumerate(m);
    InsertionSortedSpec(matched);
    TopOfSorted(matched, InsertionSorted(matched), m, TopDocuments(m));
  }

  /**
   The last steps of FindTopDocuments: sort the matched documents by
   relevance and keep the first MaxResultDocumentCount of them.
   */
  method SelectTop(ghost m: map<int, real>, matched: seq<Document>) returns (top: seq<Document>)
    requires matched == AscendingEntries(m)
    ensures top == TopDocuments(m)
  {
    var sorted := SortByRelevance(matched);
    top := sorted;
    if |sorted| > MaxResultDocumentCount {
      top := sorted[..MaxResultDocumentCount];
    }
  }
}
