/**
 The tokenizer of the search server: splitting a line of text on the space
 character (keeping empty tokens) and dropping stop words from a token list.
 */
module Tokenizer {

  /** Number of occurrences of `x` in `s`. */
  function Count<T(==)>(x: T, s: seq<T>): (n: nat)
    ensures n <= |s|
    ensures n > 0 <==> x in s
  {
    if s == [] then 0
    else Count(x, s[..|s| - 1]) + (if s[|s| - 1] == x then 1 else 0)
  }

  /** `s` with `w` appended to its last token. */
  function ExtendLast(s: seq<string>, w: string): seq<string>
    requires s != []
  {
    s[..|s| - 1] + [s[|s| - 1] + w]
  }

  /**
   The tokens of `text`: the pieces between single space characters, empty
   pieces included. Defined character by character from the left, as the
   scanning loop builds them: a space closes the current token and opens an
   empty one, any other character extends the current (last) token.
   */
  function Split(text: string): (tokens: seq<string>)
    ensures |tokens| == Count(' ', text) + 1
  {
    if text == [] then [""]
    else
      var init := Split(text[..|text| - 1]);
      var c := text[|text| - 1];
      if c == ' ' then init + [""] else ExtendLast(init, [c])
  }

  /** The tokens joined back with one space between neighbours. */
  function Join(tokens: seq<string>): string
    requires tokens != []
  {
    if |tokens| == 1 then tokens[0]
    else Join(tokens[..|tokens| - 1]) + " " + tokens[|tokens| - 1]
  }

  /** Splitting scans the text once, closing a token at every space. */
  method SplitIntoWords(text: string) returns (words: seq<string>)
    ensures words == Split(text)
  {
    words := [];
    var word := "";
    for i := 0 to |text|
      invariant words + [word] == Split(text[..i])
    {
      var c := text[i];
      assert text[..i + 1][..i] == text[..i];
      if c == ' ' {
        words := words + [word];
        word := "";
      } else {
        word := word + [c];
      }
    }
    assert text[..|text|] == text;
    words := words + [word];
  }

  lemma {:induction false} SplitNeverEmpty(text: string)
    ensures Split(text) != []
    ensures Split("") == [""]
  {
  }

  /** One unfolding of Split at an appended character. */
  lemma SplitStep(prefix: string, c: char)
    ensures Split(prefix + [c]) == if c == ' ' then Split(prefix) + [""] else ExtendLast(Split(prefix), [c])
  {
    assert (prefix + [c])[..|prefix|] == prefix;
  }

  /** One unfolding of Join at the last token. */
  lemma JoinStep(init: seq<string>, w: string)
    requires init != []
    ensures Join(init + [w]) == Join(init) + " " + w
  {
    assert (init + [w])[..|init|] == init;
  }

  /** No token produced by Split contains a space. */
  lemma {:induction false} SplitTokensHaveNoSpace(text: string)
    ensures forall t :: t in Split(text) ==> ' ' !in t
  {
    if text != [] {
      var prefix, c := text[..|text| - 1], text[|text| - 1];
      var s := Split(prefix);
      SplitTokensHaveNoSpace(prefix);
      if c != ' ' {
        assert ' ' !in s[|s| - 1] + [c];
        assert forall t :: t in s[..|s| - 1] ==> t in s;
      }
    }
  }

  /** Extending the last token extends the joined text. */
  lemma JoinExtendLast(s: seq<string>, w: string)
    requires s != []
    ensures Join(ExtendLast(s, w)) == Join(s) + w
  {
    var n := |s|;
    if n > 1 {
      var init := s[..n - 1];
      assert s == init + [s[n - 1]];
      JoinStep(init, s[n - 1]);
      JoinStep(init, s[n - 1] + w);
    }
  }

  lemma JoinSplitStep(prefix: string, c: char)
    requires Join(Split(prefix)) == prefix
    ensures Join(Split(prefix + [c])) == prefix + [c]
  {
    var s := Split(prefix);
    SplitStep(prefix, c);
    if c == ' ' {
      JoinStep(s, "");
      assert prefix + " " + "" == prefix + [c];
    } else {
      JoinExtendLast(s, [c]);
    }
  }

  /** Joining the tokens with single spaces gives back the text. */
  lemma {:induction false} JoinSplit(text: string)
    ensures Join(Split(text)) == text
  {
    if text != [] {
      var prefix, c := text[..|text| - 1], text[|text| - 1];
      assert prefix + [c] == text;
      JoinSplit(prefix);
      JoinSplitStep(prefix, c);
    }
  }

  lemma ExtendLastTwice(s: seq<string>, a: string, b: string)
    requires s != []
    ensures ExtendLast(ExtendLast(s, a), b) == ExtendLast(s, a + b)
  {
    var t := ExtendLast(s, a);
    assert |t| == |s|;
    assert t[..|t| - 1] == s[..|s| - 1];
    assert t[|t| - 1] + b == s[|s| - 1] + (a + b);
  }

  lemma ExtendLastNothing(s: seq<string>)
    requires s != []
    ensures ExtendLast(s, "") == s
  {
    assert s[|s| - 1] + "" == s[|s| - 1];
  }

  /** Appending a space-free word only extends the last token. */
  lemma {:induction false} SplitAppendWord(text: string, w: string)
    requires ' ' !in w
    ensures Split(text + w) == ExtendLast(Split(text), w)
  {
    if w == [] {
      assert text + w == text;
      ExtendLastNothing(Split(text));
    } else {
      var w', c := w[..|w| - 1], w[|w| - 1];
      assert w' + [c] == w;
      assert ' ' !in w' by {
        assert forall x :: x in w' ==> x in w;
      }
      SplitAppendWord(text, w');
      assert text + w == (text + w') + [c];
      SplitStep(text + w', c);
      ExtendLastTwice(Split(text), w', [c]);
    }
  }

  /** Splitting the join of space-free tokens gives back the tokens. */
  lemma {:induction false} SplitJoin(tokens: seq<string>)
    requires tokens != []
    requires forall t :: t in tokens ==> ' ' !in t
    ensures Split(Join(tokens)) == tokens
  {
    var n := |tokens|;
    if n == 1 {
      SplitAppendWord("", tokens[0]);
      assert "" + tokens[0] == tokens[0];
      assert ExtendLast([""], tokens[0]) == [tokens[0]];
    } else {
      var init, last := tokens[..n - 1], tokens[n - 1];
      assert tokens == init + [last];
      assert forall t :: t in init ==> t in tokens;
      SplitJoin(init);
      JoinStep(init, last);
      var spaced := Join(init) + [' '];
      SplitStep(Join(init), ' ');
      assert Join(tokens) == spaced + last;
      SplitAppendWord(spaced, last);
      assert ExtendLast(init + [""], last) == tokens by {
        assert (init + [""])[..n - 1] == init;
        assert "" + last == last;
      }
    }
  }

  /** The tokens that are not stop words, in their original order. */
  function WithoutStopWords(tokens: seq<string>, stopWords: set<string>): (kept: seq<string>)
    ensures |kept| <= |tokens|
    ensures forall w :: w in kept <==> w in tokens && w !in stopWords
  {
    if tokens == [] then []
    else
      var w := tokens[|tokens| - 1];
      var init := tokens[..|tokens| - 1];
      assert tokens == init + [w];
      WithoutStopWords(init, stopWords) + (if w in stopWords then [] else [w])
  }

  /** Counting over a sequence extended by one element. */
  lemma CountSnoc<T>(x: T, s: seq<T>, y: T)
    ensures Count(x, s + [y]) == Count(x, s) + (if y == x then 1 else 0)
  {
    assert (s + [y])[..|s|] == s;
  }

  /** Filtering a concatenation filters each part, keeping their order. */
  lemma {:induction false} WithoutStopWordsAppend(a: seq<string>, b: seq<string>, stopWords: set<string>)
    ensures WithoutStopWords(a + b, stopWords) == WithoutStopWords(a, stopWords) + WithoutStopWords(b, stopWords)
  {
    if b == [] {
      assert a + b == a;
    } else {
      var init, w := b[..|b| - 1], b[|b| - 1];
      assert (a + b)[..|a + b| - 1] == a + init;
      WithoutStopWordsAppend(a, init, stopWords);
      var ka, ki := WithoutStopWords(a, stopWords), WithoutStopWords(init, stopWords);
      var tail: seq<string> := if w in stopWords then [] else [w];
      assert (ka + ki) + tail == ka + (ki + tail);
    }
  }

  /** Every token that is not a stop word is kept as often as it occurs. */
  lemma {:induction false} CountWithoutStopWords(w: string, tokens: seq<string>, stopWords: set<string>)
    ensures Count(w, WithoutStopWords(tokens, stopWords)) == if w in stopWords then 0 else Count(w, tokens)
  {
    if tokens != [] {
      var last := tokens[|tokens| - 1];
      var init := tokens[..|tokens| - 1];
      var kept := WithoutStopWords(init, stopWords);
      CountWithoutStopWords(w, init, stopWords);
      if last in stopWords {
        assert WithoutStopWords(tokens, stopWords) == kept + [];
        assert kept + [] == kept;
      } else {
        assert (kept + [last])[..|kept|] == kept;
      }
    }
  }

  /** The words of a line of text that take part in indexing and queries. */
  function ContentWords(text: string, stopWords: set<string>): seq<string>
  {
    WithoutStopWords(Split(text), stopWords)
  }
}
