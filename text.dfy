/**
 * Characters, words and the two string <-> word-list conversions the
 * pipeline in app.py relies on: splitting on whitespace (how tokens are
 * read back out of a cleaned text) and joining with single spaces
 * (Python's `" ".join(words)`).
 */
module Text {

  // Sequence facts proved once, on their own, so that the lemmas below
  // do not have to re-derive them by extensionality in a larger context.

  lemma AppendAssoc<T>(a: seq<T>, b: seq<T>, c: seq<T>)
    ensures (a + b) + c == a + (b + c)
  {
  }

  /** A non-empty prefix of `s` is its head followed by the rest of it. */
  lemma SplitHead<T>(s: seq<T>, n: nat)
    requires 0 < n <= |s|
    ensures s == [s[0]] + s[1..]
    ensures s[1..][..n - 1] == s[1..n] && s[1..][n - 1..] == s[n..]
    ensures s[..n] == [s[0]] + s[1..n]
  {
  }

  /** `s` around its element at `n`. */
  lemma SplitAt<T>(s: seq<T>, n: nat)
    requires n < |s|
    ensures s[n..] == [s[n]] + s[n + 1..]
    ensures s == s[..n] + [s[n]] + s[n + 1..]
  {
  }

  lemma AppendHead<T>(a: seq<T>, b: seq<T>)
    requires a != []
    ensures (a + b)[0] == a[0] && (a + b)[1..] == a[1..] + b
  {
  }

  lemma SliceWhole<T>(s: seq<T>)
    ensures s[..|s|] == s && s[|s|..] == []
  {
  }

  /** Whitespace as Python's `str.isspace()` sees it, which is also the
      class the regular-expression escape `\s` matches on a `str`. */
  predicate IsSpace(c: char) {
    || c == ' '
    || '\t' <= c <= '\r'
    || '\U{1c}' <= c <= '\U{1f}'
    || c == '\U{85}' || c == '\U{a0}' || c == '\U{1680}'
    || '\U{2000}' <= c <= '\U{200a}'
    || c == '\U{2028}' || c == '\U{2029}' || c == '\U{202f}'
    || c == '\U{205f}' || c == '\U{3000}'
  }

  predicate IsLower(c: char) { 'a' <= c <= 'z' }

  predicate IsUpper(c: char) { 'A' <= c <= 'Z' }

  /** The class `a-zA-Z` of the regular expression at app.py:57. */
  predicate IsLetter(c: char) { IsLower(c) || IsUpper(c) }

  /** A token: non-empty and free of whitespace. */
  predicate IsWord(w: string) {
    |w| > 0 && forall i :: 0 <= i < |w| ==> !IsSpace(w[i])
  }

  predicate AllWords(ws: seq<string>) {
    forall k :: 0 <= k < |ws| ==> IsWord(ws[k])
  }

  /** A token made of lowercase ASCII letters only. */
  predicate IsLowerWord(w: string) {
    |w| > 0 && forall i :: 0 <= i < |w| ==> IsLower(w[i])
  }

  /** The only whitespace is ' ' and no two spaces are adjacent. */
  predicate Squeezed(s: string) {
    && (forall i :: 0 <= i < |s| && IsSpace(s[i]) ==> s[i] == ' ')
    && (forall i :: 0 <= i < |s| - 1 && s[i] == ' ' ==> s[i + 1] != ' ')
  }

  /** Words separated by exactly one space, nothing before or after. */
  predicate SingleSpaced(s: string) {
    Squeezed(s) && (|s| > 0 ==> s[0] != ' ' && s[|s| - 1] != ' ')
  }

  /** The shape of `clean_text`'s output: single-spaced lowercase letters. */
  predicate Clean(s: string) {
    SingleSpaced(s) && forall i :: 0 <= i < |s| ==> IsLower(s[i]) || s[i] == ' '
  }

  /** Length of the leading run of non-whitespace characters. */
  function WordLen(s: string): (n: nat)
    ensures n <= |s|
    ensures forall i :: 0 <= i < n ==> !IsSpace(s[i])
    ensures n < |s| ==> IsSpace(s[n])
  {
    if s == [] || IsSpace(s[0]) then 0 else 1 + WordLen(s[1..])
  }

  /** Python's `str.split()`: the maximal runs of non-whitespace, in order. */
  function Tokenize(s: string): (ws: seq<string>)
    ensures AllWords(ws)
    decreases |s|
  {
    if s == [] then []
    else if IsSpace(s[0]) then Tokenize(s[1..])
    else
      var n := WordLen(s);
      [s[..n]] + Tokenize(s[n..])
  }

  /** Python's `" ".join(ws)`. */
  function Join(ws: seq<string>): string {
    if ws == [] then ""
    else if |ws| == 1 then ws[0]
    else ws[0] + " " + Join(ws[1..])
  }

  lemma JoinCons(w: string, ws: seq<string>)
    requires ws != []
    ensures Join([w] + ws) == w + " " + Join(ws)
  {
    assert ([w] + ws)[1..] == ws;
  }

  /** Whitespace-free characters followed by whitespace (or nothing) form one word. */
  lemma {:induction false} WordLenOfWordThen(w: string, rest: string)
    requires forall i :: 0 <= i < |w| ==> !IsSpace(w[i])
    requires rest == [] || IsSpace(rest[0])
    ensures WordLen(w + rest) == |w|
  {
    if w == [] {
      assert w + rest == rest;
    } else {
      assert (w + rest)[0] == w[0];
      assert (w + rest)[1..] == w[1..] + rest;
      WordLenOfWordThen(w[1..], rest);
    }
  }

  lemma {:induction false} TokenizeWordThen(w: string, rest: string)
    requires IsWord(w)
    requires rest == [] || IsSpace(rest[0])
    ensures Tokenize(w + rest) == [w] + Tokenize(rest)
  {
    WordLenOfWordThen(w, rest);
    var s := w + rest;
    assert s[0] == w[0];
    assert s[..|w|] == w;
    assert s[|w|..] == rest;
  }

  lemma {:induction false} TokenizeSpaceThen(c: char, s: string)
    requires IsSpace(c)
    ensures Tokenize([c] + s) == Tokenize(s)
  {
    assert ([c] + s)[1..] == s;
  }

  /** Joining words with single spaces gives a single-spaced, non-empty text. */
  lemma {:induction false} JoinSingleSpaced(ws: seq<string>)
    requires AllWords(ws)
    ensures SingleSpaced(Join(ws))
    ensures ws != [] ==> Join(ws) != []
    ensures (forall k :: 0 <= k < |ws| ==> IsLowerWord(ws[k])) ==> Clean(Join(ws))
  {
    if |ws| >= 2 {
      var w, rest := ws[0], Join(ws[1..]);
      JoinSingleSpaced(ws[1..]);
      var s := w + " " + rest;
      assert IsWord(w);
      forall i | 0 <= i < |s| && IsSpace(s[i])
        ensures s[i] == ' '
      {
        if i > |w| { assert s[i] == rest[i - |w| - 1]; }
      }
      forall i | 0 <= i < |s| - 1 && s[i] == ' '
        ensures s[i + 1] != ' '
      {
        if i > |w| {
          assert s[i] == rest[i - |w| - 1];
          assert s[i + 1] == rest[i - |w|];
        }
      }
      if forall k :: 0 <= k < |ws| ==> IsLowerWord(ws[k]) {
        assert IsLowerWord(ws[0]);
        forall i | 0 <= i < |s|
          ensures IsLower(s[i]) || s[i] == ' '
        {
          if i > |w| { assert s[i] == rest[i - |w| - 1]; }
          else if i < |w| { assert s[i] == w[i]; }
        }
      }
    } else if |ws| == 1 {
      assert IsWord(ws[0]);
      if forall k :: 0 <= k < |ws| ==> IsLowerWord(ws[k]) {
        assert IsLowerWord(ws[0]);
      }
    }
  }

  /** Reading the words back out of their join gives the same words. */
  lemma {:induction false} TokenizeJoin(ws: seq<string>)
    requires AllWords(ws)
    ensures Tokenize(Join(ws)) == ws
  {
    if |ws| == 1 {
      TokenizeWordThen(ws[0], "");
      assert ws[0] + "" == ws[0];
    } else if |ws| >= 2 {
      assert IsWord(ws[0]);
      var rest := Join(ws[1..]);
      assert ws[0] + " " + rest == ws[0] + (" " + rest);
      TokenizeWordThen(ws[0], " " + rest);
      TokenizeSpaceThen(' ', rest);
      TokenizeJoin(ws[1..]);
    }
  }

  /** A suffix of a single-spaced text that starts at a word is single-spaced. */
  lemma SingleSpacedSuffix(s: string, k: nat)
    requires SingleSpaced(s) && k <= |s|
    requires k < |s| ==> s[k] != ' '
    ensures SingleSpaced(s[k..])
  {
    var t := s[k..];
    forall i | 0 <= i < |t| - 1 && t[i] == ' '
      ensures t[i + 1] != ' '
    {
      assert t[i] == s[k + i] && t[i + 1] == s[k + i + 1];
    }
  }

  /** A single-spaced text that goes on past its first word has one space
      and then another word there. */
  lemma SingleSpacedSplit(s: string)
    requires SingleSpaced(s) && s != [] && WordLen(s) < |s|
    ensures WordLen(s) + 1 < |s|
    ensures s[WordLen(s)] == ' ' && s[WordLen(s) + 1] != ' '
  {
    var n := WordLen(s);
    assert IsSpace(s[n]);
    assert s[n] == ' ';
    assert n != |s| - 1;
  }

  /** The first word of a text followed by one space and the rest. */
  lemma {:induction false} TokenizeFirstWord(s: string)
    requires s != [] && !IsSpace(s[0]) && WordLen(s) < |s|
    requires s[WordLen(s)] == ' '
    ensures Tokenize(s) == [s[..WordLen(s)]] + Tokenize(s[WordLen(s) + 1..])
  {
    var n := WordLen(s);
    SplitAt(s, n);
    TokenizeSpaceThen(' ', s[n + 1..]);
  }

  lemma JoinFirstWord(s: string, ws: seq<string>)
    requires s != [] && WordLen(s) + 1 < |s| && s[WordLen(s)] == ' '
    requires Join(ws) == s[WordLen(s) + 1..]
    ensures Join([s[..WordLen(s)]] + ws) == s
  {
    var n := WordLen(s);
    assert ws != [];
    JoinCons(s[..n], ws);
    SplitAt(s, n);
  }

  /** A single-spaced text is the join of its own words. */
  lemma {:induction false} JoinTokenize(s: string)
    requires SingleSpaced(s)
    ensures Join(Tokenize(s)) == s
    decreases |s|
  {
    if s != [] {
      FirstWordOfSingleSpaced(s);
      if WordLen(s) == |s| {
        JoinTokenizeWord(s);
      } else {
        JoinTokenize(s[WordLen(s) + 1..]);
        JoinTokenizeStep(s);
      }
    }
  }

  /** A single-spaced text starts with a word, which is either all of it or
      followed by one space and a single-spaced rest. */
  lemma FirstWordOfSingleSpaced(s: string)
    requires SingleSpaced(s) && s != []
    ensures !IsSpace(s[0])
    ensures WordLen(s) < |s| ==>
      WordLen(s) + 1 < |s| && s[WordLen(s)] == ' ' && SingleSpaced(s[WordLen(s) + 1..])
  {
    if WordLen(s) < |s| {
      SingleSpacedSplit(s);
      SingleSpacedSuffix(s, WordLen(s) + 1);
    }
  }

  /** A text that is one word is the join of its one token. */
  lemma JoinTokenizeWord(s: string)
    requires s != [] && !IsSpace(s[0]) && WordLen(s) == |s|
    ensures Join(Tokenize(s)) == s
  {
    SliceWhole(s);
  }

  /** The inductive step of `JoinTokenize`: the first word, then the rest. */
  lemma JoinTokenizeStep(s: string)
    requires s != [] && !IsSpace(s[0]) && WordLen(s) + 1 < |s| && s[WordLen(s)] == ' '
    requires Join(Tokenize(s[WordLen(s) + 1..])) == s[WordLen(s) + 1..]
    ensures Join(Tokenize(s)) == s
  {
    TokenizeFirstWord(s);
    JoinFirstWord(s, Tokenize(s[WordLen(s) + 1..]));
  }

  /** The words of a clean text are lowercase words. */
  lemma {:induction false} TokenizeLowerWords(s: string)
    requires forall i :: 0 <= i < |s| ==> IsLower(s[i]) || s[i] == ' '
    ensures forall k :: 0 <= k < |Tokenize(s)| ==> IsLowerWord(Tokenize(s)[k])
    decreases |s|
  {
    if s != [] {
      if IsSpace(s[0]) {
        TokenizeLowerWords(s[1..]);
      } else {
        var n := WordLen(s);
        assert IsLowerWord(s[..n]) by {
          forall i | 0 <= i < n ensures IsLower(s[..n][i]) {
            assert s[..n][i] == s[i] && !IsSpace(s[i]);
          }
        }
        TokenizeLowerWords(s[n..]);
      }
    }
  }
}
