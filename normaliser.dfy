/**
 * The normaliser of app.py: `clean_text` (app.py:55-59) and
 * `remove_stopwords` (app.py:61-64), each written as the chain of string
 * rewrites the source performs, with the properties that make the pair a
 * normal form: the output alphabet, single spacing, the letters and words
 * kept in order, and idempotence.
 */
module Normaliser {
  import opened Text

  // ---------------------------------------------------------------------
  // clean_text, stage by stage
  // ---------------------------------------------------------------------

  /** One character under `str.lower()`, as far as `clean_text` can tell:
      ASCII capitals become small letters, KELVIN SIGN lowers to 'k', and
      'İ' lowers to 'i' followed by U+0307, which the next stage deletes.
      Every other character either has no lowercase form or lowers to a
      character outside `a-z` and whitespace, which the next stage deletes
      too, so it is left as it is. */
  function Lower(c: char): char {
    if IsUpper(c) then (c as int + 32) as char
    else if c == '\U{212a}' then 'k'
    else if c == '\U{130}' then 'i'
    else c
  }

  /** `text.lower()` (app.py:56). */
  function LowerAll(s: string): string {
    seq(|s|, i requires 0 <= i < |s| => Lower(s[i]))
  }

  /** The characters the class `[^a-zA-Z\s]` does not match. */
  predicate Kept(c: char) { IsLetter(c) || IsSpace(c) }

  /** `re.sub(r'[^a-zA-Z\s]', '', s)` (app.py:57). */
  function DropOther(s: string): (r: string)
    ensures forall c :: c in r <==> c in s && Kept(c)
  {
    if s == [] then [] else (if Kept(s[0]) then [s[0]] else []) + DropOther(s[1..])
  }

  /** `s.lstrip()`: drops the leading whitespace. */
  function DropSpaces(s: string): (r: string)
    ensures |r| <= |s| && r == s[|s| - |r|..]
    ensures r == [] || !IsSpace(r[0])
    ensures forall i :: 0 <= i < |s| - |r| ==> IsSpace(s[i])
  {
    if s != [] && IsSpace(s[0]) then DropSpaces(s[1..]) else s
  }

  /** `s.rstrip()`: drops the trailing whitespace. */
  function StripEnd(s: string): (r: string)
    ensures |r| <= |s| && r == s[..|r|]
    ensures r == [] || !IsSpace(r[|r| - 1])
    ensures forall i :: |r| <= i < |s| ==> IsSpace(s[i])
  {
    if s != [] && IsSpace(s[|s| - 1]) then StripEnd(s[..|s| - 1]) else s
  }

  /** `s.strip()` (app.py:58). */
  function Strip(s: string): string {
    StripEnd(DropSpaces(s))
  }

  /** `re.sub(r'\s+', ' ', s)` (app.py:58): every maximal run of
      whitespace becomes one space, everything else is copied. */
  function Squeeze(s: string): (r: string)
    ensures s == [] <==> r == []
    ensures s != [] && IsSpace(s[0]) ==> r[0] == ' '
    ensures s != [] && !IsSpace(s[0]) ==> r[0] == s[0]
    ensures s != [] && IsSpace(s[|s| - 1]) ==> r[|r| - 1] == ' '
    ensures s != [] && !IsSpace(s[|s| - 1]) ==> r[|r| - 1] == s[|s| - 1]
    ensures Squeezed(r)
    decreases |s|
  {
    if s == [] then []
    else if IsSpace(s[0]) then
      var t := DropSpaces(s[1..]);
      DropSpacesLast(s[1..]);
      TailLast(s);
      ConsSqueezed(' ', Squeeze(t));
      ConsLast(' ', Squeeze(t));
      " " + Squeeze(t)
    else
      ConsSqueezed(s[0], Squeeze(s[1..]));
      ConsLast(s[0], Squeeze(s[1..]));
      TailLast(s);
      [s[0]] + Squeeze(s[1..])
  }

  /** A squeezed text stays squeezed behind a non-whitespace character, or
      behind a space when it does not start with one. */
  lemma ConsSqueezed(c: char, q: string)
    requires Squeezed(q)
    requires !IsSpace(c) || (c == ' ' && (q == [] || q[0] != ' '))
    ensures Squeezed([c] + q)
  {
    var r := [c] + q;
    assert forall i :: 1 <= i < |r| ==> r[i] == q[i - 1];
  }

  lemma TailLast(s: string)
    requires s != []
    ensures s[1..] != [] ==> s[1..][|s[1..]| - 1] == s[|s| - 1]
  {
  }

  lemma ConsLast(c: char, q: string)
    ensures ([c] + q)[|[c] + q| - 1] == if q == [] then c else q[|q| - 1]
  {
  }

  /** `lstrip` keeps the last character unless it drops everything, and it
      drops everything only from an all-whitespace text. */
  lemma DropSpacesLast(u: string)
    ensures DropSpaces(u) != [] ==> DropSpaces(u)[|DropSpaces(u)| - 1] == u[|u| - 1]
    ensures u != [] && DropSpaces(u) == [] ==> IsSpace(u[|u| - 1])
  {
  }

  /** The lowercase ASCII letters of a text, in order. */
  function Letters(s: string): string {
    if s == [] then [] else (if IsLower(s[0]) then [s[0]] else []) + Letters(s[1..])
  }

  /** `clean_text` (app.py:55-59). Its output is single-spaced lowercase
      letters; it keeps every letter of the lowered input in order, is
      empty exactly when the input has no letter, and has the same words
      as the lowered, filtered input split on whitespace. */
  function CleanText(text: string): (r: string)
    ensures Clean(r)
    ensures Letters(r) == Letters(LowerAll(text))
    ensures r == [] <==> forall i :: 0 <= i < |text| ==> !IsLower(Lower(text[i]))
    ensures Tokenize(r) == Tokenize(DropOther(LowerAll(text)))
  {
    CleanTextStages(text);
    Strip(Squeeze(DropOther(LowerAll(text))))
  }

  // ---------------------------------------------------------------------
  // remove_stopwords
  // ---------------------------------------------------------------------

  /** The comprehension `[word for word in words if word not in stop_words]`
      (app.py:64): drops exactly the stopwords and keeps every other
      occurrence, duplicates included. */
  function Keep(ws: seq<string>, stop: set<string>): seq<string> {
    if ws == [] then [] else (if ws[0] in stop then [] else [ws[0]]) + Keep(ws[1..], stop)
  }

  /** `remove_stopwords` (app.py:61-64), with the stop set a parameter and
      `word_tokenize` read as a split on whitespace. The tokens of the
      result are the kept tokens of the input, joined by single spaces. */
  function RemoveStopwords(text: string, stop: set<string>): (r: string)
    ensures Tokenize(r) == Keep(Tokenize(text), stop)
    ensures SingleSpaced(r)
    ensures r == [] <==> forall w :: w in Tokenize(text) ==> w in stop
    ensures Clean(text) ==> Clean(r)
  {
    var kept := Keep(Tokenize(text), stop);
    KeepWords(Tokenize(text), stop);
    KeepMembers(Tokenize(text), stop);
    TokenizeJoin(kept);
    JoinSingleSpaced(kept);
    KeepCleanWords(text, stop);
    Join(kept)
  }

  /** The two-stage preprocessing that `calculate_similarity` applies to
      each of its inputs (app.py:67-68). */
  function Normalize(text: string, stop: set<string>): (r: string)
    ensures Clean(r)
    ensures Tokenize(r) == Keep(Tokenize(DropOther(LowerAll(text))), stop)
  {
    RemoveStopwords(CleanText(text), stop)
  }

  // ---------------------------------------------------------------------
  // Properties relating several calls
  // ---------------------------------------------------------------------

  /** Cleaning a cleaned text changes nothing. */
  lemma CleanTextIdempotent(text: string)
    ensures CleanText(CleanText(text)) == CleanText(text)
  {
    CleanFixed(CleanText(text));
  }

  /** Removing stopwords twice is removing them once. */
  lemma RemoveStopwordsIdempotent(text: string, stop: set<string>)
    ensures RemoveStopwords(RemoveStopwords(text, stop), stop) == RemoveStopwords(text, stop)
  {
    var ws := Tokenize(text);
    var r := RemoveStopwords(text, stop);
    KeepKeep(ws, stop);
    JoinTokenize(r);
  }

  /** The whole preprocessing is idempotent: a processed text is its own
      normal form. */
  lemma NormalizeIdempotent(text: string, stop: set<string>)
    ensures Normalize(Normalize(text, stop), stop) == Normalize(text, stop)
  {
    var n := Normalize(text, stop);
    CleanFixed(n);
    RemoveStopwordsIdempotent(CleanText(text), stop);
  }

  /** Each kept character survives as often as it occurs; every other
      character is gone. */
  lemma {:induction false} DropOtherCounts(s: string)
    ensures forall c :: multiset(DropOther(s))[c] == if Kept(c) then multiset(s)[c] else 0
  {
    if s != [] {
      var c := if Kept(s[0]) then [s[0]] else [];
      assert s == [s[0]] + s[1..];
      DropOtherCounts(s[1..]);
      assert multiset(DropOther(s)) == multiset(c) + multiset(DropOther(s[1..]));
    }
  }

  /** Deleting characters keeps the others in order: it distributes over
      concatenation. */
  lemma {:induction false} DropOtherAppend(a: string, b: string)
    ensures DropOther(a + b) == DropOther(a) + DropOther(b)
  {
    if a == [] {
      assert a + b == b;
    } else {
      var c := if Kept(a[0]) then [a[0]] else [];
      AppendHead(a, b);
      DropOtherAppend(a[1..], b);
      AppendAssoc(c, DropOther(a[1..]), DropOther(b));
    }
  }

  /** Filtering keeps relative order: it distributes over concatenation. */
  lemma {:induction false} KeepAppend(a: seq<string>, b: seq<string>, stop: set<string>)
    ensures Keep(a + b, stop) == Keep(a, stop) + Keep(b, stop)
  {
    if a == [] {
      assert a + b == b;
    } else {
      assert (a + b)[0] == a[0];
      assert (a + b)[1..] == a[1..] + b;
      KeepAppend(a[1..], b, stop);
    }
  }

  /** What the filter keeps: exactly the non-stopwords, each as often as
      it occurs in the input. */
  lemma {:induction false} KeepMembers(ws: seq<string>, stop: set<string>)
    ensures forall w :: w in Keep(ws, stop) <==> w in ws && w !in stop
    ensures forall w :: multiset(Keep(ws, stop))[w] == if w in stop then 0 else multiset(ws)[w]
  {
    if ws != [] {
      KeepMembers(ws[1..], stop);
      assert ws == [ws[0]] + ws[1..];
    }
  }

  lemma {:induction false} KeepKeep(ws: seq<string>, stop: set<string>)
    ensures Keep(Keep(ws, stop), stop) == Keep(ws, stop)
  {
    if ws != [] {
      var tail := Keep(ws[1..], stop);
      KeepKeep(ws[1..], stop);
      if ws[0] in stop {
        assert Keep(ws, stop) == [] + tail == tail;
      } else {
        var k := Keep(ws, stop);
        assert k == [ws[0]] + tail;
        assert k[0] == ws[0] && k[1..] == tail;
        assert Keep(k, stop) == [ws[0]] + Keep(tail, stop);
      }
    }
  }

  // ---------------------------------------------------------------------
  // Helper lemmas
  // ---------------------------------------------------------------------

  lemma KeepWords(ws: seq<string>, stop: set<string>)
    requires AllWords(ws)
    ensures AllWords(Keep(ws, stop))
  {
    var r := Keep(ws, stop);
    KeepMembers(ws, stop);
    forall k | 0 <= k < |r| ensures IsWord(r[k]) {
      assert r[k] in r;
    }
  }

  lemma KeepLowerWords(ws: seq<string>, stop: set<string>)
    requires forall k :: 0 <= k < |ws| ==> IsLowerWord(ws[k])
    ensures forall k :: 0 <= k < |Keep(ws, stop)| ==> IsLowerWord(Keep(ws, stop)[k])
  {
    var r := Keep(ws, stop);
    KeepMembers(ws, stop);
    forall k | 0 <= k < |r| ensures IsLowerWord(r[k]) {
      assert r[k] in r;
    }
  }

  lemma KeepCleanWords(text: string, stop: set<string>)
    ensures Clean(text) ==>
      forall k :: 0 <= k < |Keep(Tokenize(text), stop)| ==> IsLowerWord(Keep(Tokenize(text), stop)[k])
  {
    if Clean(text) {
      TokenizeLowerWords(text);
      KeepLowerWords(Tokenize(text), stop);
    }
  }

  /** The properties of `CleanText`, stage by stage. */
  lemma CleanTextStages(text: string)
    ensures Clean(Strip(Squeeze(DropOther(LowerAll(text)))))
    ensures Letters(Strip(Squeeze(DropOther(LowerAll(text))))) == Letters(LowerAll(text))
    ensures Strip(Squeeze(DropOther(LowerAll(text)))) == [] <==>
      forall i :: 0 <= i < |text| ==> !IsLower(Lower(text[i]))
    ensures Tokenize(Strip(Squeeze(DropOther(LowerAll(text))))) == Tokenize(DropOther(LowerAll(text)))
  {
    CleanStagesShape(text);
    CleanStagesLetters(text);
    CleanStagesEmpty(text);
    CleanStagesTokens(text);
  }

  lemma CleanStagesShape(text: string)
    ensures Clean(Strip(Squeeze(DropOther(LowerAll(text)))))
  {
    var s := DropOther(LowerAll(text));
    DropOtherLowered(text);
    SqueezeShape(s);
    StripShape(Squeeze(s));
  }

  lemma CleanStagesLetters(text: string)
    ensures Letters(Strip(Squeeze(DropOther(LowerAll(text))))) == Letters(LowerAll(text))
  {
    var lowered := LowerAll(text);
    var s := DropOther(lowered);
    LettersDropOther(lowered);
    LettersSqueeze(s);
    LettersStrip(Squeeze(s));
  }

  lemma CleanStagesEmpty(text: string)
    ensures Strip(Squeeze(DropOther(LowerAll(text)))) == [] <==>
      forall i :: 0 <= i < |text| ==> !IsLower(Lower(text[i]))
  {
    var lowered := LowerAll(text);
    var r := Strip(Squeeze(DropOther(lowered)));
    CleanStagesShape(text);
    CleanStagesLetters(text);
    LettersClean(r);
    LettersEmpty(lowered);
    NoLettersLowered(text);
  }

  lemma NoLettersLowered(text: string)
    ensures (forall i :: 0 <= i < |LowerAll(text)| ==> !IsLower(LowerAll(text)[i])) <==>
      (forall i :: 0 <= i < |text| ==> !IsLower(Lower(text[i])))
  {
    var lowered := LowerAll(text);
    assert |lowered| == |text|;
    assert forall i :: 0 <= i < |text| ==> lowered[i] == Lower(text[i]);
  }

  lemma CleanStagesTokens(text: string)
    ensures Tokenize(Strip(Squeeze(DropOther(LowerAll(text))))) == Tokenize(DropOther(LowerAll(text)))
  {
    var s := DropOther(LowerAll(text));
    TokenizeSqueeze(s);
    TokenizeStrip(Squeeze(s));
  }

  /** After lowering and filtering only small letters and whitespace remain. */
  lemma DropOtherLowered(text: string)
    ensures forall i :: 0 <= i < |DropOther(LowerAll(text))| ==>
      IsLower(DropOther(LowerAll(text))[i]) || IsSpace(DropOther(LowerAll(text))[i])
  {
    var l := LowerAll(text);
    var s := DropOther(l);
    forall i | 0 <= i < |s| ensures IsLower(s[i]) || IsSpace(s[i]) {
      assert s[i] in s;
      var j :| 0 <= j < |l| && l[j] == s[i];
      assert l[j] == Lower(text[j]);
    }
  }

  /** One more character in front of a squeezed text of lowercase letters
      and spaces: a letter, or a space before something other than a space. */
  lemma ConsShape(c: char, q: string)
    requires Squeezed(q) && forall i :: 0 <= i < |q| ==> IsLower(q[i]) || q[i] == ' '
    requires IsLower(c) || (c == ' ' && (q == [] || q[0] != ' '))
    ensures Squeezed([c] + q)
    ensures forall i :: 0 <= i < |[c] + q| ==> IsLower(([c] + q)[i]) || ([c] + q)[i] == ' '
  {
    var r := [c] + q;
    assert forall i :: 1 <= i < |r| ==> r[i] == q[i - 1];
  }

  lemma LowerOrSpaceSuffix(s: string, k: nat)
    requires k <= |s| && forall i :: 0 <= i < |s| ==> IsLower(s[i]) || IsSpace(s[i])
    ensures forall i :: 0 <= i < |s[k..]| ==> IsLower(s[k..][i]) || IsSpace(s[k..][i])
  {
    forall i | 0 <= i < |s[k..]| ensures IsLower(s[k..][i]) || IsSpace(s[k..][i]) {
      assert s[k..][i] == s[k + i];
    }
  }

  /** Squeezing a text of lowercase letters and whitespace leaves lowercase
      letters and single spaces. */
  lemma {:induction false} SqueezeShape(s: string)
    requires forall i :: 0 <= i < |s| ==> IsLower(s[i]) || IsSpace(s[i])
    ensures Squeezed(Squeeze(s))
    ensures forall i :: 0 <= i < |Squeeze(s)| ==> IsLower(Squeeze(s)[i]) || Squeeze(s)[i] == ' '
    decreases |s|
  {
    if s != [] {
      if IsSpace(s[0]) {
        var t := DropSpaces(s[1..]);
        LowerOrSpaceSuffix(s, 1);
        LowerOrSpaceSuffix(s[1..], |s| - 1 - |t|);
        SqueezeShape(t);
        ConsShape(' ', Squeeze(t));
        assert Squeeze(s) == [' '] + Squeeze(t);
      } else {
        LowerOrSpaceSuffix(s, 1);
        SqueezeShape(s[1..]);
        ConsShape(s[0], Squeeze(s[1..]));
        assert Squeeze(s) == [s[0]] + Squeeze(s[1..]);
      }
    }
  }

  /** A slice of a squeezed text of lowercase letters and spaces is one too. */
  lemma SqueezedSlice(s: string, a: nat, b: nat)
    requires a <= b <= |s| && Squeezed(s)
    requires forall i :: 0 <= i < |s| ==> IsLower(s[i]) || s[i] == ' '
    ensures Squeezed(s[a..b])
    ensures forall i :: 0 <= i < b - a ==> IsLower(s[a..b][i]) || s[a..b][i] == ' '
  {
    var r := s[a..b];
    assert forall i :: 0 <= i < |r| ==> r[i] == s[a + i];
  }

  lemma DropSpacesShape(s: string)
    requires Squeezed(s)
    requires forall i :: 0 <= i < |s| ==> IsLower(s[i]) || s[i] == ' '
    ensures Squeezed(DropSpaces(s))
    ensures forall i :: 0 <= i < |DropSpaces(s)| ==> IsLower(DropSpaces(s)[i]) || DropSpaces(s)[i] == ' '
    ensures DropSpaces(s) == [] || DropSpaces(s)[0] != ' '
  {
    var d := DropSpaces(s);
    SqueezedSlice(s, |s| - |d|, |s|);
  }

  lemma StripEndShape(d: string)
    requires Squeezed(d)
    requires forall i :: 0 <= i < |d| ==> IsLower(d[i]) || d[i] == ' '
    requires d == [] || d[0] != ' '
    ensures Clean(StripEnd(d))
  {
    var r := StripEnd(d);
    SqueezedSlice(d, 0, |r|);
    assert r == d[0..|r|];
    assert r != [] ==> r[0] == d[0] && !IsSpace(r[|r| - 1]);
  }

  lemma StripShape(s: string)
    requires Squeezed(s)
    requires forall i :: 0 <= i < |s| ==> IsLower(s[i]) || s[i] == ' '
    ensures Clean(Strip(s))
  {
    DropSpacesShape(s);
    StripEndShape(DropSpaces(s));
  }

  lemma {:induction false} LettersAppend(a: string, b: string)
    ensures Letters(a + b) == Letters(a) + Letters(b)
  {
    if a == [] {
      assert a + b == b;
    } else {
      var c := if IsLower(a[0]) then [a[0]] else [];
      assert (a + b)[0] == a[0];
      assert (a + b)[1..] == a[1..] + b;
      LettersAppend(a[1..], b);
      calc {
        Letters(a + b);
        c + Letters(a[1..] + b);
        c + (Letters(a[1..]) + Letters(b));
        (c + Letters(a[1..])) + Letters(b);
      }
    }
  }

  lemma {:induction false} LettersDropOther(s: string)
    ensures Letters(DropOther(s)) == Letters(s)
  {
    if s != [] {
      var c := if Kept(s[0]) then [s[0]] else [];
      LettersAppend(c, DropOther(s[1..]));
      LettersDropOther(s[1..]);
      assert Letters(c) == if IsLower(s[0]) then [s[0]] else [];
    }
  }

  lemma {:induction false} LettersDropSpaces(s: string)
    ensures Letters(DropSpaces(s)) == Letters(s)
  {
    if s != [] && IsSpace(s[0]) {
      LettersDropSpaces(s[1..]);
    }
  }

  lemma {:induction false} LettersStripEnd(s: string)
    ensures Letters(StripEnd(s)) == Letters(s)
  {
    if s != [] && IsSpace(s[|s| - 1]) {
      var p := s[..|s| - 1];
      assert s == p + [s[|s| - 1]];
      LettersAppend(p, [s[|s| - 1]]);
      LettersStripEnd(p);
    }
  }

  lemma LettersStrip(s: string)
    ensures Letters(Strip(s)) == Letters(s)
  {
    LettersDropSpaces(s);
    LettersStripEnd(DropSpaces(s));
  }

  lemma {:induction false} LettersSqueeze(s: string)
    ensures Letters(Squeeze(s)) == Letters(s)
    decreases |s|
  {
    if s != [] {
      if IsSpace(s[0]) {
        var t := DropSpaces(s[1..]);
        var q := Squeeze(t);
        assert Squeeze(s) == " " + q;
        LettersAppend(" ", q);
        assert Letters(" ") == [];
        LettersSqueeze(t);
        LettersDropSpaces(s[1..]);
        assert Letters(s) == Letters(s[1..]);
      } else {
        var q := Squeeze(s[1..]);
        assert Squeeze(s) == [s[0]] + q;
        LettersAppend([s[0]], q);
        LettersSqueeze(s[1..]);
        assert Letters([s[0]]) == if IsLower(s[0]) then [s[0]] else [];
      }
    }
  }

  lemma {:induction false} LettersEmpty(s: string)
    ensures Letters(s) == [] <==> forall i :: 0 <= i < |s| ==> !IsLower(s[i])
  {
    if s != [] {
      LettersEmpty(s[1..]);
      assert forall i :: 1 <= i < |s| ==> s[i] == s[1..][i - 1];
    }
  }

  /** A clean text without letters is empty. */
  lemma LettersClean(s: string)
    requires Clean(s)
    ensures s == [] <==> Letters(s) == []
  {
    LettersEmpty(s);
    if s != [] {
      assert s[0] != ' ';
    }
  }

  lemma {:induction false} TokenizeDropSpaces(s: string)
    ensures Tokenize(DropSpaces(s)) == Tokenize(s)
  {
    if s != [] && IsSpace(s[0]) {
      TokenizeDropSpaces(s[1..]);
    }
  }

  /** A whitespace character at the end adds no word. */
  lemma {:induction false} TokenizeSpaceAtEnd(s: string, c: char)
    requires IsSpace(c)
    ensures Tokenize(s + [c]) == Tokenize(s)
    decreases |s|
  {
    var t := s + [c];
    if s == [] {
      assert t[1..] == [];
    } else if IsSpace(s[0]) {
      assert t[1..] == s[1..] + [c];
      TokenizeSpaceAtEnd(s[1..], c);
    } else {
      var n := WordLen(s);
      var w := s[..n];
      assert s == w + s[n..];
      assert t == w + (s[n..] + [c]);
      assert IsWord(w);
      WordLenOfWordThen(w, s[n..] + [c]);
      WordLenOfWordThen(w, s[n..]);
      assert t[..n] == w && t[n..] == s[n..] + [c];
      TokenizeSpaceAtEnd(s[n..], c);
    }
  }

  lemma {:induction false} TokenizeStripEnd(s: string)
    ensures Tokenize(StripEnd(s)) == Tokenize(s)
  {
    if s != [] && IsSpace(s[|s| - 1]) {
      var p := s[..|s| - 1];
      assert s == p + [s[|s| - 1]];
      TokenizeSpaceAtEnd(p, s[|s| - 1]);
      TokenizeStripEnd(p);
    }
  }

  lemma TokenizeStrip(s: string)
    ensures Tokenize(Strip(s)) == Tokenize(s)
  {
    TokenizeDropSpaces(s);
    TokenizeStripEnd(DropSpaces(s));
  }

  lemma SqueezeNonSpaceHead(c: char, s: string)
    requires !IsSpace(c)
    ensures Squeeze([c] + s) == [c] + Squeeze(s)
  {
    assert ([c] + s)[0] == c;
    assert ([c] + s)[1..] == s;
  }

  /** Squeezing copies a leading run of whitespace-free characters unchanged. */
  lemma {:induction false} SqueezeWordThen(s: string, n: nat)
    requires n <= |s| && forall i :: 0 <= i < n ==> !IsSpace(s[i])
    ensures Squeeze(s) == s[..n] + Squeeze(s[n..])
    decreases n
  {
    if n > 0 {
      var t := s[1..];
      SplitHead(s, n);
      SqueezeNonSpaceHead(s[0], t);
      SqueezeWordThen(t, n - 1);
      AppendAssoc([s[0]], s[1..n], Squeeze(s[n..]));
    }
  }

  /** Squeezing whitespace does not change the words. */
  lemma {:induction false} TokenizeSqueeze(s: string)
    ensures Tokenize(Squeeze(s)) == Tokenize(s)
    decreases |s|
  {
    if s != [] {
      if IsSpace(s[0]) {
        var t := DropSpaces(s[1..]);
        TokenizeSpaceThen(' ', Squeeze(t));
        TokenizeSqueeze(t);
        TokenizeDropSpaces(s[1..]);
      } else {
        var n := WordLen(s);
        SqueezeWordThen(s, n);
        var rest := Squeeze(s[n..]);
        assert IsWord(s[..n]);
        TokenizeWordThen(s[..n], rest);
        TokenizeSqueeze(s[n..]);
      }
    }
  }

  lemma {:induction false} DropOtherKept(s: string)
    requires forall i :: 0 <= i < |s| ==> Kept(s[i])
    ensures DropOther(s) == s
  {
    if s != [] {
      DropOtherKept(s[1..]);
    }
  }

  lemma {:induction false} SqueezeSqueezed(s: string)
    requires Squeezed(s)
    ensures Squeeze(s) == s
    decreases |s|
  {
    if s != [] {
      var t := s[1..];
      SqueezedTail(s);
      SqueezeSqueezed(t);
      if IsSpace(s[0]) {
        assert DropSpaces(t) == t;
        assert Squeeze(s) == " " + t;
      } else {
        assert Squeeze(s) == [s[0]] + t;
      }
    }
  }

  /** A squeezed text stays squeezed without its first character, and a
      space there is followed by a non-space. */
  lemma SqueezedTail(s: string)
    requires s != [] && Squeezed(s)
    ensures Squeezed(s[1..])
    ensures IsSpace(s[0]) ==> s[0] == ' ' && (s[1..] == [] || !IsSpace(s[1..][0]))
  {
    var t := s[1..];
    assert forall i :: 0 <= i < |t| ==> t[i] == s[i + 1];
  }

  /** A clean text is its own cleaning. */
  lemma CleanFixed(s: string)
    requires Clean(s)
    ensures CleanText(s) == s
  {
    assert LowerAll(s) == s;
    DropOtherKept(s);
    SqueezeSqueezed(s);
    assert DropSpaces(s) == s;
  }
}
