/**
 * The keyword ranker `extract_keywords` (app.py:74-80): tokens longer than
 * two characters whose part-of-speech tag starts with "NN" or "JJ" are
 * counted, and the `num_keywords` most frequent are returned as
 * (word, count) pairs, most frequent first, ties in order of first
 * occurrence. The tagger is a parameter; `Counter` is a left fold that
 * keeps keys in insertion order, and `most_common` a stable ranking by
 * count cut to length.
 */
module Keywords {
  import opened Text

  /** One `(word, count)` pair of `most_common`. */
  datatype Entry = Entry(word: string, count: nat)

  /** `s.startswith(p)`. */
  predicate StartsWith(s: string, p: string) {
    |p| <= |s| && s[..|p|] == p
  }

  /** The tag test of app.py:78: a noun or adjective tag of the Penn Treebank set. */
  predicate IsNounOrAdjective(tag: string) {
    StartsWith(tag, "NN") || StartsWith(tag, "JJ")
  }

  /** A part-of-speech tagger gives one tag per token. */
  ghost predicate PreservesLength(tagger: seq<string> -> seq<string>) {
    forall ws :: |tagger(ws)| == |ws|
  }

  // ---------------------------------------------------------------------
  // The two filters (app.py:76-78)
  // ---------------------------------------------------------------------

  /** `[w for w in words if len(w) > 2]` (app.py:76). */
  function LongWords(ws: seq<string>): seq<string> {
    if ws == [] then [] else (if |ws[0]| > 2 then [ws[0]] else []) + LongWords(ws[1..])
  }

  /** `[w for w, pos in tagged_words if pos.startswith('NN') or pos.startswith('JJ')]`
      (app.py:78), with the tags given position by position. */
  function NounsAndAdjectives(ws: seq<string>, tags: seq<string>): seq<string>
    requires |tags| == |ws|
  {
    if ws == [] then []
    else (if IsNounOrAdjective(tags[0]) then [ws[0]] else []) + NounsAndAdjectives(ws[1..], tags[1..])
  }

  /** The token list that `Counter` receives (app.py:75-78). */
  function Candidates(text: string, tagger: seq<string> -> seq<string>): seq<string>
    requires PreservesLength(tagger)
  {
    var long := LongWords(Tokenize(text));
    NounsAndAdjectives(long, tagger(long))
  }

  /** `w` is one of the long tokens of `text` and was tagged as a noun or
      adjective at one of its positions. */
  ghost predicate TaggedNounOrAdjective(text: string, tagger: seq<string> -> seq<string>, w: string)
    requires PreservesLength(tagger)
  {
    var long := LongWords(Tokenize(text));
    exists k :: 0 <= k < |long| && long[k] == w && IsNounOrAdjective(tagger(long)[k])
  }

  lemma {:induction false} LongWordsMembers(ws: seq<string>)
    ensures forall w :: w in LongWords(ws) <==> w in ws && |w| > 2
  {
    if ws != [] {
      LongWordsMembers(ws[1..]);
      assert ws == [ws[0]] + ws[1..];
    }
  }

  /** The length filter keeps each long token as often as it occurs and
      drops every short one. */
  lemma {:induction false} LongWordsCounts(ws: seq<string>)
    ensures forall w :: multiset(LongWords(ws))[w] == if |w| > 2 then multiset(ws)[w] else 0
  {
    if ws != [] {
      var c := if |ws[0]| > 2 then [ws[0]] else [];
      assert ws == [ws[0]] + ws[1..];
      LongWordsCounts(ws[1..]);
      assert multiset(LongWords(ws)) == multiset(c) + multiset(LongWords(ws[1..]));
    }
  }

  lemma {:induction false} NounsAndAdjectivesMembers(ws: seq<string>, tags: seq<string>)
    requires |tags| == |ws|
    ensures forall w :: w in NounsAndAdjectives(ws, tags) ==>
      exists k :: 0 <= k < |ws| && ws[k] == w && IsNounOrAdjective(tags[k])
    ensures forall k :: 0 <= k < |ws| && IsNounOrAdjective(tags[k]) ==>
      ws[k] in NounsAndAdjectives(ws, tags)
  {
    if ws != [] {
      NounsAndAdjectivesMembers(ws[1..], tags[1..]);
      forall k | 0 <= k < |ws| && IsNounOrAdjective(tags[k])
        ensures ws[k] in NounsAndAdjectives(ws, tags)
      {
        if k > 0 {
          assert ws[1..][k - 1] == ws[k] && tags[1..][k - 1] == tags[k];
        }
      }
      forall w | w in NounsAndAdjectives(ws, tags)
        ensures exists k :: 0 <= k < |ws| && ws[k] == w && IsNounOrAdjective(tags[k])
      {
        if w in NounsAndAdjectives(ws[1..], tags[1..]) {
          var k :| 0 <= k < |ws[1..]| && ws[1..][k] == w && IsNounOrAdjective(tags[1..][k]);
          assert ws[k + 1] == w && tags[k + 1] == tags[1..][k];
        } else {
          assert ws[0] == w && IsNounOrAdjective(tags[0]);
        }
      }
    }
  }

  /** A token is counted exactly when it is a long token of the text tagged
      noun or adjective at one of its positions. */
  lemma CandidatesSpec(text: string, tagger: seq<string> -> seq<string>)
    requires PreservesLength(tagger)
    ensures forall w :: w in Candidates(text, tagger) <==> TaggedNounOrAdjective(text, tagger, w)
    ensures forall w :: w in Candidates(text, tagger) ==> |w| > 2 && w in Tokenize(text)
  {
    var long := LongWords(Tokenize(text));
    LongWordsMembers(Tokenize(text));
    NounsAndAdjectivesMembers(long, tagger(long));
    forall w | w in Candidates(text, tagger)
      ensures |w| > 2 && w in Tokenize(text) && TaggedNounOrAdjective(text, tagger, w)
    {
      var k :| 0 <= k < |long| && long[k] == w && IsNounOrAdjective(tagger(long)[k]);
      assert w in long;
    }
    forall w | TaggedNounOrAdjective(text, tagger, w)
      ensures w in Candidates(text, tagger)
    {
      var k :| 0 <= k < |long| && long[k] == w && IsNounOrAdjective(tagger(long)[k]);
    }
  }

  // ---------------------------------------------------------------------
  // Counter (app.py:79)
  // ---------------------------------------------------------------------

  /** The position of the first occurrence of `w` in `xs`. */
  function FirstIndex(xs: seq<string>, w: string): (k: nat)
    requires w in xs
    ensures k < |xs| && xs[k] == w && w !in xs[..k]
  {
    if xs[0] == w then 0
    else
      var k := FirstIndex(xs[1..], w);
      assert xs[..k + 1] == [xs[0]] + xs[1..][..k];
      k + 1
  }

  function Keys(t: seq<Entry>): seq<string> {
    seq(|t|, i requires 0 <= i < |t| => t[i].word)
  }

  predicate DistinctWords(t: seq<Entry>) {
    forall i, j :: 0 <= i < j < |t| ==> t[i].word != t[j].word
  }

  /** `self[elem] = self.get(elem, 0) + 1`: increment the entry of `w`, or
      append a new entry at the end, as a dict keeps insertion order. */
  function Bump(t: seq<Entry>, w: string): seq<Entry> {
    if t == [] then [Entry(w, 1)]
    else if t[0].word == w then [Entry(w, t[0].count + 1)] + t[1..]
    else [t[0]] + Bump(t[1..], w)
  }

  /** `Counter(xs)`: a left fold of `Bump` over the tokens. */
  function Tally(xs: seq<string>): seq<Entry> {
    if xs == [] then [] else Bump(Tally(xs[..|xs| - 1]), xs[|xs| - 1])
  }

  lemma {:induction false} BumpSpec(t: seq<Entry>, w: string)
    requires DistinctWords(t)
    ensures w in Keys(t) ==>
      |Bump(t, w)| == |t| &&
      forall i :: 0 <= i < |t| ==>
        Bump(t, w)[i] == if t[i].word == w then Entry(w, t[i].count + 1) else t[i]
    ensures w !in Keys(t) ==> Bump(t, w) == t + [Entry(w, 1)]
  {
    if t != [] {
      var tail := t[1..];
      assert Keys(tail) == Keys(t)[1..];
      if t[0].word != w {
        BumpSpec(tail, w);
      } else {
        assert Keys(t)[0] == w;
      }
    }
  }

  lemma FirstIndexPrefix(xs: seq<string>, m: nat, w: string)
    requires m <= |xs| && w in xs[..m]
    ensures FirstIndex(xs, w) == FirstIndex(xs[..m], w)
  {
    var k2 := FirstIndex(xs[..m], w);
    assert xs[..m][..k2] == xs[..k2];
  }

  lemma FirstIndexOfNew(p: seq<string>, w: string)
    requires w !in p
    ensures FirstIndex(p + [w], w) == |p|
  {
    var k := FirstIndex(p + [w], w);
  }

  /** What `Counter` holds for the tokens `xs`: one entry per distinct
      token, its count the number of occurrences, entries in order of
      first occurrence. */
  predicate Counts(xs: seq<string>, t: seq<Entry>) {
    CountsWords(xs, t) && CountsNumbers(xs, t) && CountsOrder(xs, t)
  }

  predicate CountsWords(xs: seq<string>, t: seq<Entry>) {
    && DistinctWords(t)
    && (forall i :: 0 <= i < |t| ==> t[i].word in xs)
    && (forall w :: w in xs ==> w in Keys(t))
  }

  predicate CountsNumbers(xs: seq<string>, t: seq<Entry>) {
    forall i :: 0 <= i < |t| ==> t[i].count == multiset(xs)[t[i].word]
  }

  predicate CountsOrder(xs: seq<string>, t: seq<Entry>)
    requires forall i :: 0 <= i < |t| ==> t[i].word in xs
  {
    forall i, j :: 0 <= i < j < |t| ==> FirstIndex(xs, t[i].word) < FirstIndex(xs, t[j].word)
  }

  lemma KeysSnoc(t: seq<Entry>, e: Entry)
    ensures Keys(t + [e]) == Keys(t) + [e.word]
  {
  }

  /** Appending a token leaves the first occurrences of earlier tokens alone. */
  lemma FirstIndexSnoc(p: seq<string>, w: string, u: string)
    requires u in p
    ensures FirstIndex(p + [w], u) == FirstIndex(p, u)
  {
    assert (p + [w])[..|p|] == p;
    FirstIndexPrefix(p + [w], |p|, u);
  }

  /** Counting one more occurrence of a token already seen. */
  lemma BumpSeen(p: seq<string>, w: string, t: seq<Entry>)
    requires Counts(p, t) && w in p
    ensures Counts(p + [w], Bump(t, w))
  {
    BumpSpec(t, w);
    BumpSeenWords(p, w, t);
    BumpSeenNumbers(p, w, t);
    BumpSeenOrder(p, w, t);
  }

  lemma BumpSeenWords(p: seq<string>, w: string, t: seq<Entry>)
    requires CountsWords(p, t) && w in p
    ensures CountsWords(p + [w], Bump(t, w))
  {
    var r := Bump(t, w);
    BumpSpec(t, w);
    assert Keys(r) == Keys(t);
  }

  lemma BumpSeenNumbers(p: seq<string>, w: string, t: seq<Entry>)
    requires CountsWords(p, t) && CountsNumbers(p, t) && w in p
    ensures CountsNumbers(p + [w], Bump(t, w))
  {
    BumpSpec(t, w);
    assert multiset(p + [w]) == multiset(p) + multiset{w};
  }

  lemma BumpSeenOrder(p: seq<string>, w: string, t: seq<Entry>)
    requires CountsWords(p, t) && CountsOrder(p, t) && w in p
    ensures CountsWords(p + [w], Bump(t, w))
    ensures CountsOrder(p + [w], Bump(t, w))
  {
    var r := Bump(t, w);
    BumpSeenWords(p, w, t);
    BumpSpec(t, w);
    forall i | 0 <= i < |t| ensures FirstIndex(p + [w], r[i].word) == FirstIndex(p, t[i].word) {
      assert r[i].word == t[i].word;
      FirstIndexSnoc(p, w, t[i].word);
    }
  }

  /** Counting the first occurrence of a token appends its entry. */
  lemma BumpNew(p: seq<string>, w: string, t: seq<Entry>)
    requires Counts(p, t) && w !in p
    ensures Counts(p + [w], Bump(t, w))
  {
    assert w !in Keys(t);
    BumpSpec(t, w);
    BumpNewWords(p, w, t);
    BumpNewNumbers(p, w, t);
    BumpNewOrder(p, w, t);
  }

  lemma BumpNewWords(p: seq<string>, w: string, t: seq<Entry>)
    requires CountsWords(p, t) && w !in p
    ensures CountsWords(p + [w], t + [Entry(w, 1)])
  {
    KeysSnoc(t, Entry(w, 1));
  }

  lemma BumpNewNumbers(p: seq<string>, w: string, t: seq<Entry>)
    requires CountsWords(p, t) && CountsNumbers(p, t) && w !in p
    ensures CountsNumbers(p + [w], t + [Entry(w, 1)])
  {
    assert multiset(p + [w]) == multiset(p) + multiset{w};
  }

  lemma BumpNewOrder(p: seq<string>, w: string, t: seq<Entry>)
    requires CountsWords(p, t) && CountsOrder(p, t) && w !in p
    ensures CountsWords(p + [w], t + [Entry(w, 1)])
    ensures CountsOrder(p + [w], t + [Entry(w, 1)])
  {
    var xs, r := p + [w], t + [Entry(w, 1)];
    BumpNewWords(p, w, t);
    FirstIndexOfNew(p, w);
    forall i | 0 <= i < |t| ensures FirstIndex(xs, r[i].word) == FirstIndex(p, t[i].word) < |p| {
      FirstIndexSnoc(p, w, t[i].word);
    }
  }

  /** `Tally` is what `Counter` holds. */
  lemma {:induction false} TallySpec(xs: seq<string>)
    ensures Counts(xs, Tally(xs))
  {
    if xs != [] {
      var p, w := xs[..|xs| - 1], xs[|xs| - 1];
      assert xs == p + [w];
      TallySpec(p);
      if w in p {
        BumpSeen(p, w, Tally(p));
      } else {
        BumpNew(p, w, Tally(p));
      }
    }
  }

  // ---------------------------------------------------------------------
  // most_common (app.py:80)
  // ---------------------------------------------------------------------

  /** Insert `e` before the first entry whose count is not larger: the
      step of a stable sort by descending count. */
  function Insert(e: Entry, s: seq<Entry>): seq<Entry> {
    if s == [] || s[0].count <= e.count then [e] + s else [s[0]] + Insert(e, s[1..])
  }

  /** `sorted(entries, key=count, reverse=True)`: stable, by descending count. */
  function Rank(t: seq<Entry>): seq<Entry> {
    if t == [] then [] else Insert(t[0], Rank(t[1..]))
  }

  /** `most_common(n)`: nothing for `n <= 0`, otherwise the first `n` of
      the ranking (all of it when there are fewer entries). */
  function MostCommon(t: seq<Entry>, n: int): seq<Entry> {
    if n <= 0 then [] else var s := Rank(t); s[..if n < |s| then n else |s|]
  }

  /** `a` comes before `b`: it has a higher count, or the same count and an
      earlier position. */
  predicate Precedes(a: Entry, b: Entry, pos: Entry -> int) {
    a.count > b.count || (a.count == b.count && pos(a) < pos(b))
  }

  predicate Ordered(s: seq<Entry>, pos: Entry -> int) {
    forall i, j :: 0 <= i < j < |s| ==> Precedes(s[i], s[j], pos)
  }

  lemma {:induction false} InsertMultiset(e: Entry, s: seq<Entry>)
    ensures multiset(Insert(e, s)) == multiset(s) + multiset{e}
  {
    if s != [] && s[0].count > e.count {
      InsertMultiset(e, s[1..]);
      assert s == [s[0]] + s[1..];
    }
  }

  lemma {:induction false} RankMultiset(t: seq<Entry>)
    ensures multiset(Rank(t)) == multiset(t)
  {
    if t != [] {
      RankMultiset(t[1..]);
      InsertMultiset(t[0], Rank(t[1..]));
      assert t == [t[0]] + t[1..];
    }
  }

  /** An entry that precedes everything in an ordered list can go in front. */
  lemma ConsOrdered(e: Entry, s: seq<Entry>, pos: Entry -> int)
    requires Ordered(s, pos)
    requires forall x :: x in s ==> Precedes(e, x, pos)
    ensures Ordered([e] + s, pos)
  {
    var r := [e] + s;
    forall i, j | 0 <= i < j < |r| ensures Precedes(r[i], r[j], pos) {
      assert r[j] == s[j - 1];
      if i > 0 { assert r[i] == s[i - 1]; }
    }
  }

  lemma OrderedTail(s: seq<Entry>, pos: Entry -> int)
    requires s != [] && Ordered(s, pos)
    ensures Ordered(s[1..], pos)
  {
    forall i, j | 0 <= i < j < |s| - 1 ensures Precedes(s[1..][i], s[1..][j], pos) {
      assert s[1..][i] == s[i + 1] && s[1..][j] == s[j + 1];
    }
  }

  lemma {:induction false} InsertOrdered(e: Entry, s: seq<Entry>, pos: Entry -> int)
    requires Ordered(s, pos)
    requires forall x :: x in s ==> pos(e) < pos(x)
    ensures Ordered(Insert(e, s), pos)
  {
    if s == [] || s[0].count <= e.count {
      forall x | x in s ensures Precedes(e, x, pos) {
        var k :| 0 <= k < |s| && s[k] == x;
        if k > 0 { assert Precedes(s[0], s[k], pos); }
      }
      ConsOrdered(e, s, pos);
    } else {
      var q := Insert(e, s[1..]);
      OrderedTail(s, pos);
      InsertOrdered(e, s[1..], pos);
      InsertMultiset(e, s[1..]);
      forall x | x in q ensures Precedes(s[0], x, pos) {
        assert x in multiset(q);
        if x != e {
          var k :| 0 <= k < |s[1..]| && s[1..][k] == x;
          assert s[k + 1] == x;
          assert Precedes(s[0], s[k + 1], pos);
        }
      }
      ConsOrdered(s[0], q, pos);
    }
  }

  /** Ranking an input whose positions increase orders it by descending
      count, ties by position: the ranking is stable. */
  lemma {:induction false} RankOrdered(t: seq<Entry>, pos: Entry -> int)
    requires forall i, j :: 0 <= i < j < |t| ==> pos(t[i]) < pos(t[j])
    ensures Ordered(Rank(t), pos)
  {
    if t != [] {
      var rest := Rank(t[1..]);
      RankOrdered(t[1..], pos);
      RankMultiset(t[1..]);
      forall x | x in rest ensures pos(t[0]) < pos(x) {
        assert x in multiset(t[1..]);
        var k :| 0 <= k < |t[1..]| && t[1..][k] == x;
        assert t[k + 1] == x;
      }
      InsertOrdered(t[0], rest, pos);
    }
  }

  // ---------------------------------------------------------------------
  // extract_keywords (app.py:74-80)
  // ---------------------------------------------------------------------

  /** `extract_keywords(text, num_keywords)` with the tagger a parameter.
      Every entry is a long token of the text tagged noun or adjective,
      with its number of occurrences among the counted tokens; words are
      distinct; counts never increase; equal counts come in order of first
      occurrence; and a counted token left out comes after every entry
      returned, which only happens when `numKeywords` entries were
      returned. */
  function ExtractKeywords(text: string, numKeywords: int := 10, tagger: seq<string> -> seq<string>): (r: seq<Entry>)
    requires PreservesLength(tagger)
    ensures numKeywords <= 0 ==> r == []
    ensures numKeywords > 0 ==> |r| <= numKeywords
    ensures Tokenize(text) == [] ==> r == []
    ensures forall i :: 0 <= i < |r| ==> r[i].word in Candidates(text, tagger)
    ensures forall i :: 0 <= i < |r| ==>
      |r[i].word| > 2 && r[i].word in Tokenize(text) && TaggedNounOrAdjective(text, tagger, r[i].word)
    ensures forall i :: 0 <= i < |r| ==> r[i].count == multiset(Candidates(text, tagger))[r[i].word]
    ensures forall i, j :: 0 <= i < j < |r| ==> r[i].word != r[j].word
    ensures forall i, j :: 0 <= i < j < |r| ==> r[i].count >= r[j].count
    ensures forall i, j :: 0 <= i < j < |r| && r[i].count == r[j].count ==>
      FirstIndex(Candidates(text, tagger), r[i].word) < FirstIndex(Candidates(text, tagger), r[j].word)
    ensures forall w :: w in Candidates(text, tagger) && w !in Keys(r) ==>
      |r| == (if numKeywords <= 0 then 0 else numKeywords) &&
      forall i :: 0 <= i < |r| ==>
        || r[i].count > multiset(Candidates(text, tagger))[w]
        || (r[i].count == multiset(Candidates(text, tagger))[w] &&
            FirstIndex(Candidates(text, tagger), r[i].word) < FirstIndex(Candidates(text, tagger), w))
  {
    ExtractKeywordsSpec(text, numKeywords, tagger);
    MostCommon(Tally(Candidates(text, tagger)), numKeywords)
  }

  lemma CandidatesOfEmpty(text: string, tagger: seq<string> -> seq<string>)
    requires PreservesLength(tagger)
    requires Tokenize(text) == []
    ensures Candidates(text, tagger) == []
  {
    assert LongWords(Tokenize(text)) == [];
  }

  /** Positions of entries by first occurrence of their word in `xs`. */
  function PosIn(xs: seq<string>): Entry -> int {
    (e: Entry) => if e.word in xs then FirstIndex(xs, e.word) else 0
  }

  /** Every ranked entry is an entry of the tally. */
  lemma RankedEntries(xs: seq<string>)
    ensures forall i :: 0 <= i < |Rank(Tally(xs))| ==>
      Rank(Tally(xs))[i].word in xs &&
      Rank(Tally(xs))[i].count == multiset(xs)[Rank(Tally(xs))[i].word]
  {
    var t := Tally(xs);
    var s := Rank(t);
    TallySpec(xs);
    RankMultiset(t);
    forall i | 0 <= i < |s| ensures s[i].word in xs && s[i].count == multiset(xs)[s[i].word] {
      assert s[i] in multiset(t);
      var k :| 0 <= k < |t| && t[k] == s[i];
    }
  }

  lemma RankedOrdered(xs: seq<string>)
    ensures Ordered(Rank(Tally(xs)), PosIn(xs))
  {
    TallySpec(xs);
    RankOrdered(Tally(xs), PosIn(xs));
  }

  /** The entries `most_common` returns. */
  lemma MostCommonEntries(xs: seq<string>, n: int)
    ensures var r := MostCommon(Tally(xs), n);
      && (n <= 0 ==> r == [])
      && (n > 0 ==> |r| <= n)
      && (xs == [] ==> r == [])
      && (forall i :: 0 <= i < |r| ==> r[i].word in xs && r[i].count == multiset(xs)[r[i].word])
      && Ordered(r, PosIn(xs))
  {
    var s := Rank(Tally(xs));
    var r := MostCommon(Tally(xs), n);
    RankedEntries(xs);
    RankedOrdered(xs);
    RankMultiset(Tally(xs));
    assert forall i :: 0 <= i < |r| ==> r[i] == s[i];
    if xs == [] {
      assert Tally(xs) == [];
    }
  }

  /** A counted token that `most_common` leaves out ranks after every
      entry it returns, and is left out only when the list is full. */
  lemma LeftOutRanksLast(xs: seq<string>, n: int, w: string)
    requires w in xs && w !in Keys(MostCommon(Tally(xs), n))
    ensures var r := MostCommon(Tally(xs), n);
      && |r| == (if n <= 0 then 0 else n)
      && forall i :: 0 <= i < |r| ==> Precedes(r[i], Entry(w, multiset(xs)[w]), PosIn(xs))
  {
    var t := Tally(xs);
    var s := Rank(t);
    var r := MostCommon(t, n);
    var e := Entry(w, multiset(xs)[w]);
    TallyHasEntry(xs, w);
    RankMultiset(t);
    assert e in multiset(s);
    var p :| 0 <= p < |s| && s[p] == e;
    if n > 0 {
      var m := if n < |s| then n else |s|;
      assert r == s[..m];
      PastTheCut(s, m, p, w);
      RankedOrdered(xs);
      forall i | 0 <= i < m ensures Precedes(r[i], e, PosIn(xs)) {
        assert r[i] == s[i];
      }
    }
  }

  lemma TallyHasEntry(xs: seq<string>, w: string)
    requires w in xs
    ensures Entry(w, multiset(xs)[w]) in Tally(xs)
  {
    var t := Tally(xs);
    TallySpec(xs);
    var k :| 0 <= k < |t| && Keys(t)[k] == w;
    assert t[k] == Entry(w, multiset(xs)[w]);
  }

  /** An entry whose word is not among the first `m` lies past them. */
  lemma PastTheCut(s: seq<Entry>, m: nat, p: nat, w: string)
    requires m <= |s| && p < |s| && s[p].word == w && w !in Keys(s[..m])
    ensures p >= m && m < |s|
  {
    var k := Keys(s[..m]);
    assert |k| == m;
    assert forall i :: 0 <= i < m ==> k[i] == s[i].word;
  }

  /** What `most_common` leaves out ranks after everything it returns. */
  lemma MostCommonComplete(xs: seq<string>, n: int)
    ensures var r := MostCommon(Tally(xs), n);
      && (forall i :: 0 <= i < |r| ==> r[i].word in xs)
      && forall w :: w in xs && w !in Keys(r) ==>
        |r| == (if n <= 0 then 0 else n) &&
        forall i :: 0 <= i < |r| ==>
          || r[i].count > multiset(xs)[w]
          || (r[i].count == multiset(xs)[w] && FirstIndex(xs, r[i].word) < FirstIndex(xs, w))
  {
    var r := MostCommon(Tally(xs), n);
    MostCommonEntries(xs, n);
    forall w | w in xs && w !in Keys(r)
      ensures |r| == (if n <= 0 then 0 else n)
      ensures forall i :: 0 <= i < |r| ==>
          || r[i].count > multiset(xs)[w]
          || (r[i].count == multiset(xs)[w] && FirstIndex(xs, r[i].word) < FirstIndex(xs, w))
    {
      LeftOutRanksLast(xs, n, w);
    }
  }

  /** An ordered list of true counts has distinct words, counts that never
      increase, and equal counts in order of first occurrence. */
  lemma OrderedConsequences(xs: seq<string>, r: seq<Entry>)
    requires forall i :: 0 <= i < |r| ==> r[i].word in xs && r[i].count == multiset(xs)[r[i].word]
    requires Ordered(r, PosIn(xs))
    ensures forall i, j :: 0 <= i < j < |r| ==> r[i].word != r[j].word
    ensures forall i, j :: 0 <= i < j < |r| ==> r[i].count >= r[j].count
    ensures forall i, j :: 0 <= i < j < |r| && r[i].count == r[j].count ==>
      FirstIndex(xs, r[i].word) < FirstIndex(xs, r[j].word)
  {
    forall i, j | 0 <= i < j < |r| ensures r[i].word != r[j].word {
      assert Precedes(r[i], r[j], PosIn(xs));
    }
    forall i, j | 0 <= i < j < |r|
      ensures r[i].count >= r[j].count
      ensures r[i].count == r[j].count ==> FirstIndex(xs, r[i].word) < FirstIndex(xs, r[j].word)
    {
      assert Precedes(r[i], r[j], PosIn(xs));
    }
  }

  lemma ExtractKeywordsSpec(text: string, n: int, tagger: seq<string> -> seq<string>)
    requires PreservesLength(tagger)
    ensures var nouns := Candidates(text, tagger);
      var r := MostCommon(Tally(nouns), n);
      && (n <= 0 ==> r == [])
      && (n > 0 ==> |r| <= n)
      && (Tokenize(text) == [] ==> r == [])
      && (forall i :: 0 <= i < |r| ==> r[i].word in nouns)
      && (forall i :: 0 <= i < |r| ==>
           |r[i].word| > 2 && r[i].word in Tokenize(text) && TaggedNounOrAdjective(text, tagger, r[i].word))
      && (forall i :: 0 <= i < |r| ==> r[i].count == multiset(nouns)[r[i].word])
      && (forall i, j :: 0 <= i < j < |r| ==> r[i].word != r[j].word)
      && (forall i, j :: 0 <= i < j < |r| ==> r[i].count >= r[j].count)
      && (forall i, j :: 0 <= i < j < |r| && r[i].count == r[j].count ==>
           FirstIndex(nouns, r[i].word) < FirstIndex(nouns, r[j].word))
      && (forall w :: w in nouns && w !in Keys(r) ==>
           |r| == (if n <= 0 then 0 else n) &&
           forall i :: 0 <= i < |r| ==>
             || r[i].count > multiset(nouns)[w]
             || (r[i].count == multiset(nouns)[w] && FirstIndex(nouns, r[i].word) < FirstIndex(nouns, w)))
  {
    var nouns := Candidates(text, tagger);
    var r := MostCommon(Tally(nouns), n);
    CandidatesSpec(text, tagger);
    if Tokenize(text) == [] {
      CandidatesOfEmpty(text, tagger);
    }
    MostCommonEntries(nouns, n);
    MostCommonComplete(nouns, n);
    OrderedConsequences(nouns, r);
  }
}
