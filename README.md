# Resume/job match scorer — a Dafny model of its text pipeline

The application (a single Streamlit script, `app.py`) takes a résumé PDF
and a pasted job description and reports how closely they match. This
project models the parts of it that carry logic:

- **Normaliser** (`normaliser.dfy`). `clean_text` lowers the text, deletes
  every character that is neither an ASCII letter nor whitespace, turns
  each run of whitespace into one space and strips the ends.
  `remove_stopwords` splits the text into tokens, drops the stopwords and
  joins the rest with single spaces.
- **Similarity** (`similarity.dfy`). `calculate_similarity` normalises
  both texts and scores the pair. The score is the cosine similarity as a
  percentage, rounded to two decimals. The cosine is a parameter. Scores
  are exact integers counting hundredths of a percent, so 87.25% is 8725.
- **Keywords** (`keywords.dfy`). `extract_keywords` keeps the tokens
  longer than two characters whose part-of-speech tag starts with `NN` or
  `JJ`, counts them with `Counter`, and returns the `num_keywords` most
  common. The tagger is a parameter. `Counter` is a left fold that keeps
  keys in first-occurrence order. `most_common(n)` is a stable ranking by
  descending count, cut to `n`; this is what `heapq.nlargest` guarantees.
- **Request handling** (`app.dfy`). The decisions `main` makes:
  - whether a request is rejected, and in which order it checks;
  - the gauge colour index `min(int(score // 33), 2)`;
  - the three-tier verdict: below 40 low, below 70 good, otherwise
    excellent.
- **Text** (`text.dfy`). Shared vocabulary:
  - whitespace as Python's `str.isspace()` defines it;
  - splitting on whitespace and joining with single spaces;
  - the shape of a cleaned text (lowercase letters, single spaces).

Everything is pure: datatypes, functions and lemmas. The source has no
loops or state in these parts. Its only accumulating loop is in the PDF
extractor, which is not modelled.

Parameters stand in for what the model cannot see:

- the English stopword list from NLTK is a `set<string>`;
- the POS tagger is a function from a token list to a tag list of the
  same length;
- the TF-IDF/cosine scorer is a function from the two processed texts to
  a real number;
- the PDF extractor is a function from the upload to a string, with `""`
  meaning failure;
- the button press, the upload and the text area of the page are plain
  arguments of `App.Analyze`.

## Model

| member | source | states |
|---|---|---|
| Text.Tokenize | app.py:63 | every token read from a text is non-empty and contains no whitespace |
| Text.JoinSingleSpaced | app.py:64 | `" ".join` of tokens is single-spaced, is non-empty when there are tokens, and is a clean text when the tokens are lowercase words |
| Text.TokenizeJoin | app.py:64 | splitting `" ".join(ws)` on whitespace gives back exactly `ws`, order and duplicates included |
| Text.JoinTokenize | app.py:64 | a single-spaced text is `" ".join` of its own tokens |
| Normaliser.DropOther | app.py:57 | the filtered text contains exactly the input characters that are ASCII letters or whitespace |
| Normaliser.DropOtherCounts | app.py:57 | each ASCII letter or whitespace character survives as often as it occurs, and no other character survives |
| Normaliser.DropOtherAppend | app.py:57 | deletion distributes over concatenation, so the surviving characters keep their order |
| Normaliser.DropSpaces | app.py:58 | `lstrip` returns a suffix that does not start with whitespace, and everything it drops is whitespace |
| Normaliser.StripEnd | app.py:58 | `rstrip` returns a prefix that does not end with whitespace, and everything it drops is whitespace |
| Normaliser.Squeeze | app.py:58 | `re.sub(r'\s+', ' ', ·)` is empty only on empty input; its only whitespace is `' '` and no two spaces are adjacent; a leading or trailing whitespace run becomes `' '` and any other first or last character is kept |
| Normaliser.TokenizeSqueeze | app.py:58 | squeezing whitespace runs leaves the tokens of the text unchanged |
| Normaliser.LettersSqueeze | app.py:58 | squeezing whitespace runs leaves the letters of the text unchanged, in order |
| Normaliser.SqueezeSqueezed | app.py:58 | a text whose only whitespace is single spaces is returned unchanged |
| Normaliser.CleanTextStages | app.py:55-59 | the four stages together give a clean text, with the letters of the lowered input in order and the same words as the lowered, filtered input |
| Normaliser.CleanText | app.py:55-59 | the output is single-spaced lowercase ASCII letters; it keeps every letter of the lowered input in order; it is empty exactly when the input has no letter once lowered; its tokens are those of the lowered, filtered input |
| Normaliser.CleanFixed | app.py:55-59 | a text that is already clean is returned unchanged |
| Normaliser.CleanTextIdempotent | app.py:55-59 | cleaning a cleaned text changes nothing |
| Normaliser.RemoveStopwords | app.py:61-64 | the output's tokens are exactly the input's tokens that are not stopwords, in order; it is single-spaced; it is empty exactly when every token is a stopword; it is clean when the input is |
| Normaliser.KeepMembers | app.py:64 | a token survives the filter if and only if it occurs in the input and is not a stopword, and it survives as often as it occurs |
| Normaliser.KeepAppend | app.py:64 | the filter distributes over concatenation, so relative order is kept |
| Normaliser.KeepKeep | app.py:64 | filtering twice is filtering once |
| Normaliser.RemoveStopwordsIdempotent | app.py:61-64 | removing stopwords from its own output changes nothing |
| Normaliser.Normalize | app.py:67-68 | `remove_stopwords(clean_text(t))` is clean, and its tokens are the non-stopword tokens of the lowered, filtered text |
| Normaliser.NormalizeIdempotent | app.py:67-68 | a processed text is its own normal form |
| Similarity.RoundHalfEven | app.py:72 | `round` gives an integer within 0.5 of its argument, and the even one on a tie |
| Similarity.RoundHalfEvenMonotone | app.py:72 | rounding never reverses the order of two values |
| Similarity.Hundredths | app.py:71-72 | the score in hundredths lies within half a hundredth of the cosine times 10000, and within 0..10000 when the cosine is in [0, 1]; a cosine of exactly 1 scores 10000 and one of exactly 0 scores 0 |
| Similarity.HundredthsMonotone | app.py:71-72 | a larger cosine never gives a lower score |
| Similarity.CalculateSimilarity | app.py:66-72 | the triple returned is (score, `remove_stopwords(clean_text(resume))`, `remove_stopwords(clean_text(job))`), in that order; both texts are clean; the score is the rounded percentage of the cosine of the two processed texts |
| Similarity.SimilarityOfProcessed | app.py:66-72 | scoring texts that are already processed gives the same triple again |
| Similarity.SimilaritySymmetric | app.py:66-72 | swapping résumé and job description swaps the two processed texts, and with a symmetric cosine it gives the same score |
| Similarity.SelfMatchIsHundred | app.py:66-72 | a text scored against itself puts the same processed text on both sides, and scores exactly 100.00 when the cosine of that text with itself is 1 |
| Keywords.LongWordsMembers | app.py:76 | a token passes the length filter if and only if it occurs and is longer than two characters |
| Keywords.LongWordsCounts | app.py:76 | the length filter keeps each token longer than two characters as often as it occurs and drops every shorter one |
| Keywords.NounsAndAdjectivesMembers | app.py:77-78 | every token the tag filter keeps occurs at a position whose tag starts with `NN` or `JJ`, and every token at such a position is kept |
| Keywords.CandidatesSpec | app.py:75-78 | a token is counted if and only if it is a token of the text longer than two characters that was tagged noun or adjective at one of its positions; every counted token occurs in the text |
| Keywords.CandidatesOfEmpty | app.py:75-78 | a text without tokens gives nothing to count |
| Keywords.FirstIndex | app.py:79 | the first position of a token: it holds the token, and no earlier position does |
| Keywords.BumpSpec | app.py:79 | counting a token already present adds one to its count and changes nothing else; a new token is appended with count 1 |
| Keywords.TallySpec | app.py:79 | `Counter(xs)` has one entry per distinct token, its count is the number of occurrences, and entries are in order of first occurrence |
| Keywords.InsertMultiset | app.py:80 | the stable insertion step loses and invents no entry |
| Keywords.RankMultiset | app.py:80 | the ranking is a permutation of the counter's entries |
| Keywords.InsertOrdered | app.py:80 | inserting into a ranked list an entry that comes before every listed entry in first-occurrence order keeps the list ranked |
| Keywords.RankOrdered | app.py:80 | ranking entries given in increasing position orders them by descending count, ties by position |
| Keywords.MostCommonEntries | app.py:79-80 | `most_common(n)` is empty for `n <= 0` and for no tokens, has at most `n` entries, and each entry is a token with its true count, ranked |
| Keywords.LeftOutRanksLast | app.py:80 | a counted token that is left out ranks after every returned entry, and is left out only when `n` entries were returned |
| Keywords.MostCommonComplete | app.py:80 | every counted token is either returned or ranks after all returned entries |
| Keywords.ExtractKeywords | app.py:74-80 | `num_keywords` defaults to 10; at most `num_keywords` entries, none for `num_keywords <= 0` or for a text without tokens; every word is longer than 2 and tagged noun or adjective; every count is the word's number of occurrences among the counted tokens; words are distinct; counts never increase; equal counts come in first-occurrence order; a counted word left out ranks after every entry, and only when the list is full |
| App.Band | app.py:120-125 | the verdict is low exactly below 40.00, good exactly from 40.00 up to but not including 70.00, and excellent exactly from 70.00 up |
| App.BandMonotone | app.py:120-125 | a higher score never gets a worse verdict |
| App.ColourIndex | app.py:112 | for a non-negative score the index is 0, 1 or 2; below 2 it is the 33-point band holding the score; it is 2 exactly from 66.00 up |
| App.GaugeColour | app.py:111-113 | a non-negative score picks the palette entry at its colour index; an index from -3 to -1 picks the entry that many places from the end, as Python's indexing does; an index below -3 raises |
| App.ColourAgreesWithVerdict | app.py:111-125 | an excellent score is always drawn green, and a low non-negative score never is |
| App.Analyze | app.py:88-125 | nothing happens without the button; otherwise a missing upload is reported first, then an empty job description, then an empty extracted text; only a request past all three is scored, and it reports the score, colour index, verdict and processed texts that `calculate_similarity` gives |
| App.RejectedIgnoresScorer | app.py:89-100 | a rejected request ends the same whatever the stopwords and the scorer are: similarity is never computed for it |
| App.ScoredInRange | app.py:102-112 | with a cosine in [0, 1] a scored request reports 0.00 to 100.00 and a colour index of 0, 1 or 2 |
| App.VerdictMonotone | app.py:102-125 | a scorer that finds the same pair at least as similar never gives a worse verdict |

## Left out

- `extract_test_from_pdf` (app.py:44-53) is not modelled. PyPDF2's page parsing and its exception handler are behind the `extract` parameter of `App.Analyze`, and `""` stands for failure, as the handler returns.
- The TF-IDF vectorisation and cosine similarity (app.py:69-71) are sklearn internals in floating point. They are the `cosine` parameter.
- Similarity.CalculateSimilarity: does not model the `ValueError` that `TfidfVectorizer` raises when neither processed text holds a token of two or more characters. The model's scorer is a total function.
- Similarity.RoundHalfEven: works on exact reals. Python rounds the binary double nearest to `score`, so a value that prints as a tie can round either way.
- Text.Tokenize: NLTK's `word_tokenize` (app.py:63, app.py:75) is read as a split on whitespace. On a cleaned text (lowercase letters and spaces) the two differ only on the few words the Treebank rules split, such as `cannot`, `gonna` and `wanna`. On the raw text that `extract_keywords` receives, NLTK also splits off punctuation, which the model does not.
- The contents of NLTK's English stopword list (app.py:62) and the perceptron tagger model (app.py:77) are foreign data. They are parameters. The only assumption about the tagger is that it returns one tag per token.
- Normaliser.Lower: `str.lower()` is modelled on what the next stage can observe. ASCII capitals, KELVIN SIGN (to `k`) and `İ` (to `i` plus a combining dot, which the next stage deletes) are lowered. Any other character is left as it is. For other characters the exact lowercase form does not matter, because it is never an ASCII letter and `[^a-zA-Z\s]` deletes it.
- The Streamlit page, the sidebar, the spinner, the messages themselves, the chart drawing and the `.2f` formatting of the score (app.py:1-41, app.py:85-87, app.py:106-118) are presentation. They are not modelled beyond the colour index and the verdict.
- App.GaugeColour: the index can only be negative for a negative cosine, which TF-IDF weights never produce.
- `extract_keywords` is never called from `main` (app.py:84-125). It is modelled on its own, with `num_keywords` any integer, as `most_common` accepts, and 10 when it is not given.
