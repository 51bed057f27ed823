/**
 * The decision logic of `main` (app.py:84-125): the order in which a
 * request is rejected, the gauge colour chosen for the score and the
 * three-tier verdict shown under it. Widgets, spinner and chart drawing
 * are not modelled; the widget values are parameters. Scores are integer
 * hundredths of a percent, as `Similarity.CalculateSimilarity` returns them.
 */
module App {
  import opened Normaliser
  import opened Similarity

  datatype Option<T> = None | Some(value: T)

  /** The three messages of app.py:120-125, from worst to best. */
  datatype Verdict = Low | Good | Excellent

  /** The verdicts ordered from worst (0) to best (2). */
  function VerdictLevel(v: Verdict): nat {
    match v
    case Low => 0
    case Good => 1
    case Excellent => 2
  }

  /** The verdict for a score: below 40% low, below 70% good, else excellent. */
  function Band(score: int): (v: Verdict)
    ensures v == Low <==> score < 4000
    ensures v == Good <==> 4000 <= score < 7000
    ensures v == Excellent <==> 7000 <= score
  {
    if score < 4000 then Low
    else if score < 7000 then Good
    else Excellent
  }

  /** A higher score never gets a worse verdict. */
  lemma BandMonotone(a: int, b: int)
    requires a <= b
    ensures VerdictLevel(Band(a)) <= VerdictLevel(Band(b))
  {
  }

  /** `min(int(similarity_score // 33), 2)`: one band per 33 points,
      everything from 66% up sharing the last one. */
  function ColourIndex(score: int): (k: int)
    ensures score >= 0 ==> 0 <= k <= 2
    ensures k < 2 ==> k * 3300 <= score < (k + 1) * 3300
    ensures k == 2 <==> score >= 6600
  {
    var q := score / 3300;
    if q < 2 then q else 2
  }

  /** The gauge palette of app.py:111, red, orange, green. */
  const Palette: seq<string> := ["#ff4b4b", "#ffa726", "#2b9d0f"]

  /** `colors[color_index]` with Python's indexing: a negative index counts
      from the end, and one past either end raises (`None`). */
  function GaugeColour(score: int): (c: Option<string>)
    ensures score >= 0 ==> c == Some(Palette[ColourIndex(score)])
    ensures -3 <= ColourIndex(score) < 0 ==> c == Some(Palette[ColourIndex(score) + 3])
    ensures c.None? <==> ColourIndex(score) < -3
  {
    var k := ColourIndex(score);
    if 0 <= k then Some(Palette[k])
    else if -3 <= k then Some(Palette[k + 3])
    else None
  }

  /** The gauge and the verdict use different thresholds, but they never
      contradict each other outright: an excellent score is always green
      and a low non-negative score is never green. */
  lemma ColourAgreesWithVerdict(score: int)
    requires score >= 0
    ensures Band(score) == Excellent ==> GaugeColour(score) == Some("#2b9d0f")
    ensures Band(score) == Low ==> GaugeColour(score) != Some("#2b9d0f")
  {
  }

  /** What a run of `main` ends in. */
  datatype Outcome =
    | Idle
    | MissingResume
    | MissingJobDescription
    | ExtractionFailed
    | Scored(score: int, colourIndex: int, verdict: Verdict,
             resumeProcessed: string, jobProcessed: string)

  /** One run of `main`: whether the button was pressed, the uploaded file
      (if any), the pasted job description, the PDF text extractor (which
      yields `""` on failure), the stop set and the cosine scorer. */
  function Analyze<D>(pressed: bool, upload: Option<D>, jobDescription: string,
                      extract: D -> string, stop: set<string>,
                      cosine: (string, string) -> real): (o: Outcome)
    ensures o.Idle? <==> !pressed
    ensures o.MissingResume? <==> pressed && upload.None?
    ensures o.MissingJobDescription? <==> pressed && upload.Some? && jobDescription == []
    ensures o.ExtractionFailed? <==>
      pressed && upload.Some? && jobDescription != [] && extract(upload.value) == []
    ensures o.Scored? ==>
      && upload.Some?
      && var m := CalculateSimilarity(extract(upload.value), jobDescription, stop, cosine);
      && o.score == m.score
      && o.colourIndex == ColourIndex(m.score)
      && o.verdict == Band(m.score)
      && o.resumeProcessed == m.resumeProcessed
      && o.jobProcessed == m.jobProcessed
  {
    if !pressed then Idle
    else if upload.None? then MissingResume
    else if jobDescription == [] then MissingJobDescription
    else
      var resumeText := extract(upload.value);
      if resumeText == [] then ExtractionFailed
      else
        var m := CalculateSimilarity(resumeText, jobDescription, stop, cosine);
        Scored(m.score, ColourIndex(m.score), Band(m.score), m.resumeProcessed, m.jobProcessed)
  }

  /** A rejected request never reaches the scorer: its outcome is the same
      whatever the stop set and the cosine are. */
  lemma RejectedIgnoresScorer<D>(pressed: bool, upload: Option<D>, jobDescription: string,
                                 extract: D -> string, stop: set<string>,
                                 cosine: (string, string) -> real,
                                 stop': set<string>, cosine': (string, string) -> real)
    requires !Analyze(pressed, upload, jobDescription, extract, stop, cosine).Scored?
    ensures Analyze(pressed, upload, jobDescription, extract, stop', cosine')
         == Analyze(pressed, upload, jobDescription, extract, stop, cosine)
  {
  }

  /** With a cosine in [0, 1] the reported score is a percentage and the
      colour index names one of the three gauge colours. */
  lemma ScoredInRange<D>(pressed: bool, upload: Option<D>, jobDescription: string,
                         extract: D -> string, stop: set<string>,
                         cosine: (string, string) -> real)
    requires forall x, y :: 0.0 <= cosine(x, y) <= 1.0
    ensures var o := Analyze(pressed, upload, jobDescription, extract, stop, cosine);
      o.Scored? ==> 0 <= o.score <= 10000 && 0 <= o.colourIndex <= 2
  {
    var o := Analyze(pressed, upload, jobDescription, extract, stop, cosine);
    if o.Scored? {
      var m := CalculateSimilarity(extract(upload.value), jobDescription, stop, cosine);
      assert 0.0 <= cosine(m.resumeProcessed, m.jobProcessed) <= 1.0;
    }
  }

  /** A scorer that finds the same pair more similar never gives a worse
      verdict. */
  lemma VerdictMonotone<D>(upload: D, jobDescription: string, extract: D -> string,
                           stop: set<string>, cosine: (string, string) -> real,
                           cosine': (string, string) -> real)
    requires forall x, y :: cosine(x, y) <= cosine'(x, y)
    ensures var o := Analyze(true, Some(upload), jobDescription, extract, stop, cosine);
      var o' := Analyze(true, Some(upload), jobDescription, extract, stop, cosine');
      o.Scored? ==> o'.Scored? && VerdictLevel(o.verdict) <= VerdictLevel(o'.verdict)
  {
    var o := Analyze(true, Some(upload), jobDescription, extract, stop, cosine);
    var o' := Analyze(true, Some(upload), jobDescription, extract, stop, cosine');
    if o.Scored? {
      var m := CalculateSimilarity(extract(upload), jobDescription, stop, cosine);
      var m' := CalculateSimilarity(extract(upload), jobDescription, stop, cosine');
      assert m'.resumeProcessed == m.resumeProcessed && m'.jobProcessed == m.jobProcessed;
      HundredthsMonotone(cosine(m.resumeProcessed, m.jobProcessed), cosine'(m.resumeProcessed, m.jobProcessed));
      BandMonotone(m.score, m'.score);
    }
  }
}
