/**
 * The preprocessing half of `calculate_similarity` (app.py:66-72). The
 * TF-IDF vectorisation and cosine similarity (app.py:69-71) are a
 * parameter: a function from the two processed texts to a real number.
 * The percentage is rounded to two decimals (app.py:72) and represented
 * exactly, as an integer number of hundredths.
 */
module Similarity {
  import opened Text
  import opened Normaliser

  /** Python's `round` to an integer on an exact value: the nearest
      integer, and of two equally near the even one. */
  function RoundHalfEven(x: real): (n: int)
    ensures -0.5 <= x - n as real <= 0.5
    ensures (x - n as real == 0.5 || n as real - x == 0.5) ==> n % 2 == 0
  {
    var f := x.Floor;
    var d := x - f as real;
    if d < 0.5 then f
    else if d > 0.5 then f + 1
    else if f % 2 == 0 then f
    else f + 1
  }

  /** `round(similarity * 100, 2)` (app.py:72) in hundredths: the cosine
      scaled to a percentage, rounded to the nearest hundredth. */
  function Hundredths(cos: real): (h: int)
    ensures -0.5 <= cos * 10000.0 - h as real <= 0.5
    ensures 0.0 <= cos <= 1.0 ==> 0 <= h <= 10000
    ensures cos == 1.0 ==> h == 10000
    ensures cos == 0.0 ==> h == 0
  {
    RoundHalfEven(cos * 100.0 * 100.0)
  }

  /** The three values `calculate_similarity` returns, in order: the score
      in hundredths of a percent and the two processed texts. */
  datatype Match = Match(score: int, resumeProcessed: string, jobProcessed: string)

  /** `calculate_similarity(resume_text, job_description)` with the stop
      set and the cosine similarity of the two processed texts given. */
  function CalculateSimilarity(resumeText: string, jobDescription: string, stop: set<string>,
                               cosine: (string, string) -> real): (m: Match)
    ensures m.resumeProcessed == RemoveStopwords(CleanText(resumeText), stop)
    ensures m.jobProcessed == RemoveStopwords(CleanText(jobDescription), stop)
    ensures Clean(m.resumeProcessed) && Clean(m.jobProcessed)
    ensures m.score == Hundredths(cosine(m.resumeProcessed, m.jobProcessed))
  {
    var resumeProcessed := Normalize(resumeText, stop);
    var jobProcessed := Normalize(jobDescription, stop);
    Match(Hundredths(cosine(resumeProcessed, jobProcessed)), resumeProcessed, jobProcessed)
  }

  /** Rounding never reverses the order of two values. */
  lemma RoundHalfEvenMonotone(x: real, y: real)
    requires x <= y
    ensures RoundHalfEven(x) <= RoundHalfEven(y)
  {
  }

  /** The scorer only sees processed texts: feeding it texts that are
      already processed gives the same result. */
  lemma SimilarityOfProcessed(resumeText: string, jobDescription: string, stop: set<string>,
                              cosine: (string, string) -> real)
    ensures var m := CalculateSimilarity(resumeText, jobDescription, stop, cosine);
      CalculateSimilarity(m.resumeProcessed, m.jobProcessed, stop, cosine) == m
  {
    NormalizeIdempotent(resumeText, stop);
    NormalizeIdempotent(jobDescription, stop);
  }

  /** Swapping résumé and job description swaps the two processed texts,
      and a symmetric cosine gives the same score. */
  lemma SimilaritySymmetric(a: string, b: string, stop: set<string>, cosine: (string, string) -> real)
    requires forall x, y :: cosine(x, y) == cosine(y, x)
    ensures CalculateSimilarity(b, a, stop, cosine).resumeProcessed == CalculateSimilarity(a, b, stop, cosine).jobProcessed
    ensures CalculateSimilarity(b, a, stop, cosine).jobProcessed == CalculateSimilarity(a, b, stop, cosine).resumeProcessed
    ensures CalculateSimilarity(a, b, stop, cosine).score == CalculateSimilarity(b, a, stop, cosine).score
  {
    var x, y := Normalize(a, stop), Normalize(b, stop);
    assert cosine(x, y) == cosine(y, x);
  }

  /** A more similar pair never scores lower. */
  lemma HundredthsMonotone(c: real, d: real)
    requires c <= d
    ensures Hundredths(c) <= Hundredths(d)
  {
    RoundHalfEvenMonotone(c * 100.0 * 100.0, d * 100.0 * 100.0);
  }

  /** A text scored against itself is compared with its own processed
      form on both sides, and reads as 100.00 when the scorer finds that
      form identical to itself. */
  lemma SelfMatchIsHundred(a: string, stop: set<string>, cosine: (string, string) -> real)
    requires cosine(Normalize(a, stop), Normalize(a, stop)) == 1.0
    ensures CalculateSimilarity(a, a, stop, cosine).resumeProcessed == CalculateSimilarity(a, a, stop, cosine).jobProcessed
    ensures CalculateSimilarity(a, a, stop, cosine).score == 10000
  {
  }
}
