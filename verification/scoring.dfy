/**
 * The scoring half of the ATS analysis panel (`ATSAnalysis` in
 * components/ats-analysis.tsx): the per-category match percentage, the
 * "found" and "missing" keyword lists shown for each category, the overall
 * score and the three-way tier that picks colour, icon, background and
 * advisory message.
 */
module Scoring {
  import opened Seqs
  import opened Text
  import opened Extraction

  /** `r.includes(k) || k.includes(r)`: containment in either direction. */
  predicate Related(r: string, k: string) {
    Contains(r, k) || Contains(k, r)
  }

  /** The containment test does not care which side is the resume keyword. */
  lemma RelatedSymmetric(a: string, b: string)
    ensures Related(a, b) <==> Related(b, a)
  {
  }

  /** Equal keywords are always related, so a job keyword the resume repeats is matched. */
  lemma RelatedReflexive(a: string)
    ensures Related(a, a)
  {
    assert OccursAt(a, a, 0);
  }

  /** `resumeCat.some((r) => r.includes(k) || k.includes(r))`. */
  predicate HasMatch(k: string, resume: seq<string>) {
    exists i :: 0 <= i < |resume| && Related(resume[i], k)
  }

  function MatchTest(resume: seq<string>): string -> bool {
    k => HasMatch(k, resume)
  }

  function GapTest(resume: seq<string>): string -> bool {
    k => !HasMatch(k, resume)
  }

  /** The job keywords with a related resume keyword, in job order. */
  function Matched(job: seq<string>, resume: seq<string>): (r: seq<string>)
    ensures forall k :: k in r <==> k in job && HasMatch(k, resume)
  {
    Filter(MatchTest(resume), job)
  }

  /** The job keywords without any related resume keyword, in job order. */
  function Missing(job: seq<string>, resume: seq<string>): (r: seq<string>)
    ensures forall k :: k in r <==> k in job && !HasMatch(k, resume)
  {
    Filter(GapTest(resume), job)
  }

  /** Every job keyword is either matched or missing, never both. */
  lemma MatchedPlusMissing(job: seq<string>, resume: seq<string>)
    ensures |Matched(job, resume)| + |Missing(job, resume)| == |job|
  {
    FilterPartition(MatchTest(resume), GapTest(resume), job);
  }

  lemma MulCancel(n: int, a: int, b: int)
    requires n > 0 && n * a < n * b
    ensures a < b
  {
  }

  /** Euclidean division has one quotient. */
  lemma DivUnique(a: int, d: int, q: int, rem: int)
    requires d > 0 && a == q * d + rem && 0 <= rem < d
    ensures a / d == q
  {
    var q2 := a / d;
    var r2 := a % d;
    assert a == q2 * d + r2;
    assert (q2 - q) * d == rem - r2;
    MulCancel(d, q2 - q, 1);
    MulCancel(d, -1, q2 - q);
  }

  /**
   * `Math.round(num / den)` on the exact quotient: the integer nearest to
   * `num / den`, halves rounding up.
   */
  function RoundHalfUp(num: int, den: int): (r: int)
    requires den > 0
    ensures den * (2 * r - 1) <= 2 * num < den * (2 * r + 1)
  {
    (2 * num + den) / (2 * den)
  }

  /** The rounded quotient is the only integer within one half of `num / den`. */
  lemma RoundHalfUpUnique(num: int, den: int, q: int)
    requires den > 0 && den * (2 * q - 1) <= 2 * num < den * (2 * q + 1)
    ensures RoundHalfUp(num, den) == q
  {
    var r := RoundHalfUp(num, den);
    MulCancel(den, 2 * r - 1, 2 * q + 1);
    MulCancel(den, 2 * q - 1, 2 * r + 1);
  }

  /** Rounding is monotone in the numerator. */
  lemma RoundHalfUpMonotone(a: int, b: int, den: int)
    requires den > 0 && a <= b
    ensures RoundHalfUp(a, den) <= RoundHalfUp(b, den)
  {
    var ra := RoundHalfUp(a, den);
    var rb := RoundHalfUp(b, den);
    MulCancel(den, 2 * ra - 1, 2 * rb + 1);
  }

  /** A share of `m` out of `n` rounds to a percentage between 0 and 100. */
  lemma PercentInRange(m: int, n: int)
    requires 0 <= m <= n && n > 0
    ensures 0 <= RoundHalfUp(100 * m, n) <= 100
  {
    var r := RoundHalfUp(100 * m, n);
    assert n * (2 * r - 1) <= 200 * m <= n * 200 < n * 201;
    MulCancel(n, 2 * r - 1, 201);
    assert n * 0 <= 200 * m < n * (2 * r + 1);
    MulCancel(n, 0, 2 * r + 1);
  }

  /** All `n` out of `n` is exactly 100 percent. */
  lemma PercentOfAll(n: int)
    requires n > 0
    ensures RoundHalfUp(100 * n, n) == 100
  {
    DivUnique(201 * n, 2 * n, 100, n);
  }

  /** None out of `n` is exactly 0 percent. */
  lemma PercentOfNone(n: int)
    requires n > 0
    ensures RoundHalfUp(0, n) == 0
  {
    DivUnique(n, 2 * n, 0, n);
  }

  /**
   * `calculateCategoryMatch(jobCat, resumeCat)`: 100 for an empty job list,
   * otherwise the percentage of job keywords matched, rounded half up.
   */
  function CategoryMatch(job: seq<string>, resume: seq<string>): (r: int)
    ensures 0 <= r <= 100
    ensures |job| == 0 ==> r == 100
    ensures |job| > 0 ==>
      |job| * (2 * r - 1) <= 200 * |Matched(job, resume)| < |job| * (2 * r + 1)
  {
    if |job| == 0 then 100
    else
      PercentInRange(|Matched(job, resume)|, |job|);
      RoundHalfUp(100 * |Matched(job, resume)|, |job|)
  }

  /** Every job keyword matched: full marks. */
  lemma CategoryMatchAllMatched(job: seq<string>, resume: seq<string>)
    requires forall i :: 0 <= i < |job| ==> HasMatch(job[i], resume)
    ensures CategoryMatch(job, resume) == 100
  {
    FilterKeepsAll(MatchTest(resume), job);
    if |job| > 0 {
      PercentOfAll(|job|);
    }
  }

  /** No job keyword matched: a score of 0, unless the job list is empty. */
  lemma CategoryMatchNoneMatched(job: seq<string>, resume: seq<string>)
    requires |job| > 0
    requires forall i :: 0 <= i < |job| ==> !HasMatch(job[i], resume)
    ensures CategoryMatch(job, resume) == 0
  {
    FilterDropsAll(MatchTest(resume), job);
    PercentOfNone(|job|);
  }

  /**
   * For job lists shorter than 200 (the extractor caps them at 10) the
   * percentage is 100 exactly when everything matched and 0 exactly when
   * nothing did.
   */
  lemma CategoryMatchExtremes(job: seq<string>, resume: seq<string>)
    requires 0 < |job| < 200
    ensures CategoryMatch(job, resume) == 100 <==> |Matched(job, resume)| == |job|
    ensures CategoryMatch(job, resume) == 0 <==> |Matched(job, resume)| == 0
  {
    var n := |job|;
    var m := |Matched(job, resume)|;
    var r := CategoryMatch(job, resume);
    if r == 100 {
      assert n * 199 <= 200 * m;
    }
    if r == 0 {
      assert 200 * m < n;
    }
    if m == n {
      PercentOfAll(n);
    }
    if m == 0 {
      PercentOfNone(n);
    }
  }

  /** Listing more resume keywords never lowers a category's percentage. */
  lemma CategoryMatchMonotone(job: seq<string>, resume: seq<string>, more: seq<string>)
    ensures CategoryMatch(job, resume) <= CategoryMatch(job, resume + more)
  {
    if |job| > 0 {
      forall k | MatchTest(resume)(k)
        ensures MatchTest(resume + more)(k)
      {
        var i :| 0 <= i < |resume| && Related(resume[i], k);
        assert (resume + more)[i] == resume[i];
      }
      FilterMonotone(MatchTest(resume), MatchTest(resume + more), job);
      RoundHalfUpMonotone(100 * |Matched(job, resume)|, 100 * |Matched(job, resume + more)|, |job|);
    }
  }

  /** How many missing keywords each category shows. */
  function MissingCap(c: Category): nat {
    match c
    case Technical => 6
    case Soft => 4
    case Industry => 4
  }

  /** How many found keywords each category shows. */
  function FoundCap(c: Category): nat {
    match c
    case Technical => 8
    case Soft => 6
    case Industry => 6
  }

  /** `Math.round((technical + soft + industry) / 3)`. */
  function Overall(technical: int, soft: int, industry: int): (r: int)
    ensures 3 * (2 * r - 1) <= 2 * (technical + soft + industry) < 3 * (2 * r + 1)
  {
    RoundHalfUp(technical + soft + industry, 3)
  }

  function Min3(a: int, b: int, c: int): int {
    if a <= b && a <= c then a else if b <= c then b else c
  }

  function Max3(a: int, b: int, c: int): int {
    if a >= b && a >= c then a else if b >= c then b else c
  }

  /** The overall score lies between the lowest and the highest category score. */
  lemma OverallBetween(t: int, s: int, i: int)
    ensures Min3(t, s, i) <= Overall(t, s, i) <= Max3(t, s, i)
  {
  }

  lemma OverallInRange(t: int, s: int, i: int)
    requires 0 <= t <= 100 && 0 <= s <= 100 && 0 <= i <= 100
    ensures 0 <= Overall(t, s, i) <= 100
    ensures t == 100 && s == 100 && i == 100 ==> Overall(t, s, i) == 100
  {
    OverallBetween(t, s, i);
  }

  /** The band a score falls in, which chooses colour, icon, background and message. */
  datatype Tier = Strong | Moderate | Weak

  /** `getScoreColor` / `getScoreIcon` / `getScoreBg`: thresholds at 70 and 50. */
  function TierOf(score: int): (t: Tier)
    ensures t == Strong <==> score >= 70
    ensures t == Moderate <==> 50 <= score < 70
    ensures t == Weak <==> score < 50
  {
    if score >= 70 then Strong
    else if score >= 50 then Moderate
    else Weak
  }

  const StrongMessage: string := "Excellent! Your resume is well-optimized for ATS systems."
  const ModerateMessage: string := "Good match. Consider adding more relevant keywords."
  const WeakMessage: string := "Consider incorporating more keywords from the job description."

  function Message(t: Tier): string {
    match t
    case Strong => StrongMessage
    case Moderate => ModerateMessage
    case Weak => WeakMessage
  }

  /**
   * The advisory paragraph as rendered: three independent conditions, each
   * contributing its sentence when it holds.
   */
  function AdvisoryText(score: int): string {
    (if score >= 70 then StrongMessage else "")
    + (if score >= 50 && score < 70 then ModerateMessage else "")
    + (if score < 50 then WeakMessage else "")
  }

  /** Exactly one of the three conditions holds, and it is the one the tier picks. */
  lemma AdvisoryTextIsTierMessage(score: int)
    ensures AdvisoryText(score) == Message(TierOf(score))
  {
    if score >= 70 {
      assert AdvisoryText(score) == StrongMessage + "" + "";
    } else if score >= 50 {
      assert AdvisoryText(score) == "" + ModerateMessage + "";
    } else {
      assert AdvisoryText(score) == "" + "" + WeakMessage;
    }
  }

  /** What the panel shows for one category. */
  datatype CategoryScore = CategoryScore(percentage: int, found: seq<string>, missing: seq<string>)

  /** Everything the panel shows. */
  datatype Report = Report(
    technical: CategoryScore,
    soft: CategoryScore,
    industry: CategoryScore,
    overall: int,
    tier: Tier)
  {
    function Get(c: Category): CategoryScore {
      match c
      case Technical => technical
      case Soft => soft
      case Industry => industry
    }
  }

  function ScoreCategory(job: Keywords, resume: Keywords, c: Category): (s: CategoryScore)
    ensures s.percentage == CategoryMatch(job.Get(c), resume.Get(c)) && 0 <= s.percentage <= 100
    ensures |s.found| <= FoundCap(c) && |s.found| <= |resume.Get(c)|
    ensures s.found == resume.Get(c)[..|s.found|]
    ensures |s.found| == FoundCap(c) || s.found == resume.Get(c)
    ensures |s.missing| <= MissingCap(c) && |s.missing| <= |Missing(job.Get(c), resume.Get(c))|
    ensures s.missing == Missing(job.Get(c), resume.Get(c))[..|s.missing|]
    ensures |s.missing| == MissingCap(c) || s.missing == Missing(job.Get(c), resume.Get(c))
  {
    CategoryScore(
      CategoryMatch(job.Get(c), resume.Get(c)),
      Take(resume.Get(c), FoundCap(c)),
      Take(Missing(job.Get(c), resume.Get(c)), MissingCap(c)))
  }

  /** `(summary + " " + bullets.join(" ")).toLowerCase()`. */
  function ResumeText(summary: string, bullets: seq<string>): (r: string)
    ensures r == Lower(summary) + " " + Lower(Join(bullets, " "))
    ensures Lower(r) == r
  {
    var raw := summary + " " + Join(bullets, " ");
    LowerConcat(summary + " ", Join(bullets, " "));
    LowerConcat(summary, " ");
    assert Lower(" ") == " ";
    LowerIdempotent(raw);
    Lower(raw)
  }

  /**
   * The report on three category scores: the overall score is their rounded
   * mean, and the tier is chosen by the overall score.
   */
  function ReportOf(t: CategoryScore, s: CategoryScore, i: CategoryScore): (r: Report)
    requires 0 <= t.percentage <= 100 && 0 <= s.percentage <= 100 && 0 <= i.percentage <= 100
    ensures r.technical == t && r.soft == s && r.industry == i
    ensures 0 <= r.overall <= 100
    ensures Min3(t.percentage, s.percentage, i.percentage) <= r.overall
    ensures r.overall <= Max3(t.percentage, s.percentage, i.percentage)
    ensures 3 * (2 * r.overall - 1) <= 2 * (t.percentage + s.percentage + i.percentage) < 3 * (2 * r.overall + 1)
    ensures r.tier == Strong <==> r.overall >= 70
    ensures r.tier == Moderate <==> 50 <= r.overall < 70
    ensures r.tier == Weak <==> r.overall < 50
  {
    var overall := Overall(t.percentage, s.percentage, i.percentage);
    OverallInRange(t.percentage, s.percentage, i.percentage);
    OverallBetween(t.percentage, s.percentage, i.percentage);
    Report(t, s, i, overall, TierOf(overall))
  }

  /** The report for already extracted job and resume keywords. */
  function Assemble(job: Keywords, resume: Keywords): (r: Report)
    ensures forall c :: r.Get(c) == ScoreCategory(job, resume, c)
    ensures 0 <= r.technical.percentage <= 100
    ensures 0 <= r.soft.percentage <= 100
    ensures 0 <= r.industry.percentage <= 100
    ensures 0 <= r.overall <= 100
    ensures Min3(r.technical.percentage, r.soft.percentage, r.industry.percentage) <= r.overall
    ensures r.overall <= Max3(r.technical.percentage, r.soft.percentage, r.industry.percentage)
    ensures 3 * (2 * r.overall - 1)
      <= 2 * (r.technical.percentage + r.soft.percentage + r.industry.percentage)
      < 3 * (2 * r.overall + 1)
    ensures r.tier == Strong <==> r.overall >= 70
    ensures r.tier == Moderate <==> 50 <= r.overall < 70
    ensures r.tier == Weak <==> r.overall < 50
  {
    ReportOf(
      ScoreCategory(job, resume, Technical),
      ScoreCategory(job, resume, Soft),
      ScoreCategory(job, resume, Industry))
  }

  /**
   * The whole analysis of one generated resume against one job description.
   * The resume text is lower-cased before extraction, which lower-cases
   * anyway: the report is the one for the raw concatenation.
   */
  function Analyze(summary: string, bullets: seq<string>, jobDescription: string): (r: Report)
    ensures r == Assemble(Extract(jobDescription), Extract(summary + " " + Join(bullets, " ")))
  {
    ExtractIgnoresCase(summary + " " + Join(bullets, " "));
    Assemble(Extract(jobDescription), Extract(ResumeText(summary, bullets)))
  }

  /** Every category at 100 with nothing missing, an overall score of 100, and the strong tier. */
  predicate FullMarks(r: Report) {
    && (forall c :: r.Get(c).percentage == 100 && r.Get(c).missing == [])
    && r.overall == 100
    && r.tier == Strong
  }

  /**
   * A job description without word characters expects nothing: every category
   * scores 100, nothing is missing, and the overall tier is strong.
   */
  lemma AnalyzeWithoutJobWords(summary: string, bullets: seq<string>, jobDescription: string)
    requires forall i :: 0 <= i < |jobDescription| ==> !IsWordChar(jobDescription[i])
    ensures FullMarks(Analyze(summary, bullets, jobDescription))
  {
    AnalyzeWithoutJobKeywords(summary, bullets, jobDescription);
    AssembleWithoutJobKeywords(Extract(summary + " " + Join(bullets, " ")));
  }

  lemma AnalyzeWithoutJobKeywords(summary: string, bullets: seq<string>, jobDescription: string)
    requires forall i :: 0 <= i < |jobDescription| ==> !IsWordChar(jobDescription[i])
    ensures Analyze(summary, bullets, jobDescription)
      == Assemble(Keywords([], [], []), Extract(summary + " " + Join(bullets, " ")))
  {
    ExtractWithoutWords(jobDescription);
  }

  /** Three empty job lists give full marks, whatever the resume holds. */
  lemma AssembleWithoutJobKeywords(resume: Keywords)
    ensures FullMarks(Assemble(Keywords([], [], []), resume))
  {
    var job := Keywords([], [], []);
    var r := Assemble(job, resume);
    forall c
      ensures r.Get(c).percentage == 100 && r.Get(c).missing == []
    {
      ScoreCategoryOfEmptyJob(resume, c);
    }
    assert r.technical.percentage == 100 && r.soft.percentage == 100 && r.industry.percentage == 100 by {
      assert r.technical == r.Get(Technical) && r.soft == r.Get(Soft) && r.industry == r.Get(Industry);
    }
  }

  lemma ScoreCategoryOfEmptyJob(resume: Keywords, c: Category)
    ensures ScoreCategory(Keywords([], [], []), resume, c).percentage == 100
    ensures ScoreCategory(Keywords([], [], []), resume, c).missing == []
  {
    assert Keywords([], [], []).Get(c) == [];
  }
}
