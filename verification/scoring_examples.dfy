/**
 * Worked inputs for the scoring half of the panel: the rounding of the
 * overall score at its tie-free edges, and a job whose only keywords are
 * technical ones the resume lacks.
 */
module ScoringExamples {
  import opened Seqs
  import opened Extraction
  import opened Scoring

  /** 211 / 3 is 70.33, which rounds down. */
  lemma OverallRoundsDown()
    ensures Overall(70, 70, 71) == 70
  {
    RoundHalfUpUnique(211, 3, 70);
  }

  /** 212 / 3 is 70.67, which rounds up. */
  lemma OverallRoundsUp()
    ensures Overall(70, 71, 71) == 71
  {
    RoundHalfUpUnique(212, 3, 71);
  }

  /** Two full categories and an empty one average 66.67, shown as 67. */
  lemma OverallOfTwoFullCategories()
    ensures Overall(0, 100, 100) == 67
  {
    RoundHalfUpUnique(200, 3, 67);
  }

  /** No resume keyword at all: each technical job keyword is missing. */
  lemma TechnicalGapsAreMissing()
    ensures Missing(["python", "docker", "kubernetes"], []) == ["python", "docker", "kubernetes"]
    ensures CategoryMatch(["python", "docker", "kubernetes"], []) == 0
  {
    var job: seq<string> := ["python", "docker", "kubernetes"];
    assert forall i :: 0 <= i < |job| ==> !HasMatch(job[i], []);
    FilterKeepsAll(GapTest([]), job);
    CategoryMatchNoneMatched(job, []);
  }

  /**
   * A job whose only keywords are technical ones, none of them matched,
   * scores 0 on the technical category but 100 on the two empty ones: the
   * overall score is 67 and the tier is moderate, not weak. Every technical
   * keyword is reported missing, up to the display cap.
   */
  lemma OnlyUnmatchedTechnicalIsModerate(tech: seq<string>, resume: Keywords)
    requires |tech| > 0
    requires forall i :: 0 <= i < |tech| ==> !HasMatch(tech[i], resume.technical)
    ensures Assemble(Keywords(tech, [], []), resume).technical.percentage == 0
    ensures Assemble(Keywords(tech, [], []), resume).technical.missing == Take(tech, MissingCap(Technical))
    ensures Assemble(Keywords(tech, [], []), resume).overall == 67
    ensures Assemble(Keywords(tech, [], []), resume).tier == Moderate
  {
    var job := Keywords(tech, [], []);
    assert job.Get(Technical) == tech && resume.Get(Technical) == resume.technical;
    CategoryMatchNoneMatched(tech, resume.technical);
    FilterKeepsAll(GapTest(resume.technical), tech);
    ScoreCategoryOfEmptyJob(resume, Soft);
    ScoreCategoryOfEmptyJob(resume, Industry);
    assert job.Get(Soft) == [] && job.Get(Industry) == [];
    OverallOfTwoFullCategories();
  }
}
