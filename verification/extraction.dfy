/**
 * The keyword extractor of the ATS analysis panel: `extractKeywords` in
 * components/ats-analysis.tsx. Text is lower-cased, punctuation becomes a
 * token separator, tokens of two characters or fewer are dropped, and each of
 * three fixed vocabularies keeps the tokens containing one of its patterns,
 * de-duplicated and capped.
 */
module Extraction {
  import opened Seqs
  import opened Text

  const TechnicalPatterns: seq<string> := [
    "react", "javascript", "typescript", "python", "java", "sql", "aws",
    "docker", "kubernetes", "node", "express", "mongodb", "postgresql", "git",
    "agile", "scrum", "api", "rest", "graphql", "html", "css", "tailwind",
    "bootstrap", "vue", "angular", "next", "nuxt", "firebase", "azure"
  ]

  const SoftSkillPatterns: seq<string> := [
    "leadership", "management", "communication", "collaboration", "teamwork",
    "problem-solving", "analytical", "creative", "strategic", "organized",
    "detail-oriented", "adaptable"
  ]

  const IndustryPatterns: seq<string> := [
    "marketing", "sales", "finance", "accounting", "healthcare", "education",
    "consulting", "engineering", "design", "product", "project", "business",
    "operations", "strategy"
  ]

  datatype Category = Technical | Soft | Industry

  function Patterns(c: Category): seq<string> {
    match c
    case Technical => TechnicalPatterns
    case Soft => SoftSkillPatterns
    case Industry => IndustryPatterns
  }

  /** How many distinct keywords of a category the extractor keeps. */
  function Cap(c: Category): nat {
    match c
    case Technical => 10
    case Soft => 8
    case Industry => 8
  }

  /** The extractor's result: one keyword list per category. */
  datatype Keywords = Keywords(technical: seq<string>, soft: seq<string>, industry: seq<string>) {
    function Get(c: Category): seq<string> {
      match c
      case Technical => technical
      case Soft => soft
      case Industry => industry
    }
  }

  /** `some pattern of patterns is included in w`. */
  predicate HasPattern(w: string, patterns: seq<string>) {
    exists i :: 0 <= i < |patterns| && Contains(w, patterns[i])
  }

  predicate IsTechnical(w: string) {
    HasPattern(w, TechnicalPatterns)
  }

  predicate IsSoftSkill(w: string) {
    HasPattern(w, SoftSkillPatterns)
  }

  predicate IsIndustryTerm(w: string) {
    HasPattern(w, IndustryPatterns)
  }

  /** The token test of a category, as a value that `Filter` can apply. */
  function Classifier(c: Category): (f: string -> bool)
    ensures forall w :: f(w) <==> HasPattern(w, Patterns(c))
  {
    match c
    case Technical => IsTechnical
    case Soft => IsSoftSkill
    case Industry => IsIndustryTerm
  }

  /** A character that may survive normalisation inside a token. */
  predicate IsLowerWordChar(c: char) {
    IsWordChar(c) && !IsUpper(c)
  }

  /**
   * `text.toLowerCase().replace(/[^\w\s]/g, " ")`: every character is
   * lower-cased, and every character that is then neither a word character nor
   * white space becomes one space.
   */
  function Normalize(text: string): (r: string)
    ensures |r| == |text|
    ensures forall i :: 0 <= i < |r| ==> IsLowerWordChar(r[i]) || IsSpace(r[i])
    ensures forall i :: 0 <= i < |r| ==> (IsLowerWordChar(r[i]) <==> IsWordChar(text[i]))
    ensures forall i :: 0 <= i < |r| && IsWordChar(text[i]) ==> r[i] == LowerChar(text[i])
    ensures forall i :: 0 <= i < |r| && IsSpace(text[i]) ==> r[i] == text[i]
    ensures forall i :: 0 <= i < |r| && !IsWordChar(text[i]) && !IsSpace(text[i]) ==> r[i] == ' '
  {
    var lower := Lower(text);
    seq(|lower|, i requires 0 <= i < |lower| =>
      if IsWordChar(lower[i]) || IsSpace(lower[i]) then lower[i] else ' ')
  }

  /** Tokens of more than two characters survive: `filter((word) => word.length > 2)`. */
  predicate IsLong(w: string) {
    |w| > 2
  }

  /** The tokens the extractor looks at, in text order, repetitions included. */
  function Words(text: string): seq<string> {
    Filter(IsLong, SplitRuns(Normalize(text)))
  }

  /** The tokens of `text` that a category's test keeps, before de-duplication. */
  function Candidates(text: string, c: Category): seq<string> {
    Filter(Classifier(c), Words(text))
  }

  /** One category list: `[...new Set(matches)].slice(0, cap)`. */
  function CategoryKeywords(text: string, c: Category): (r: seq<string>)
    ensures |r| <= Cap(c) && Distinct(r)
    ensures InFirstOccurrenceOrder(r, Candidates(text, c))
  {
    DedupPrefixInOrder(Candidates(text, c), Cap(c));
    Take(Dedup(Candidates(text, c)), Cap(c))
  }

  /** `extractKeywords(text)`. */
  function Extract(text: string): (r: Keywords)
    ensures |r.technical| <= 10 && |r.soft| <= 8 && |r.industry| <= 8
    ensures Distinct(r.technical) && Distinct(r.soft) && Distinct(r.industry)
    ensures InFirstOccurrenceOrder(r.technical, Candidates(text, Technical))
    ensures InFirstOccurrenceOrder(r.soft, Candidates(text, Soft))
    ensures InFirstOccurrenceOrder(r.industry, Candidates(text, Industry))
  {
    Keywords(
      CategoryKeywords(text, Technical),
      CategoryKeywords(text, Soft),
      CategoryKeywords(text, Industry))
  }

  /** Every keyword is a long, lower-case, word-only token of the text that matches its category. */
  ghost predicate IsKeywordOf(k: string, text: string, c: Category) {
    && k in SplitRuns(Normalize(text))
    && |k| >= 3
    && (forall i :: 0 <= i < |k| ==> IsLowerWordChar(k[i]))
    && HasPattern(k, Patterns(c))
  }

  /** A keyword of a category list is one of that category's candidate tokens. */
  lemma KeywordIsCandidate(text: string, c: Category, k: string)
    requires k in Extract(text).Get(c)
    ensures k in Candidates(text, c)
  {
    var r := CategoryKeywords(text, c);
    assert Extract(text).Get(c) == r by {
      match c
      case Technical =>
      case Soft =>
      case Industry =>
    }
    var d := Dedup(Candidates(text, c));
    assert r == d[..|r|];
    assert k in d;
  }

  /** Every token consists of lower-case word characters only. */
  lemma TokenIsLowerWord(text: string, k: string)
    requires k in SplitRuns(Normalize(text))
    ensures forall i :: 0 <= i < |k| ==> IsLowerWordChar(k[i])
  {
    var tokens := SplitRuns(Normalize(text));
    var t :| 0 <= t < |tokens| && tokens[t] == k;
    forall i | 0 <= i < |k|
      ensures IsLowerWordChar(k[i])
    {
      assert !IsSpace(tokens[t][i]);
    }
  }

  lemma ExtractSound(text: string, c: Category, k: string)
    requires k in Extract(text).Get(c)
    ensures IsKeywordOf(k, text, c)
  {
    KeywordIsCandidate(text, c, k);
    assert Classifier(c)(k);
    assert k in Words(text);
    TokenIsLowerWord(text, k);
  }

  /**
   * The extractor misses a matching token only when its category list is
   * already full, and then every kept keyword first occurs before it: the
   * list holds the first `Cap(c)` distinct matches.
   */
  lemma ExtractComplete(text: string, c: Category, w: string)
    requires w in Words(text) && HasPattern(w, Patterns(c))
    ensures w in Candidates(text, c)
    ensures w in Extract(text).Get(c) || |Extract(text).Get(c)| == Cap(c)
    ensures w !in Extract(text).Get(c) ==>
      forall i :: 0 <= i < |Extract(text).Get(c)| ==>
        FirstIndex(Candidates(text, c), Extract(text).Get(c)[i]) < FirstIndex(Candidates(text, c), w)
  {
    var cands := Candidates(text, c);
    assert w in cands;
    assert Extract(text).Get(c) == Take(Dedup(cands), Cap(c)) by {
      match c
      case Technical =>
      case Soft =>
      case Industry =>
    }
    if w !in Extract(text).Get(c) {
      DedupPrefixKeepsEarliest(cands, Cap(c), w);
    }
  }

  /**
   * Each category list is ordered by first occurrence among that category's
   * matching tokens: the order clauses of `Extract`, restated for a category
   * chosen by `Get`.
   */
  lemma ExtractKeepsFirstOccurrenceOrder(text: string, c: Category)
    ensures forall i, j :: 0 <= i < j < |Extract(text).Get(c)| ==>
      && Extract(text).Get(c)[i] in Candidates(text, c)
      && Extract(text).Get(c)[j] in Candidates(text, c)
      && FirstIndex(Candidates(text, c), Extract(text).Get(c)[i])
         < FirstIndex(Candidates(text, c), Extract(text).Get(c)[j])
  {
    var cands := Candidates(text, c);
    var l := Extract(text).Get(c);
    assert l == Take(Dedup(cands), Cap(c)) by {
      match c
      case Technical =>
      case Soft =>
      case Industry =>
    }
    DedupPrefixInOrder(cands, Cap(c));
  }

  /** Where normalisation left lower-case word characters, it agrees with lower-casing. */
  lemma NormalizedWordIsLowered(text: string, k: string, lo: int)
    requires OccursAt(Normalize(text), k, lo)
    requires forall i :: 0 <= i < |k| ==> IsLowerWordChar(k[i])
    ensures OccursAt(Lower(text), k, lo)
  {
    var norm := Normalize(text);
    var lower := Lower(text);
    forall i | 0 <= i < |k|
      ensures lower[lo + i] == k[i]
    {
      assert norm[lo + i] == k[i];
    }
  }

  /**
   * Every keyword is a lower-cased piece of the text: it occurs, as it is, in
   * the lower-cased input.
   */
  lemma KeywordOccursInLowerText(text: string, c: Category, k: string)
    requires k in Extract(text).Get(c)
    ensures Contains(Lower(text), k)
  {
    ExtractSound(text, c, k);
    var norm := Normalize(text);
    var tokens := SplitRuns(norm);
    SplitRunsPiecesOccur(norm);
    var t :| 0 <= t < |tokens| && tokens[t] == k;
    assert Contains(norm, k);
    var lo :| 0 <= lo <= |norm| - |k| && OccursAt(norm, k, lo);
    NormalizedWordIsLowered(text, k, lo);
  }

  /** Text without a single word character yields three empty lists. */
  lemma ExtractWithoutWords(text: string)
    requires forall i :: 0 <= i < |text| ==> !IsWordChar(text[i])
    ensures Extract(text) == Keywords([], [], [])
  {
    var tokens := SplitRuns(Normalize(text));
    SplitRunsOfSpace(Normalize(text));
    FilterDropsAll(IsLong, tokens);
  }

  lemma ExtractOfEmpty()
    ensures Extract("") == Keywords([], [], [])
  {
    ExtractWithoutWords("");
  }

  /** Normalisation lower-cases first, so lower-casing beforehand changes nothing. */
  lemma NormalizeIgnoresCase(text: string)
    ensures Normalize(Lower(text)) == Normalize(text)
  {
    LowerIdempotent(text);
  }

  /**
   * Extraction is insensitive to lower-casing its input, so the extra
   * `toLowerCase()` applied to the resume text changes no keyword.
   */
  lemma ExtractIgnoresCase(text: string)
    ensures Extract(Lower(text)) == Extract(text)
  {
    NormalizeIgnoresCase(text);
  }

  /**
   * No keyword contains `-`, because normalisation turns `-` into a space. The
   * two soft-skill patterns with a hyphen therefore never make a token match.
   */
  lemma HyphenatedPatternsNeverMatch(text: string, k: string)
    requires k in Extract(text).Get(Soft)
    ensures '-' !in k
    ensures !Contains(k, "problem-solving") && !Contains(k, "detail-oriented")
  {
    ExtractSound(text, Soft, k);
    assert !IsLowerWordChar('-');
    ContainsCarriesChars(k, "problem-solving", '-');
    ContainsCarriesChars(k, "detail-oriented", '-');
  }
}
