# ATS keyword matching, modelled in Dafny

This project models the keyword-matching engine of the AI resume builder's
ATS analysis panel. It also models the fallback text splitters of the
resume-generation route.

- **Extraction** is `extractKeywords`. A text is lower-cased and punctuation
  becomes white space. The text is split on runs of white space, and tokens of
  two characters or fewer are dropped. Three fixed vocabularies (technical,
  soft skills, industry) then keep the tokens that contain one of their
  patterns. Each list is de-duplicated in first-occurrence order and capped at
  10, 8 and 8 entries.
- **Scoring** covers three parts:
  - `calculateCategoryMatch`: an empty job list scores 100. Otherwise the score
    is the rounded percentage of job keywords that have a resume keyword
    related by containment in either direction.
  - The panel's "found" lists (8, 6 and 6 entries) and "missing" lists (6, 4
    and 4 entries).
  - The overall score, which is the rounded mean of the three category scores.
    Thresholds at 70 and 50 split it into three tiers, and each tier chooses a
    colour, icon, background and advisory message.
- **Fallback** models the route's `catch` branches. They run when the reply is
  not valid JSON, so that `JSON.parse` throws. They recover bullets and
  keywords by splitting on delimiter characters, trimming, filtering and
  capping.

Modules:

- `Seqs` (seqs.dfy) defines filter, map, prefix and `Set`-style
  de-duplication.
- `Text` (text.dfy) covers:
  - JavaScript's `\s` and `\w` classes and ASCII lower-casing;
  - `includes`, single-class `split` and `split(/\s+/)`;
  - `join` and `trim`.
- `Extraction` (extraction.dfy) is the keyword extractor.
- `Scoring` (scoring.dfy) covers percentages, lists, the overall score, tiers
  and the report.
- `Fallback` (fallback.dfy) holds the route's splitters.
- `FallbackExamples` and `ScoringExamples` hold worked inputs.

Percentages use exact integer arithmetic. `Math.round(x / n)` is modelled as
`(2x + n) / (2n)`, which is half-up rounding of the exact quotient. Job lists
hold at most 10 keywords, so every tie (an eighth) is exact in binary floating
point, and the integer model agrees with the float code.

A job whose only keywords are technical ones that the resume lacks does **not**
land in the weak tier. Its two empty categories score 100 each, so the overall
score is round(200/3) = 67, which is moderate. `ScoringExamples.OnlyUnmatchedTechnicalIsModerate`
proves this.

## Model

| member | source | states |
|---|---|---|
| Seqs.Filter | components/ats-analysis.tsx:92-94 | `filter` keeps exactly the elements that pass the test, and no more elements than it was given. |
| Seqs.FilterConcat | components/ats-analysis.tsx:92-94 | Filtering a concatenation filters each part, in order. |
| Seqs.FilterPartition | components/ats-analysis.tsx:215-216 | Two complementary tests split a list between them: the two results' lengths add up to the list's. |
| Seqs.Take | components/ats-analysis.tsx:97-99 | `slice(0, n)` is a prefix of the list. It has exactly n elements, or the whole list when that is shorter. |
| Seqs.DedupPrefixKeepsEarliest | components/ats-analysis.tsx:97-99 | `[...new Set(xs)].slice(0, n)` keeps the first n distinct elements. An element left out means the prefix is full, and every kept element first occurs before it. |
| Seqs.Map | app/api/generate-resume/route.ts:83 | `map` keeps the length and applies the function at every position. |
| Seqs.Dedup | components/ats-analysis.tsx:97-99 | `[...new Set(xs)]` is duplicate-free, no longer than its input, and has exactly the input's elements. |
| Seqs.DedupPrefixInOrder | components/ats-analysis.tsx:97-99 | `[...new Set(xs)].slice(0, n)` holds elements of `xs` only, in the order of their first occurrences. |
| Seqs.UniqueInOrder | components/ats-analysis.tsx:97-99 | The one-pass `Set` de-duplication computes exactly `Dedup`. `Dedup` is duplicate-free and has the same elements as its input. |
| Seqs.DedupKeepsFirstOccurrenceOrder | components/ats-analysis.tsx:97-99 | De-duplication lists elements in the order of their first occurrences in the input. |
| Seqs.DedupOfDistinct | components/ats-analysis.tsx:97-99 | A list that is already duplicate-free is left unchanged by `[...new Set]`. |
| Text.LowerChar | components/ats-analysis.tsx:20 | An upper-case ASCII letter becomes the lower-case letter at the same place in the alphabet. Every other character is kept. |
| Text.Lower | components/ats-analysis.tsx:20 | Lower-casing keeps the length and lower-cases each character on its own. |
| Text.LowerConcat | components/ats-analysis.tsx:104 | Lower-casing a concatenation lower-cases each part. |
| Text.LowerIdempotent | components/ats-analysis.tsx:104 | Lower-casing twice equals lower-casing once. |
| Text.SplitRuns | components/ats-analysis.tsx:22 | `split(/\s+/)` yields at least one piece. No piece holds white space, and every piece character comes from the input. Leading white space yields an empty first piece. |
| Text.SplitRunsFirstPiece | components/ats-analysis.tsx:22 | The first piece of `split(/\s+/)` is a prefix of the input. |
| Text.SplitRunsPiecesOccur | components/ats-analysis.tsx:22 | Every piece of `split(/\s+/)` occurs contiguously in the input, and the first piece starts it. |
| Text.SplitRunsAgreesWithSplit | components/ats-analysis.tsx:22 | Splitting on runs of white space and splitting on each white-space character agree once empty pieces are dropped. |
| Text.Split | app/api/generate-resume/route.ts:82 | Splitting on a character class yields one more piece than there are separators. No piece holds a separator. |
| Text.SplitRoundTrip | app/api/generate-resume/route.ts:82 | The pieces, glued back with the separators in order, rebuild the input exactly. |
| Text.SplitAfterPiece | app/api/generate-resume/route.ts:118 | A separator right after a separator-free piece ends that piece. |
| Text.SplitTrailingSeparator | app/api/generate-resume/route.ts:118 | A trailing separator adds one empty piece after the text before it. |
| Text.Join | components/ats-analysis.tsx:104 | `join` gives the empty string for no parts and the part itself for one part. Otherwise the result starts with the first part and ends with the last. |
| Text.JoinAppend | components/ats-analysis.tsx:104 | Appending a part to a non-empty list adds the separator and that part at the end of the joined string. With the single-part case this fixes `join` for any parts, including parts that contain the separator. |
| Text.SplitJoinRoundTrip | components/ats-analysis.tsx:104 | Joining parts with a one-character separator that none of them contains, then splitting on it, gives the parts back. |
| Text.SplitWithoutSeparators | app/api/generate-resume/route.ts:82 | Text without separators splits into itself. |
| Text.Trim | app/api/generate-resume/route.ts:83 | `trim` yields a string with no white space at either end. That string is a contiguous part of the input with only white space around it. |
| Text.TrimOfTrimmed | app/api/generate-resume/route.ts:83 | Trimming an already trimmed string leaves it unchanged. |
| Text.TrimSkipsLeadingSpace | app/api/generate-resume/route.ts:83 | A leading white-space character makes no difference to the trimmed result. |
| Text.TrimKeepsChars | app/api/generate-resume/route.ts:83 | Every character of a trimmed string comes from the input. |
| Extraction.Normalize | components/ats-analysis.tsx:20-21 | Normalisation keeps the length. A word character becomes its lower-case form and white space stays as it is. Every other character becomes a space. |
| Extraction.CategoryKeywords | components/ats-analysis.tsx:92-99 | One category list holds at most its cap of distinct keywords. They are candidates of that category, listed in the order of their first occurrences among the candidates. |
| Extraction.Extract | components/ats-analysis.tsx:18-101 | The three lists hold at most 10, 8 and 8 keywords, and each is duplicate-free. Each holds only candidates of its own category, ordered by first occurrence among them. |
| Extraction.ExtractSound | components/ats-analysis.tsx:19-94 | Every extracted keyword is a token of the normalised text with at least 3 characters. It consists only of lower-case word characters and contains a pattern of its own category. |
| Extraction.ExtractComplete | components/ats-analysis.tsx:92-99 | A long token that contains a category's pattern is a candidate of that category. It appears in the list, or else the list is at its cap and every listed keyword first occurs before it. So the list holds the first 10, 8 or 8 distinct matches. |
| Extraction.ExtractKeepsFirstOccurrenceOrder | components/ats-analysis.tsx:92-99 | For every category, an earlier keyword in the list first occurs earlier among the category's matching tokens. |
| Extraction.NormalizedWordIsLowered | components/ats-analysis.tsx:20-21 | Where normalisation left lower-case word characters, the lower-cased input holds the same characters. |
| Extraction.KeywordOccursInLowerText | components/ats-analysis.tsx:19-23 | Every keyword occurs, as it is, in the lower-cased input text. |
| Extraction.ExtractWithoutWords | components/ats-analysis.tsx:19-23 | Text without a word character yields three empty lists. This covers empty, white-space-only and punctuation-only text. |
| Extraction.ExtractOfEmpty | components/ats-analysis.tsx:19-23 | The empty text yields three empty lists. |
| Extraction.NormalizeIgnoresCase | components/ats-analysis.tsx:20-21 | Normalising a lower-cased text equals normalising the text. |
| Extraction.ExtractIgnoresCase | components/ats-analysis.tsx:104-106 | Extraction is insensitive to prior lower-casing, so the extra `toLowerCase()` applied to the resume text changes no keyword. |
| Extraction.HyphenatedPatternsNeverMatch | components/ats-analysis.tsx:59-71 | No soft-skill keyword contains `-`. A token therefore never contains `problem-solving` or `detail-oriented`. |
| Scoring.RelatedSymmetric | components/ats-analysis.tsx:111 | The two-way containment test is symmetric in its arguments. |
| Scoring.RelatedReflexive | components/ats-analysis.tsx:111 | A keyword is related to itself. |
| Scoring.Matched | components/ats-analysis.tsx:110-112 | The matched keywords are exactly the job keywords with a related resume keyword. |
| Scoring.Missing | components/ats-analysis.tsx:215-216 | The missing keywords are exactly the job keywords without a related resume keyword. |
| Scoring.MatchedPlusMissing | components/ats-analysis.tsx:110-112 | Matched and missing counts add up to the number of job keywords. |
| Scoring.RoundHalfUp | components/ats-analysis.tsx:113 | The rounded value lies within one half of the exact quotient, with halves going up. |
| Scoring.RoundHalfUpUnique | components/ats-analysis.tsx:113 | Only one integer lies within one half of the quotient in that way. |
| Scoring.RoundHalfUpMonotone | components/ats-analysis.tsx:113 | Rounding is monotone in the numerator. |
| Scoring.PercentInRange | components/ats-analysis.tsx:113 | A share of m out of n rounds to a percentage in [0, 100]. |
| Scoring.CategoryMatch | components/ats-analysis.tsx:108-114 | An empty job list scores 100. Otherwise the score lies in [0, 100] and is within one half of 100 times matched over total. |
| Scoring.CategoryMatchAllMatched | components/ats-analysis.tsx:108-113 | The score is 100 when every job keyword matches. |
| Scoring.CategoryMatchNoneMatched | components/ats-analysis.tsx:108-113 | The score is 0 when no keyword of a non-empty job list matches. |
| Scoring.CategoryMatchExtremes | components/ats-analysis.tsx:108-113 | For job lists under 200 keywords, the score is 100 if and only if all keywords match, and 0 if and only if none does. |
| Scoring.CategoryMatchMonotone | components/ats-analysis.tsx:110-113 | Appending resume keywords never lowers a category score. |
| Scoring.Overall | components/ats-analysis.tsx:120 | The overall score lies within one half of the mean of the three category scores. |
| Scoring.OverallBetween | components/ats-analysis.tsx:120 | The overall score lies between the lowest and the highest category score. |
| Scoring.OverallInRange | components/ats-analysis.tsx:120 | The overall score lies in [0, 100]. It is 100 when all three categories are 100. |
| Scoring.TierOf | components/ats-analysis.tsx:122-138 | Scores of 70 and above are strong, scores from 50 to 69 are moderate, and scores below 50 are weak. These ranges are disjoint and cover every score. |
| Scoring.AdvisoryTextIsTierMessage | components/ats-analysis.tsx:168-170 | Exactly one of the three message conditions holds for any score, and it is the tier's message. |
| Scoring.ScoreCategory | components/ats-analysis.tsx:205-217 | A category's percentage is its match score, in [0, 100]. Its found list is the first 8 (or 6) resume keywords, or all of them when there are fewer. Its missing list is the first 6 (or 4) missing keywords in job order, or all of them when there are fewer. |
| Scoring.ReportOf | components/ats-analysis.tsx:120-138 | The overall score is the mean of the three category percentages rounded half up, and lies in [0, 100] between their minimum and maximum. The tier is strong, moderate or weak exactly for overall scores of at least 70, from 50 to 69, and below 50. |
| Scoring.Assemble | components/ats-analysis.tsx:116-138 | Each category of the report is scored against that same category of the job and resume keywords. All percentages and the overall score lie in [0, 100]. The overall score is the mean of the three percentages rounded half up, and lies between their minimum and maximum. The tier is strong if and only if the overall score is at least 70, moderate if and only if it lies from 50 to 69, and weak if and only if it is below 50. |
| Scoring.ResumeText | components/ats-analysis.tsx:104 | The resume text is the lower-cased summary, one space, then the lower-cased bullets joined by spaces. It is already lower-case, so lower-casing it again changes nothing. |
| Scoring.Analyze | components/ats-analysis.tsx:103-106 | The report on the lower-cased resume text equals the report on the raw concatenation of summary and bullets. |
| Scoring.AnalyzeWithoutJobWords | components/ats-analysis.tsx:105-109 | A job description without word characters gives full marks: 100 in every category, no missing keywords, an overall score of 100 and the strong tier. |
| Scoring.AnalyzeWithoutJobKeywords | components/ats-analysis.tsx:105 | A job description without word characters is analysed as three empty job lists. |
| Scoring.AssembleWithoutJobKeywords | components/ats-analysis.tsx:109 | Three empty job lists give full marks, whatever the resume holds. |
| ScoringExamples.OverallRoundsDown | components/ats-analysis.tsx:120 | Scores 70, 70 and 71 average 70.33, so the overall score is 70. |
| ScoringExamples.OverallRoundsUp | components/ats-analysis.tsx:120 | Scores 70, 71 and 71 average 70.67, so the overall score is 71. |
| ScoringExamples.TechnicalGapsAreMissing | components/ats-analysis.tsx:215-217 | With no resume keyword, `python`, `docker` and `kubernetes` are all missing, in job order, and the category scores 0. |
| ScoringExamples.OnlyUnmatchedTechnicalIsModerate | components/ats-analysis.tsx:116-138 | Technical-only job keywords that are all unmatched give technical 0, every keyword missing up to the cap, an overall score of 67 and the moderate tier. |
| Fallback.TrimmedPiecesAreClean | app/api/generate-resume/route.ts:82-84 | Every piece that survives trimming and filtering is non-empty, trimmed and free of separators. |
| Fallback.FallbackBullets | app/api/generate-resume/route.ts:81-85 | The bullets are at most 6 entries. They form a prefix of the non-empty trimmed pieces, and all of them are kept when fewer than 6 exist. Each bullet is non-empty, trimmed and contains no `â`, `€`, `¢` or newline. |
| Fallback.IntendedFallbackBullets | app/api/generate-resume/route.ts:82 | With the bullet sign and the newline as separators, the same guarantees hold and no bullet contains a bullet sign. |
| Fallback.StripQuotes | app/api/generate-resume/route.ts:119 | Removing quotes keeps exactly the non-quote characters. The removed and kept characters add up to the input, and a string without quotes is unchanged. |
| Fallback.CleanKeyword | app/api/generate-resume/route.ts:119 | A cleaned keyword contains no quote, and its characters are exactly the non-quote characters of the trimmed piece. Its length is the trimmed length minus the quotes removed. A trimmed piece without quotes is kept whole. |
| Fallback.KeywordPiecesAreClean | app/api/generate-resume/route.ts:118-120 | Every surviving keyword piece is non-empty and holds no quote, comma or newline. |
| Fallback.FallbackKeywords | app/api/generate-resume/route.ts:117-121 | The keywords are at most 12 entries and form a prefix of the cleaned non-empty pieces. Each is non-empty and holds no `'`, `"`, `,` or newline. |
| FallbackExamples.BulletSignIsKept | app/api/generate-resume/route.ts:82 | The bullet sign is not a separator: the reply `• Led` yields the single bullet `• Led`, sign included. |
| FallbackExamples.IntendedSplitDropsBulletSign | app/api/generate-resume/route.ts:82 | Split on the intended separators, a reply `• ` followed by a clean bullet yields just that bullet. |
| FallbackExamples.KeywordsAreNotAlwaysTrimmed | app/api/generate-resume/route.ts:117-121 | Quotes are removed after trimming. The reply `" a",` is not valid JSON, so it reaches the fallback, and it yields the single keyword ` a` with its leading space, which is not trimmed. |

## Left out

- Rendering: the JSX, Tailwind class strings, badges and progress bars of the panel. Colour, icon and background appear only through the tier they are chosen by (`Scoring.TierOf`).
- The page, the PDF export route, the preview and template components: UI state, network calls, HTML templating and the headless-browser PDF launch, with no behaviour to verify. The page renders the panel only for a non-empty job description; the model analyses any description.
- The route's language-model calls, environment check, request parsing and the `JSON.parse` success branch: foreign calls and an opaque parser. The model takes the raw reply text as input and does not decide whether it is valid JSON.
- A reply that is valid JSON but not an array of strings (a bare string, a number, an object) is passed on as it is by the success branch. It never reaches the splitters and is not modelled.
- Text.Lower: lower-cases ASCII letters only; JavaScript's full Unicode case mapping is not modelled. Two non-ASCII characters (U+0130 and U+212A) lower-case to strings containing ASCII letters in JavaScript and would add word characters there.
- Text.IsWordChar and Text.Whitespace follow JavaScript's non-Unicode `\w` and the ECMAScript white-space set exactly; no other Unicode property is modelled.
- Floating point: percentages are exact integer rounding, which agrees with the float code for the job-list sizes the extractor can produce (at most 10).
- Scoring.CategoryMatchExtremes: requires fewer than 200 job keywords, because with 200 or more a single miss rounds to 100; the extractor never produces more than 10.
- Fallback.FallbackKeywords: states no trimming guarantee, because the code does not give one (see `FallbackExamples.KeywordsAreNotAlwaysTrimmed`).

## Findings

| source | as written | input that shows it | evidently intended | confidence | as-written member | corrected member |
|---|---|---|---|---|---|---|
| app/api/generate-resume/route.ts:82 | The class `[â€¢\n]` holds `â`, `€`, `¢` and newline: the UTF-8 bytes of the bullet sign read as Windows-1252 | the reply `• Led` gives the bullet `• Led`, sign kept | split on the bullet sign `•` and newline, giving the bullet `Led` | high (not executed) | FallbackExamples.BulletSignIsKept | Fallback.IntendedFallbackBullets |
