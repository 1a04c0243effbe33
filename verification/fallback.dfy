/**
 * The fallback parsers of the resume-generation route
 * (app/api/generate-resume/route.ts): when the language model's reply is not
 * valid JSON, so that `JSON.parse` throws, the bullets and the keywords are
 * recovered by splitting the raw reply text on delimiter characters.
 */
module Fallback {
  import opened Seqs
  import opened Text

  /**
   * The characters of the class `[â€¢\n]`. The class was meant to hold the
   * bullet sign `•` (U+2022), but it holds the three characters of that sign's
   * UTF-8 bytes read as Windows-1252 text: `â` (U+00E2), `€` (U+20AC) and
   * `¢` (U+00A2), besides the newline.
   */
  const BulletSeparators: set<char> := {'\U{00E2}', '\U{20AC}', '\U{00A2}', '\n'}

  const BulletSign: char := '\U{2022}'

  const MaxBullets: nat := 6

  /** The bullet separators the class was meant to hold: the bullet sign and the newline. */
  const IntendedBulletSeparators: set<char> := {BulletSign, '\n'}

  /** The trimmed, non-empty pieces between separators, in reply order. */
  function TrimmedPieces(text: string, seps: set<char>): seq<string> {
    Filter(IsNonEmpty, Map(Trim, Split(text, seps)))
  }

  /** What every fallback bullet is: non-empty, trimmed, and free of separators. */
  predicate IsCleanPiece(b: string, seps: set<char>) {
    |b| > 0 && IsTrimmed(b) && forall j :: 0 <= j < |b| ==> b[j] !in seps
  }

  lemma TrimmedPiecesAreClean(text: string, seps: set<char>)
    ensures forall i :: 0 <= i < |TrimmedPieces(text, seps)| ==> IsCleanPiece(TrimmedPieces(text, seps)[i], seps)
  {
    var pieces := Split(text, seps);
    var trimmed := Map(Trim, pieces);
    forall b | b in trimmed && IsNonEmpty(b)
      ensures IsCleanPiece(b, seps)
    {
      var i :| 0 <= i < |trimmed| && trimmed[i] == b;
      TrimKeepsChars(pieces[i]);
      forall j | 0 <= j < |b|
        ensures b[j] !in seps
      {
        assert b[j] in pieces[i];
      }
    }
  }

  /** `text.split(/[â€¢\n]/).map((b) => b.trim()).filter((b) => b.length > 0).slice(0, 6)`. */
  function FallbackBullets(text: string): (r: seq<string>)
    ensures |r| <= MaxBullets && |r| <= |TrimmedPieces(text, BulletSeparators)|
    ensures r == TrimmedPieces(text, BulletSeparators)[..|r|]
    ensures |r| == MaxBullets || r == TrimmedPieces(text, BulletSeparators)
    ensures forall i :: 0 <= i < |r| ==> IsCleanPiece(r[i], BulletSeparators)
  {
    TrimmedPiecesAreClean(text, BulletSeparators);
    Take(TrimmedPieces(text, BulletSeparators), MaxBullets)
  }

  /**
   * The bullet splitter as evidently intended, splitting on the bullet sign
   * and the newline: no bullet keeps a bullet sign.
   */
  function IntendedFallbackBullets(text: string): (r: seq<string>)
    ensures |r| <= MaxBullets && |r| <= |TrimmedPieces(text, IntendedBulletSeparators)|
    ensures r == TrimmedPieces(text, IntendedBulletSeparators)[..|r|]
    ensures |r| == MaxBullets || r == TrimmedPieces(text, IntendedBulletSeparators)
    ensures forall i :: 0 <= i < |r| ==> IsCleanPiece(r[i], IntendedBulletSeparators) && BulletSign !in r[i]
  {
    TrimmedPiecesAreClean(text, IntendedBulletSeparators);
    Take(TrimmedPieces(text, IntendedBulletSeparators), MaxBullets)
  }

  const KeywordSeparators: set<char> := {',', '\n'}

  const MaxKeywords: nat := 12

  predicate IsQuote(c: char) {
    c == '\'' || c == '"'
  }

  predicate IsNotQuote(c: char) {
    !IsQuote(c)
  }

  /**
   * `t.replace(/['"]/g, "")` keeps exactly the characters of `t` that are not
   * quotes: the removed and the kept characters add up to `t`, and a string
   * without quotes is left alone.
   */
  lemma StripQuotes(t: string)
    ensures forall ch :: ch in Filter(IsNotQuote, t) <==> ch in t && !IsQuote(ch)
    ensures |Filter(IsNotQuote, t)| + |Filter(IsQuote, t)| == |t|
    ensures (forall i :: 0 <= i < |t| ==> !IsQuote(t[i])) ==> Filter(IsNotQuote, t) == t
  {
    FilterPartition(IsNotQuote, IsQuote, t);
    if (forall i :: 0 <= i < |t| ==> !IsQuote(t[i])) {
      FilterKeepsAll(IsNotQuote, t);
    }
  }

  /** `k.trim().replace(/['"]/g, "")`: trimmed first, quotes removed afterwards. */
  function CleanKeyword(k: string): (r: string)
    ensures forall i :: 0 <= i < |r| ==> !IsQuote(r[i]) && r[i] in k
    ensures forall ch :: ch in r <==> ch in Trim(k) && !IsQuote(ch)
    ensures |r| + |Filter(IsQuote, Trim(k))| == |Trim(k)|
    ensures (forall i :: 0 <= i < |Trim(k)| ==> !IsQuote(Trim(k)[i])) ==> r == Trim(k)
  {
    TrimKeepsChars(k);
    StripQuotes(Trim(k));
    Filter(IsNotQuote, Trim(k))
  }

  /** The cleaned, non-empty pieces between commas and newlines, in reply order. */
  function KeywordPieces(text: string): seq<string> {
    Filter(IsNonEmpty, Map(CleanKeyword, Split(text, KeywordSeparators)))
  }

  /** What every fallback keyword is: non-empty, without quotes, commas or newlines. */
  predicate IsCleanKeyword(k: string) {
    |k| > 0 && forall j :: 0 <= j < |k| ==> !IsQuote(k[j]) && k[j] !in KeywordSeparators
  }

  lemma KeywordPiecesAreClean(text: string)
    ensures forall i :: 0 <= i < |KeywordPieces(text)| ==> IsCleanKeyword(KeywordPieces(text)[i])
  {
    var pieces := Split(text, KeywordSeparators);
    var cleaned := Map(CleanKeyword, pieces);
    forall k | k in cleaned && IsNonEmpty(k)
      ensures IsCleanKeyword(k)
    {
      var i :| 0 <= i < |cleaned| && cleaned[i] == k;
      TrimKeepsChars(pieces[i]);
      forall j | 0 <= j < |k|
        ensures k[j] !in KeywordSeparators
      {
        assert k[j] in pieces[i];
      }
    }
  }

  /** `text.split(/[,\n]/).map(clean).filter((k) => k.length > 0).slice(0, 12)`. */
  function FallbackKeywords(text: string): (r: seq<string>)
    ensures |r| <= MaxKeywords && |r| <= |KeywordPieces(text)|
    ensures r == KeywordPieces(text)[..|r|]
    ensures |r| == MaxKeywords || r == KeywordPieces(text)
    ensures forall i :: 0 <= i < |r| ==> IsCleanKeyword(r[i])
  {
    KeywordPiecesAreClean(text);
    Take(KeywordPieces(text), MaxKeywords)
  }
}
