/**
 * Worked inputs for the fallback splitters, showing two behaviours of the
 * route's code that its intent does not suggest: the bullet sign is not a
 * separator, and keywords are not always trimmed.
 */
module FallbackExamples {
  import opened Seqs
  import opened Text
  import opened Fallback

  /** The bullet sign itself is not a separator: a reply bulleted with `•` keeps its signs. */
  lemma BulletSignIsKept()
    ensures BulletSign !in BulletSeparators
    ensures FallbackBullets([BulletSign] + " Led") == [[BulletSign] + " Led"]
  {
    var text := [BulletSign] + " Led";
    SplitWithoutSeparators(text, BulletSeparators);
    TrimOfTrimmed(text);
    assert Map(Trim, [text]) == [text];
    assert Filter(IsNonEmpty, [text]) == [text];
  }

  lemma SplitAtLeadingSign(t: string)
    requires IsCleanPiece(t, IntendedBulletSeparators)
    ensures Split([BulletSign, ' '] + t, IntendedBulletSeparators) == ["", [' '] + t]
  {
    var text := [BulletSign, ' '] + t;
    assert forall j :: 0 <= j < |[' '] + t| ==> ([' '] + t)[j] !in IntendedBulletSeparators;
    SplitWithoutSeparators([' '] + t, IntendedBulletSeparators);
    assert text[1..] == [' '] + t;
  }

  lemma TrimLeadingSpace(t: string)
    requires IsTrimmed(t)
    ensures Trim([' '] + t) == t
  {
    assert ([' '] + t)[1..] == t;
    TrimSkipsLeadingSpace([' '] + t);
    TrimOfTrimmed(t);
  }

  lemma EmptyPieceIsDropped(t: string)
    requires |t| > 0
    ensures Filter(IsNonEmpty, ["", t]) == [t]
  {
    assert ["", t] == [""] + [t];
    FilterConcat(IsNonEmpty, [""], [t]);
    FilterDropsAll(IsNonEmpty, [""]);
    FilterKeepsAll(IsNonEmpty, [t]);
  }

  lemma IntendedPiecesOfBulleted(t: string)
    requires IsCleanPiece(t, IntendedBulletSeparators)
    ensures TrimmedPieces([BulletSign, ' '] + t, IntendedBulletSeparators) == [t]
  {
    SplitAtLeadingSign(t);
    TrimLeadingSpace(t);
    TrimOfTrimmed("");
    assert Map(Trim, ["", [' '] + t]) == ["", t];
    EmptyPieceIsDropped(t);
  }

  /**
   * Split on the intended separators, a reply bulleted with the bullet sign
   * yields the bare bullet text.
   */
  lemma IntendedSplitDropsBulletSign(t: string)
    requires IsCleanPiece(t, IntendedBulletSeparators)
    ensures IntendedFallbackBullets([BulletSign, ' '] + t) == [t]
  {
    IntendedPiecesOfBulleted(t);
  }

  lemma StripQuotesAroundSpace()
    ensures Filter(IsNotQuote, "\" a\"") == " a"
  {
    var quote := "\"";
    assert "\" a\"" == quote + " a" + quote;
    FilterConcat(IsNotQuote, quote + " a", quote);
    FilterConcat(IsNotQuote, quote, " a");
    FilterDropsAll(IsNotQuote, quote);
    FilterKeepsAll(IsNotQuote, " a");
  }

  /** Trimming leaves `" a"` alone; removing the quotes then exposes the space. */
  lemma CleanQuotedSpace()
    ensures CleanKeyword("\" a\"") == " a"
  {
    TrimOfTrimmed("\" a\"");
    StripQuotesAroundSpace();
  }

  lemma CleanEmpty()
    ensures CleanKeyword("") == ""
  {
    TrimOfTrimmed("");
  }

  /** The reply ends in a comma, so it splits into the quoted piece and an empty one. */
  lemma QuotedReplyPieces()
    ensures Split("\" a\",", KeywordSeparators) == ["\" a\"", ""]
  {
    var piece := "\" a\"";
    assert forall i :: 0 <= i < |piece| ==> piece[i] !in KeywordSeparators;
    SplitTrailingSeparator(piece, ',', KeywordSeparators);
    assert piece + [','] == "\" a\",";
  }

  lemma MapPair(f: string -> string, a: string, b: string)
    ensures Map(f, [a, b]) == [f(a), f(b)]
  {
    var m := Map(f, [a, b]);
    assert m[0] == f(a) && m[1] == f(b);
  }

  lemma QuotedReplyCleaned()
    ensures Map(CleanKeyword, ["\" a\"", ""]) == [" a", ""]
  {
    MapPair(CleanKeyword, "\" a\"", "");
    CleanQuotedSpace();
    CleanEmpty();
  }

  lemma QuotedReplyFiltered()
    ensures Filter(IsNonEmpty, [" a", ""]) == [" a"]
  {
    assert [" a", ""] == [" a"] + [""];
    FilterConcat(IsNonEmpty, [" a"], [""]);
    FilterKeepsAll(IsNonEmpty, [" a"]);
    FilterDropsAll(IsNonEmpty, [""]);
  }

  /**
   * Quotes are removed after trimming, so white space they enclosed survives.
   * The reply `" a",` is not valid JSON, so the fallback parses it, and it
   * yields the keyword ` a` with its leading space.
   */
  lemma KeywordsAreNotAlwaysTrimmed()
    ensures FallbackKeywords("\" a\",") == [" a"]
    ensures !IsTrimmed(" a")
  {
    QuotedReplyPieces();
    QuotedReplyCleaned();
    QuotedReplyFiltered();
    assert KeywordPieces("\" a\",") == [" a"];
    assert ' ' in Whitespace;
  }
}
