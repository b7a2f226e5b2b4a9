/** `MetadataExtractor.extract_metadata`: the six passes over one text,
    assembled into one record with the word and character counts. The
    extraction timestamp, read from the clock in the source, is a parameter. */
module Extractor {
  import opened Text
  import opened Seqs
  import Title
  import Author
  import Dates
  import Keywords
  import Summary

  /** The eight keys of the metadata dictionary. */
  datatype Metadata = Metadata(
    title: string,
    author: string,
    dates: seq<string>,
    keywords: seq<string>,
    summary: string,
    wordCount: nat,
    characterCount: nat,
    extractionDate: string)

  /** The record `extract_metadata(text)` builds, with the default
      `max_keywords` and `max_sentences`. */
  function MetadataOf(text: string, extractionDate: string): Metadata {
    Metadata(
      Title.ExtractTitle(text),
      Author.ExtractAuthor(text),
      Dates.DatesOf(text),
      Keywords.KeywordsOf(text, Keywords.DefaultMaxKeywords),
      Summary.SummaryOf(text, Summary.DefaultMaxSentences),
      |Words(text)|,
      |text|,
      extractionDate)
  }

  /** The bounds every field of the record keeps. */
  predicate WellFormed(m: Metadata) {
    |m.title| > 5
    && (m.author == Author.UnknownAuthor || (3 < |m.author| < 50 && forall c :: c in m.author ==> Author.IsNameChar(c)))
    && |m.dates| <= Dates.MaxDates && NoDuplicates(m.dates)
    && |m.keywords| <= Keywords.DefaultMaxKeywords && NoDuplicates(m.keywords)
    && |m.summary| > 0 && m.summary[|m.summary| - 1] == '.'
  }

  /** `extract_metadata(text)`. */
  method ExtractMetadata(text: string, extractionDate: string) returns (m: Metadata)
    ensures m == MetadataOf(text, extractionDate)
    ensures WellFormed(m)
  {
    var title := Title.ExtractTitle(text);
    var author := Author.ExtractAuthor(text);
    var dates := Dates.ExtractDates(text);
    var keywords := Keywords.ExtractKeywords(text, Keywords.DefaultMaxKeywords);
    var summary := Summary.GenerateSummary(text, Summary.DefaultMaxSentences);
    m := Metadata(title, author, dates, keywords, summary, |Words(text)|, |text|, extractionDate);
    MetadataProperties(text, extractionDate);
  }

  /** Every field is in bounds; the word count is the number of
      whitespace-separated tokens, which together hold exactly the text's
      non-whitespace characters, and the character count is the length. */
  lemma MetadataProperties(text: string, extractionDate: string)
    ensures WellFormed(MetadataOf(text, extractionDate))
    ensures MetadataOf(text, extractionDate).wordCount == |Words(text)|
    ensures Concat(Words(text)) == NonSpace(text)
    ensures MetadataOf(text, extractionDate).characterCount == |text|
    ensures MetadataOf(text, extractionDate).extractionDate == extractionDate
  {
    Dates.DatesProperties(text);
    Keywords.KeywordsProperties(text, Keywords.DefaultMaxKeywords);
    WordsCoverText(text);
    var s := Summary.SummaryOf(text, Summary.DefaultMaxSentences);
    assert s[|s| - 1] == '.';
  }

  /** The empty text: the two sentinels, no dates, no keywords, no words, no
      characters, and the summary ".". */
  lemma EmptyText(extractionDate: string)
    ensures MetadataOf("", extractionDate) ==
              Metadata("Untitled Document", "Unknown Author", [], [], ".", 0, 0, extractionDate)
  {
    EmptyTitle();
    EmptyAuthor();
    EmptyDates();
    EmptyKeywords();
    Summary.SummaryEmptyText(Summary.DefaultMaxSentences);
    assert Words("") == [];
  }

  lemma EmptyTitle()
    ensures Title.ExtractTitle("") == Title.Untitled
  {
    assert Lines("") == [""];
    assert Title.MeaningfulLines("") == [];
  }

  lemma EmptyAuthor()
    ensures Author.ExtractAuthor("") == Author.UnknownAuthor
  {
    forall k | 0 <= k < 4 ensures Author.Candidate(Author.AuthorPatterns[k], "").None? {
      var p := Author.AuthorPatterns[k];
      assert Author.MatchAt(p, "", 0).None?;
      Author.FirstMatchNone(p, "");
    }
    Author.AuthorUnknown("");
  }

  lemma EmptyDates()
    ensures Dates.DatesOf("") == []
  {
    forall k | 0 <= k < |Dates.DatePatterns| ensures Dates.FindAll(Dates.DatePatterns[k], "", 0) == [] { }
    assert Dates.FoundBy("", 5) == [];
  }

  lemma EmptyKeywords()
    ensures Keywords.KeywordsOf("", Keywords.DefaultMaxKeywords) == []
  {
    assert Keywords.CleanText("") == [];
    assert Words("") == [];
    assert Keywords.FilteredWords("") == [];
    assert Dedup<string>([]) == [];
  }
}
