/** The request URLs of the five lookups. `encodeURIComponent` is the parameter
    `enc`, left uninterpreted. */
module Queries {
  import opened Wrappers
  import opened Decimal
  import opened Reference

  const CrossrefWorks: string := "https://api.crossref.org/works"
  const GoogleBooksVolumes: string := "https://www.googleapis.com/books/v1/volumes?q="
  const OpenAlexWorks: string := "https://api.openalex.org/works?search="
  const FromPubDate: string := "&filter=from-pub-date:"
  const UntilPubDate: string := ",until-pub-date:"

  /** DOI registration lookup: the Crossref work record named by the DOI. */
  function DoiUrl(doi: string, enc: string -> string): string {
    CrossrefWorks + "/" + enc(doi)
  }

  /** Google Books search by title and the singular `author` key. */
  function BooksUrl(r: Record, enc: string -> string): string {
    GoogleBooksVolumes + enc(OrEmpty(r.title)) + "+inauthor:" + enc(OrEmpty(r.author))
  }

  /** The Crossref publication-date filter: empty for a missing or zero year,
      otherwise one year used as both bounds. */
  function YearFilter(year: Option<int>): string {
    if YearTruthy(year) then
      FromPubDate + IntToDecimal(year.value) + UntilPubDate + IntToDecimal(year.value)
    else ""
  }

  /** Crossref bibliographic search by the singular `author` key, the title and
      the year filter. */
  function CrossrefUrl(r: Record, enc: string -> string): string {
    CrossrefWorks + "?query.author=" + enc(OrEmpty(r.author))
      + "&query.bibliographic=" + enc(OrEmpty(r.title)) + YearFilter(r.year)
  }

  /** OpenAlex full-text search by title and the singular `author` key. */
  function OpenAlexUrl(r: Record, enc: string -> string): string {
    OpenAlexWorks + enc(OrEmpty(r.title)) + " " + enc(OrEmpty(r.author))
  }

  /** The filter is empty exactly when the year is absent or zero; otherwise both
      bounds carry the year's decimal text, which reads back as the year. */
  lemma YearFilterShape(year: Option<int>)
    ensures YearFilter(year) == "" <==> !YearTruthy(year)
    ensures YearTruthy(year) ==>
      && YearFilter(year) == FromPubDate + IntToDecimal(year.value) + UntilPubDate + IntToDecimal(year.value)
      && ParseInt(IntToDecimal(year.value)) == Some(year.value)
  {
    if YearTruthy(year) {
      ParseIntToDecimal(year.value);
      assert |YearFilter(year)| > 0;
    }
  }

  /** The `authors` list the records carry never reaches a metadata query:
      two records that differ only there produce the same three requests. */
  lemma MetadataQueriesIgnoreAuthors(r1: Record, r2: Record, enc: string -> string)
    requires r1.(authors := r2.authors) == r2
    ensures BooksUrl(r1, enc) == BooksUrl(r2, enc)
    ensures CrossrefUrl(r1, enc) == CrossrefUrl(r2, enc)
    ensures OpenAlexUrl(r1, enc) == OpenAlexUrl(r2, enc)
  {
  }
}
