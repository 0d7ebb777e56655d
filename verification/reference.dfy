/** One reference record as the language model returns it, JavaScript truthiness
    of its fields, and the choice of verification strategy. */
module Reference {
  import opened Wrappers

  /** The record's fields. `authors` is the list the extraction prompt asks for;
      `author` (singular) is a separate key that the metadata searches read. A
      field the model left out is `None`. */
  datatype Record = Record(
    title: Option<string>,
    authors: Option<seq<string>>,
    author: Option<string>,
    year: Option<int>,
    url: Option<string>,
    doi: Option<string>,
    publisher: Option<string>)

  /** `if (field)` on a string field: present and not the empty string. */
  predicate Truthy(f: Option<string>) {
    f.Some? && f.value != ""
  }

  /** `field || ''` on a string field. */
  function OrEmpty(f: Option<string>): string {
    if Truthy(f) then f.value else ""
  }

  /** `if (year)` on a numeric field: present and not zero. */
  predicate YearTruthy(y: Option<int>) {
    y.Some? && y.value != 0
  }

  /** The three verification paths, each carrying the field it works from. */
  datatype Strategy =
    | ByDoi(doi: string)
    | ByLink(url: string)
    | ByMetadata

  /** A DOI wins over a URL, and a URL over a metadata search. */
  function Select(r: Record): (s: Strategy)
    ensures s.ByDoi? <==> Truthy(r.doi)
    ensures s.ByLink? <==> !Truthy(r.doi) && Truthy(r.url)
    ensures s.ByMetadata? <==> !Truthy(r.doi) && !Truthy(r.url)
    ensures s.ByDoi? ==> Some(s.doi) == r.doi
    ensures s.ByLink? ==> Some(s.url) == r.url
  {
    if Truthy(r.doi) then ByDoi(r.doi.value)
    else if Truthy(r.url) then ByLink(r.url.value)
    else ByMetadata
  }
}
