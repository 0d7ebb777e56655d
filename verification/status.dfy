/** The verification status of one reference and the text the source uses for it. */
module Status {
  import opened Wrappers

  datatype Status =
    | NotChecked
    | Ok
    | Nok
    | LikelyFoundGoogleBooks
    | LikelyFoundCrossref
    | LikelyFoundOpenAlex
    | NotFound

  /** A status a finished verification task can report: anything but the
      initial `NOT_CHECKED`. */
  predicate IsTerminal(s: Status) {
    s != NotChecked
  }

  /** The status string written into the table, which `ParseStatus` reads back. */
  function Name(s: Status): (r: string)
    ensures ParseStatus(r) == Some(s)
  {
    match s
    case NotChecked => "NOT_CHECKED"
    case Ok => "OK"
    case Nok => "NOK"
    case LikelyFoundGoogleBooks => "LIKELY_FOUND_GOOGLE_BOOKS"
    case LikelyFoundCrossref => "LIKELY_FOUND_CROSSREF"
    case LikelyFoundOpenAlex => "LIKELY_FOUND_OPENALEX"
    case NotFound => "NOT_FOUND"
  }

  function ParseStatus(t: string): Option<Status> {
    if t == "NOT_CHECKED" then Some(NotChecked)
    else if t == "OK" then Some(Ok)
    else if t == "NOK" then Some(Nok)
    else if t == "LIKELY_FOUND_GOOGLE_BOOKS" then Some(LikelyFoundGoogleBooks)
    else if t == "LIKELY_FOUND_CROSSREF" then Some(LikelyFoundCrossref)
    else if t == "LIKELY_FOUND_OPENALEX" then Some(LikelyFoundOpenAlex)
    else if t == "NOT_FOUND" then Some(NotFound)
    else None
  }

  /** Distinct statuses are written as distinct strings. */
  lemma NameInjective(s: Status, t: Status)
    ensures Name(s) == Name(t) <==> s == t
  {
    if Name(s) == Name(t) {
      assert Some(s) == ParseStatus(Name(s)) == ParseStatus(Name(t)) == Some(t);
    }
  }
}
