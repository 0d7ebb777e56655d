/** The verification of each reference: the strategy selector, the DOI and link
    checks, the metadata fallback chain, and the orchestration over the whole list.
    Every network lookup is an oracle: a yes/no answer to the request URL, where
    "no" also covers failed requests, error statuses, empty result lists and,
    for the link check, the five-second abort. */
module Verification {
  import opened Wrappers
  import opened Status
  import opened Reference
  import opened Queries
  import opened Render

  /** What the network answers one verification task. */
  datatype Oracles = Oracles(
    doiRegistered: string -> bool,
    linkReachable: string -> bool,
    inGoogleBooks: string -> bool,
    inCrossref: string -> bool,
    inOpenAlex: string -> bool)

  datatype Service = CrossrefDoi | LinkCheck | GoogleBooks | CrossrefSearch | OpenAlex

  /** One request a task made. */
  datatype Lookup = Lookup(service: Service, url: string)

  /** The status one task reports for one record. */
  function Decide(r: Record, o: Oracles, enc: string -> string): (s: Status)
    ensures IsTerminal(s)
    ensures Truthy(r.doi) ==>
      (s == Ok || s == Nok) && (s == Ok <==> o.doiRegistered(DoiUrl(r.doi.value, enc)))
    ensures !Truthy(r.doi) && Truthy(r.url) ==>
      (s == Ok || s == Nok) && (s == Ok <==> o.linkReachable(r.url.value))
    ensures !Truthy(r.doi) && !Truthy(r.url) ==> s != Ok && s != Nok
  {
    match Select(r)
    case ByDoi(doi) => if o.doiRegistered(DoiUrl(doi, enc)) then Ok else Nok
    case ByLink(url) => if o.linkReachable(url) then Ok else Nok
    case ByMetadata =>
      if o.inGoogleBooks(BooksUrl(r, enc)) then LikelyFoundGoogleBooks
      else if o.inCrossref(CrossrefUrl(r, enc)) then LikelyFoundCrossref
      else if o.inOpenAlex(OpenAlexUrl(r, enc)) then LikelyFoundOpenAlex
      else NotFound
  }

  /** With neither DOI nor URL, the first search that finds the work names the
      status, and `NOT_FOUND` means all three came back empty. */
  lemma MetadataChain(r: Record, o: Oracles, enc: string -> string)
    requires !Truthy(r.doi) && !Truthy(r.url)
    ensures var books := o.inGoogleBooks(BooksUrl(r, enc));
            var crossref := o.inCrossref(CrossrefUrl(r, enc));
            var openAlex := o.inOpenAlex(OpenAlexUrl(r, enc));
            && (Decide(r, o, enc) == LikelyFoundGoogleBooks <==> books)
            && (Decide(r, o, enc) == LikelyFoundCrossref <==> !books && crossref)
            && (Decide(r, o, enc) == LikelyFoundOpenAlex <==> !books && !crossref && openAlex)
            && (Decide(r, o, enc) == NotFound <==> !books && !crossref && !openAlex)
  {
  }

  /** A non-empty DOI alone decides which answer counts: the URL, the metadata and
      every other oracle are irrelevant. */
  lemma DoiTakesPrecedence(r1: Record, r2: Record, o1: Oracles, o2: Oracles, enc: string -> string)
    requires Truthy(r1.doi) && r2.doi == r1.doi
    requires o1.doiRegistered(DoiUrl(r1.doi.value, enc)) == o2.doiRegistered(DoiUrl(r1.doi.value, enc))
    ensures Decide(r1, o1, enc) == Decide(r2, o2, enc)
  {
  }

  /** Without a DOI, a non-empty URL alone decides which answer counts. */
  lemma UrlTakesPrecedenceOverMetadata(r1: Record, r2: Record, o1: Oracles, o2: Oracles, enc: string -> string)
    requires !Truthy(r1.doi) && !Truthy(r2.doi) && Truthy(r1.url) && r2.url == r1.url
    requires o1.linkReachable(r1.url.value) == o2.linkReachable(r1.url.value)
    ensures Decide(r1, o1, enc) == Decide(r2, o2, enc)
  {
  }

  /** The `authors` list never influences a status: the metadata searches read
      the singular `author` key instead. */
  lemma StatusIgnoresAuthors(r1: Record, r2: Record, o: Oracles, enc: string -> string)
    requires r1.(authors := r2.authors) == r2
    ensures Decide(r1, o, enc) == Decide(r2, o, enc)
  {
    MetadataQueriesIgnoreAuthors(r1, r2, enc);
  }

  /** One verification task, step by step, recording every request it makes. */
  method VerifyReference(r: Record, o: Oracles, enc: string -> string)
    returns (status: Status, consulted: seq<Lookup>)
    ensures status == Decide(r, o, enc)
    ensures Truthy(r.doi) ==> consulted == [Lookup(CrossrefDoi, DoiUrl(r.doi.value, enc))]
    ensures !Truthy(r.doi) && Truthy(r.url) ==> consulted == [Lookup(LinkCheck, r.url.value)]
    ensures !Truthy(r.doi) && !Truthy(r.url) ==>
      && 1 <= |consulted| <= 3
      && consulted[0] == Lookup(GoogleBooks, BooksUrl(r, enc))
      && (|consulted| == 1 <==> o.inGoogleBooks(BooksUrl(r, enc)))
      && (|consulted| >= 2 ==> consulted[1] == Lookup(CrossrefSearch, CrossrefUrl(r, enc)))
      && (|consulted| == 3 <==> !o.inGoogleBooks(BooksUrl(r, enc)) && !o.inCrossref(CrossrefUrl(r, enc)))
      && (|consulted| == 3 ==> consulted[2] == Lookup(OpenAlex, OpenAlexUrl(r, enc)))
  {
    status := NotChecked;
    consulted := [];
    if Truthy(r.doi) {
      var url := DoiUrl(r.doi.value, enc);
      consulted := consulted + [Lookup(CrossrefDoi, url)];
      status := if o.doiRegistered(url) then Ok else Nok;
    } else if Truthy(r.url) {
      consulted := consulted + [Lookup(LinkCheck, r.url.value)];
      status := if o.linkReachable(r.url.value) then Ok else Nok;
    } else {
      var booksUrl := BooksUrl(r, enc);
      consulted := consulted + [Lookup(GoogleBooks, booksUrl)];
      if o.inGoogleBooks(booksUrl) {
        status := LikelyFoundGoogleBooks;
      } else {
        var crossrefUrl := CrossrefUrl(r, enc);
        consulted := consulted + [Lookup(CrossrefSearch, crossrefUrl)];
        if o.inCrossref(crossrefUrl) {
          status := LikelyFoundCrossref;
        } else {
          var openAlexUrl := OpenAlexUrl(r, enc);
          consulted := consulted + [Lookup(OpenAlex, openAlexUrl)];
          status := if o.inOpenAlex(openAlexUrl) then LikelyFoundOpenAlex else NotFound;
        }
      }
    }
  }

  function Range(n: nat): (ix: seq<nat>)
    ensures |ix| == n && forall i :: 0 <= i < n ==> ix[i] == i
  {
    seq(n, i => i)
  }

  /** The order in which the `n` independent tasks finish: every index exactly
      once, in any order. */
  predicate IsCompletionOrder(order: seq<nat>, n: nat) {
    multiset(order) == multiset(Range(n))
  }

  lemma {:induction false} RangeCounts(n: nat, i: int)
    ensures multiset(Range(n))[i] == (if 0 <= i < n then 1 else 0)
  {
    if n > 0 {
      RangeCounts(n - 1, i);
      assert Range(n) == Range(n - 1) + [n - 1];
    }
  }

  lemma CompletionOrderCovers(order: seq<nat>, n: nat)
    requires IsCompletionOrder(order, n)
    ensures forall k :: 0 <= k < |order| ==> order[k] < n
    ensures forall i :: 0 <= i < n ==> i in order
    ensures |order| == n
  {
    forall k | 0 <= k < |order| ensures order[k] < n {
      assert order[k] in multiset(order);
      RangeCounts(n, order[k]);
    }
    forall i | 0 <= i < n ensures i in order {
      RangeCounts(n, i);
      assert i in multiset(order);
    }
    assert |multiset(order)| == |multiset(Range(n))|;
  }

  /** The status of every record, each under its own network answers. */
  function Statuses(refs: seq<Record>, net: nat -> Oracles, enc: string -> string): (ss: seq<Status>)
    ensures |ss| == |refs|
    ensures forall i :: 0 <= i < |refs| ==> ss[i] == Decide(refs[i], net(i), enc)
  {
    seq(|refs|, i requires 0 <= i < |refs| => Decide(refs[i], net(i), enc))
  }

  /** `checkStatusOfReferences`: one task per record, each with its own network
      answers `net(i)`, reporting in the completion order the scheduler chose.
      Exactly one report per index, and none cross-assigned. */
  method CheckStatusOfReferences(refs: seq<Record>, net: nat -> Oracles, enc: string -> string, order: seq<nat>)
    returns (updates: seq<Update>)
    requires IsCompletionOrder(order, |refs|)
    ensures |updates| == |order| == |refs|
    ensures forall k :: 0 <= k < |updates| ==>
      && updates[k].index == order[k] < |refs|
      && updates[k].status == Decide(refs[order[k]], net(order[k]), enc)
    ensures forall i :: 0 <= i < |refs| ==> multiset(IndicesOf(updates))[i] == 1
    ensures forall k :: 0 <= k < |updates| ==> IsTerminal(updates[k].status)
  {
    CompletionOrderCovers(order, |refs|);
    updates := [];
    var k := 0;
    while k < |order|
      invariant k <= |order|
      invariant IndicesOf(updates) == order[..k]
      invariant forall j :: 0 <= j < k ==>
        updates[j].status == Decide(refs[order[j]], net(order[j]), enc)
    {
      var i := order[k];
      var status, _ := VerifyReference(refs[i], net(i), enc);
      updates := updates + [Update(i, status)];
      k := k + 1;
      assert IndicesOf(updates) == order[..k];
    }
    assert order[..k] == order;
    forall i | 0 <= i < |refs| ensures multiset(IndicesOf(updates))[i] == 1 {
      RangeCounts(|refs|, i);
    }
  }

  /** Every report that names a record carries that record's own status. */
  predicate ReportsOwnStatus(refs: seq<Record>, net: nat -> Oracles, enc: string -> string, updates: seq<Update>) {
    forall k :: 0 <= k < |updates| && updates[k].index < |refs| ==>
      updates[k].status == Decide(refs[updates[k].index], net(updates[k].index), enc)
  }

  /** Whatever the completion order, once every task has reported, row `i` of the
      table shows the status of record `i` and nothing else. */
  lemma FinalTableIndependentOfOrder(refs: seq<Record>, net: nat -> Oracles, enc: string -> string, updates: seq<Update>)
    requires IsCompletionOrder(IndicesOf(updates), |refs|)
    requires ReportsOwnStatus(refs, net, enc, updates)
    ensures ApplyAll(InitialCells(|refs|), updates) == CellsFor(Statuses(refs, net, enc))
  {
    EveryRowReported(updates, |refs|);
    var ss := Statuses(refs, net, enc);
    ReportsMatchStatuses(refs, net, enc, updates, ss);
    AllRowsReported(updates, ss);
  }

  lemma ReportsMatchStatuses(refs: seq<Record>, net: nat -> Oracles, enc: string -> string, updates: seq<Update>, ss: seq<Status>)
    requires ss == Statuses(refs, net, enc)
    requires ReportsOwnStatus(refs, net, enc, updates)
    ensures forall k :: 0 <= k < |updates| && updates[k].index < |ss| ==> updates[k].status == ss[updates[k].index]
  {
  }

  lemma EveryRowReported(updates: seq<Update>, n: nat)
    requires IsCompletionOrder(IndicesOf(updates), n)
    ensures forall i :: 0 <= i < n ==> i in IndicesOf(updates)
  {
    CompletionOrderCovers(IndicesOf(updates), n);
  }
}
