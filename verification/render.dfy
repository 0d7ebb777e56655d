/** The two pieces of the results table that carry logic: the link column,
    whose precedence mirrors the strategy selector, and the status column, which
    verification tasks overwrite by row index. */
module Render {
  import opened Wrappers
  import opened Status
  import opened Reference

  const DoiResolver: string := "https://doi.org/"

  /** An anchor in the link column. */
  datatype Link = Link(href: string, text: string)

  /** The link column: a resolver link for a DOI, else the URL itself, else an
      empty cell. */
  function LinkCell(r: Record): Option<Link> {
    if Truthy(r.doi) then Some(Link(DoiResolver + r.doi.value, r.doi.value))
    else if Truthy(r.url) then Some(Link(r.url.value, r.url.value))
    else None
  }

  /** The link column shows exactly the identifier the verification runs on:
      a resolver link for the DOI strategy, the bare URL for the link strategy,
      and nothing when the metadata searches run. */
  lemma LinkCellMatchesSelector(r: Record)
    ensures Select(r).ByDoi? <==>
      LinkCell(r).Some? && LinkCell(r).value.href == DoiResolver + LinkCell(r).value.text
    ensures Select(r).ByDoi? ==> LinkCell(r) == Some(Link(DoiResolver + Select(r).doi, Select(r).doi))
    ensures Select(r).ByLink? ==> LinkCell(r) == Some(Link(Select(r).url, Select(r).url))
    ensures Select(r).ByMetadata? <==> LinkCell(r).None?
  {
    if Select(r).ByLink? {
      var u := r.url.value;
      assert |DoiResolver + u| != |u|;
    }
  }

  /** The class given to a status cell: only `OK` and `NOK` get their own. */
  function CssClass(status: string): (c: string)
    ensures c == "ok" <==> status == "OK"
    ensures c == "nok" <==> status == "NOK"
    ensures c == "not-checked" <==> status != "OK" && status != "NOK"
  {
    if status == "OK" then "ok" else if status == "NOK" then "nok" else "not-checked"
  }

  /** Every status other than `OK` and `NOK`, the likely-found ones included, is
      shown with the `not-checked` class. */
  lemma ClassOfStatus(s: Status)
    ensures CssClass(Name(s)) == "ok" <==> s == Ok
    ensures CssClass(Name(s)) == "nok" <==> s == Nok
    ensures CssClass(Name(s)) == "not-checked" <==> s != Ok && s != Nok
  {
    NameInjective(s, Ok);
    NameInjective(s, Nok);
  }

  /** The status cell of one row: its text and its class. */
  datatype StatusCell = StatusCell(text: string, cssClass: string)

  /** The placeholder the table is rendered with, before any task reports. */
  const Pending: StatusCell := StatusCell("?", "")

  function CellFor(s: Status): StatusCell {
    StatusCell(Name(s), CssClass(Name(s)))
  }

  function InitialCells(n: nat): (cells: seq<StatusCell>)
    ensures |cells| == n && forall i :: 0 <= i < n ==> cells[i] == Pending
  {
    seq(n, i => Pending)
  }

  /** One report `(index, status)` from a verification task. */
  datatype Update = Update(index: nat, status: Status)

  function IndicesOf(us: seq<Update>): (ix: seq<nat>)
    ensures |ix| == |us| && forall k :: 0 <= k < |us| ==> ix[k] == us[k].index
  {
    seq(|us|, k requires 0 <= k < |us| => us[k].index)
  }

  /** `updateStatusCell`: overwrite the status cell of the row with that index;
      a report for a row that does not exist is dropped. */
  function UpdateStatusCell(cells: seq<StatusCell>, u: Update): (r: seq<StatusCell>)
    ensures |r| == |cells|
    ensures forall i :: 0 <= i < |cells| && i != u.index ==> r[i] == cells[i]
    ensures u.index < |cells| ==> r[u.index] == CellFor(u.status)
  {
    if u.index < |cells| then cells[u.index := CellFor(u.status)] else cells
  }

  /** The table after the reports arrive in the given order. */
  function ApplyAll(cells: seq<StatusCell>, us: seq<Update>): (r: seq<StatusCell>)
    ensures |r| == |cells|
  {
    if |us| == 0 then cells
    else UpdateStatusCell(ApplyAll(cells, us[..|us| - 1]), us[|us| - 1])
  }

  /** When every report for row `i` carries `expected[i]`, a row ends with that
      status if some report named it and keeps its old cell otherwise, whatever
      the order of the reports. */
  lemma {:induction false} ApplyAllCells(cells: seq<StatusCell>, us: seq<Update>, expected: seq<Status>)
    requires |expected| == |cells|
    requires forall k :: 0 <= k < |us| && us[k].index < |cells| ==> us[k].status == expected[us[k].index]
    ensures forall i :: 0 <= i < |cells| ==>
      ApplyAll(cells, us)[i] == (if i in IndicesOf(us) then CellFor(expected[i]) else cells[i])
  {
    if |us| > 0 {
      var init := us[..|us| - 1];
      ApplyAllCells(cells, init, expected);
      assert IndicesOf(us) == IndicesOf(init) + [us[|us| - 1].index];
    }
  }

  /** The table in which row `i` shows `statuses[i]`. */
  function CellsFor(statuses: seq<Status>): (cells: seq<StatusCell>)
    ensures |cells| == |statuses|
    ensures forall i :: 0 <= i < |statuses| ==> cells[i] == CellFor(statuses[i])
  {
    seq(|statuses|, i requires 0 <= i < |statuses| => CellFor(statuses[i]))
  }

  /** Once every row has been reported, always with its own status, the table
      shows exactly those statuses. */
  lemma AllRowsReported(us: seq<Update>, expected: seq<Status>)
    requires forall i :: 0 <= i < |expected| ==> i in IndicesOf(us)
    requires forall k :: 0 <= k < |us| && us[k].index < |expected| ==> us[k].status == expected[us[k].index]
    ensures ApplyAll(InitialCells(|expected|), us) == CellsFor(expected)
  {
    var n := |expected|;
    ApplyAllCells(InitialCells(n), us, expected);
    var cells := ApplyAll(InitialCells(n), us);
    assert forall i :: 0 <= i < n ==> cells[i] == CellFor(expected[i]);
  }
}
