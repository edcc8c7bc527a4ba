/**
 * The schedule reconstruction of the `/proxy` handler, for both facilities:
 * 2103 (server.js:41-99) and 2027 (server.js:123-179). The scraped table is
 * given as its cells' texts; the fetch, the HTML traversal and the JSON reply
 * are not modelled.
 */
module Proxy {
  import opened Status
  import opened Rows
  import opened Runs

  /** The two facility branches of the handler. */
  datatype Facility = Pavilion | SportCourt

  /** Statuses the 2103 branch drops after cleaning (server.js:76-83). */
  const PavilionIgnore: seq<string> :=
    ["Setup time", "Takedown time", "Setup and takedown time", "Open", "Not open", "Not available for rental"]

  /** Raw statuses the 2027 branch drops before merging (server.js:133-137). */
  const SportCourtIgnore: seq<string> :=
    ["Walk-up basketball only", "Not available before 8am on weekends", "Closed"]

  /** The end given to an open-ended last entry. */
  const ClosingTime: string := "9:00PM"

  /** The ignore list applied to raw statuses before merging. */
  function RawIgnore(f: Facility): seq<string>
  {
    match f
    case Pavilion => []
    case SportCourt => SportCourtIgnore
  }

  /** The end-time adjustment: every entry but the last ends where the next one starts. */
  function Shift(es: seq<Entry>): (r: seq<Entry>)
    ensures |r| == |es|
    ensures forall k :: 0 <= k < |es| ==> r[k].startTime == es[k].startTime && r[k].status == es[k].status
    ensures forall k :: 0 < k < |es| ==> r[k - 1].endTime == r[k].startTime
    ensures es != [] ==> r[|r| - 1] == es[|es| - 1]
  {
    seq(|es|, k requires 0 <= k < |es| => if k + 1 < |es| then es[k].(endTime := es[k + 1].startTime) else es[k])
  }

  /** The adjustment `for` loop, in place on the merged entries. */
  method ShiftEndTimes(a: array<Entry>)
    modifies a
    ensures a[..] == Shift(old(a[..]))
  {
    ghost var original := a[..];
    var k := 0;
    while k + 1 < a.Length
      invariant k == 0 || k < a.Length
      invariant |original| == a.Length
      invariant forall p :: 0 <= p < k ==> a[p] == original[p].(endTime := original[p + 1].startTime)
      invariant forall p :: k <= p < a.Length ==> a[p] == original[p]
    {
      a[k] := a[k].(endTime := a[k + 1].startTime);
      k := k + 1;
    }
    assert forall p :: 0 <= p < a.Length ==> a[p] == Shift(original)[p];
  }

  /** The merge already chains its entries, so the adjustment loop changes nothing. */
  lemma ShiftOfMergeIsIdentity(key: string -> string, rows: seq<Row>)
    ensures Shift(Merge(key, rows)) == Merge(key, rows)
  {
    MergeEnds(key, rows);
    var merged := Merge(key, rows);
    assert forall k :: 0 <= k < |merged| ==> Shift(merged)[k] == merged[k];
  }

  /**
   * After the adjustment the merged entries are still the runs' first rows,
   * in row order, chained end to start, the last one ending where it starts.
   */
  lemma ShiftedMergeFacts(key: string -> string, rows: seq<Row>)
    ensures var shifted := Shift(Merge(key, rows));
      && Embeds(Heads(shifted), rows, RunStarts(key, rows))
      && (shifted != [] ==> shifted[|shifted| - 1].endTime == shifted[|shifted| - 1].startTime)
  {
    MergeInOrder(key, rows);
    MergeEnds(key, rows);
    var merged := Merge(key, rows);
    assert Heads(Shift(merged)) == Heads(merged);
  }

  /** Whatever holds of every row's label holds of every start and end after the adjustment. */
  lemma ShiftedMergeLabels(key: string -> string, rows: seq<Row>, isLabel: string -> bool)
    requires forall k :: 0 <= k < |rows| ==> isLabel(rows[k].startTime)
    ensures var shifted := Shift(Merge(key, rows));
      forall k :: 0 <= k < |shifted| ==> isLabel(shifted[k].startTime) && isLabel(shifted[k].endTime)
  {
    ShiftedMergeFacts(key, rows);
    var shifted := Shift(Merge(key, rows));
    var starts := RunStarts(key, rows);
    forall k | 0 <= k < |shifted|
      ensures isLabel(shifted[k].startTime)
    {
      assert Heads(shifted)[k] == rows[starts[k]];
    }
  }

  /** The `map` of the clean step: every status goes through the cleaner (`cleanStatus`). */
  function CleanEntries(es: seq<Entry>, clean: string -> string): (r: seq<Entry>)
    ensures |r| == |es|
    ensures forall k :: 0 <= k < |es| ==>
      r[k].startTime == es[k].startTime && r[k].endTime == es[k].endTime && r[k].status == clean(es[k].status)
  {
    seq(|es|, k requires 0 <= k < |es| => Entry(es[k].startTime, es[k].endTime, clean(es[k].status)))
  }

  /** Whether a status survives the 2103 `filter`: it is not empty and not on the list. */
  predicate IsReservationStatus(s: string, ignore: seq<string>)
  {
    s != "" && s !in ignore
  }

  /** Whether an entry survives the 2103 `filter`. */
  predicate IsReservation(e: Entry, ignore: seq<string>)
  {
    IsReservationStatus(e.status, ignore)
  }

  /** The 2103 `filter` after cleaning (server.js:91). */
  function KeepReservations(es: seq<Entry>, ignore: seq<string>): (r: seq<Entry>)
    ensures |r| <= |es|
  {
    Filter(IsReservation, ignore, es)
  }

  /** The filter keeps the surviving entries in order, and picks every entry that survives, once. */
  lemma KeepInOrder(es: seq<Entry>, ignore: seq<string>) returns (idx: seq<nat>)
    ensures Embeds(KeepReservations(es, ignore), es, idx)
    ensures forall i :: 0 <= i < |es| ==> (IsReservation(es[i], ignore) <==> i in idx)
    ensures forall e :: e in KeepReservations(es, ignore) <==> e in es && IsReservation(e, ignore)
  {
    idx := FilterInOrder(IsReservation, ignore, es);
  }


  /** An entry whose end is missing or equal to its start. */
  predicate IsOpenEnded(e: Entry)
  {
    e.endTime == "" || e.endTime == e.startTime
  }

  /**
   * The last-entry fallback: an open-ended last entry ends at the closing
   * time; every other entry, and an empty list, stay as they are.
   */
  function WithFallback(es: seq<Entry>): (r: seq<Entry>)
    ensures |r| == |es|
    ensures forall k :: 0 <= k < |es| - 1 ==> r[k] == es[k]
    ensures es != [] ==>
      var last, out := es[|es| - 1], r[|r| - 1];
      && (IsOpenEnded(last) ==> out == last.(endTime := ClosingTime))
      && (!IsOpenEnded(last) ==> out == last)
      && out.endTime != ""
      && (out.endTime == out.startTime <==> out.startTime == ClosingTime && IsOpenEnded(last))
  {
    if es == [] then []
    else
      var last := es[|es| - 1];
      es[..|es| - 1] + [if IsOpenEnded(last) then last.(endTime := ClosingTime) else last]
  }

  /** The fallback, in place on the last entry. */
  method ApplyFallback(a: array<Entry>)
    modifies a
    ensures a[..] == WithFallback(old(a[..]))
  {
    if a.Length > 0 {
      var last := a[a.Length - 1];
      if last.endTime == "" || last.endTime == last.startTime {
        a[a.Length - 1] := last.(endTime := ClosingTime);
      }
    }
    if a.Length > 0 {
      assert a[..] == old(a[..])[..a.Length - 1] + [a[a.Length - 1]];
    }
  }

  /** The rows that reach the merge: admitted, not placeholders, not ignored raw statuses. */
  function CandidateRows(table: seq<Cells>, f: Facility): seq<Row>
  {
    Candidates(Admitted(table), RawIgnore(f))
  }

  /** The merged entries after the end-time adjustment. */
  function Shifted(table: seq<Cells>, f: Facility): seq<Entry>
  {
    Shift(Merge(NormalizeStatus, CandidateRows(table, f)))
  }

  /** Step 5: the statuses are cleaned; the 2103 branch then drops non-reservations. */
  function CleanAndFilter(shifted: seq<Entry>, clean: string -> string, f: Facility): (r: seq<Entry>)
    ensures |r| <= |shifted|
    ensures f == SportCourt ==> |r| == |shifted|
  {
    var cleaned := CleanEntries(shifted, clean);
    match f
    case Pavilion => KeepReservations(cleaned, PavilionIgnore)
    case SportCourt => cleaned
  }

  /** The cleaned entries of a table, before the fallback. */
  function Cleaned(table: seq<Cells>, f: Facility): seq<Entry>
  {
    CleanAndFilter(Shifted(table, f), CleanStatus, f)
  }

  /** The `reservations` the handler replies with: at most one per table row. */
  function Reservations(table: seq<Cells>, f: Facility): (r: seq<Entry>)
    ensures |r| <= |CandidateRows(table, f)| <= |table|
  {
    WithFallback(Cleaned(table, f))
  }

  /** A fresh array holding `s`, as the handler's lists are arrays. */
  method ToArray(s: seq<Entry>) returns (a: array<Entry>)
    ensures fresh(a) && a[..] == s
  {
    a := new Entry[|s|](k requires 0 <= k < |s| => s[k]);
    assert a[..] == s;
  }

  /** Steps 1 to 4 of the handler: admission, placeholder removal, merge and end-time adjustment. */
  method MergedEntries(table: seq<Cells>, f: Facility) returns (entries: array<Entry>)
    ensures fresh(entries)
    ensures entries[..] == Shifted(table, f)
  {
    var raw := AdmitRows(table);
    var rows := Candidates(raw, RawIgnore(f));
    var merged := MergeRuns(NormalizeStatus, rows);
    assert merged == Merge(NormalizeStatus, CandidateRows(table, f));
    entries := ToArray(merged);
    ShiftEndTimes(entries);
  }

  /** The handler's pipeline, step by step. */
  method Reconstruct(table: seq<Cells>, f: Facility) returns (reservations: seq<Entry>)
    ensures reservations == Reservations(table, f)
  {
    var entries := MergedEntries(table, f);
    var cleaned := CleanEntries(entries[..], CleanStatus);
    if f == Pavilion {
      cleaned := KeepReservations(cleaned, PavilionIgnore);
    }
    assert cleaned == Cleaned(table, f);
    var result := ToArray(cleaned);
    ApplyFallback(result);
    reservations := result[..];
  }
}
