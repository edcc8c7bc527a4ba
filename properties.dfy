/**
 * What the reconstruction guarantees about the `reservations` it replies
 * with, proved over all scraped tables, for both facility branches. The
 * steps after the merge are first proved for any entries and any cleaner,
 * then applied to the handler's own.
 */
module ScheduleFacts {
  import opened Strings
  import opened TimeLabels
  import opened Status
  import opened Rows
  import opened Runs
  import opened Proxy

  /** Every start and end of the entries satisfies `isLabel`. */
  ghost predicate AllLabels(es: seq<Entry>, isLabel: string -> bool)
  {
    forall k :: 0 <= k < |es| ==> isLabel(es[k].startTime) && isLabel(es[k].endTime)
  }

  /** Every entry ends where the next one starts. */
  ghost predicate Chained(es: seq<Entry>)
  {
    forall k :: 0 < k < |es| ==> es[k - 1].endTime == es[k].startTime
  }

  /**
   * `idx` picks the entries of `out`, in order, out of `es`: each keeps its
   * start and end and gets a cleaned status, except that the last one ends
   * at the closing time when it was open-ended.
   */
  ghost predicate Picks(out: seq<Entry>, es: seq<Entry>, clean: string -> string, idx: seq<nat>)
  {
    && |idx| == |out|
    && (forall i, j :: 0 <= i < j < |idx| ==> idx[i] < idx[j])
    && (forall k :: 0 <= k < |idx| ==>
          idx[k] < |es| && out[k].startTime == es[idx[k]].startTime && out[k].status == clean(es[idx[k]].status))
    && (forall k :: 0 <= k < |idx| - 1 ==> out[k].endTime == es[idx[k]].endTime)
    && (idx != [] ==>
          var last := es[idx[|idx| - 1]];
          out[|idx| - 1].endTime == if IsOpenEnded(last) then ClosingTime else last.endTime)
  }

  /** Whether an entry with status `s` reaches the reply of facility `f`: 2027 keeps every entry, 2103 only those whose cleaned status is a reservation. */
  predicate Survives(f: Facility, clean: string -> string, s: string)
  {
    f == SportCourt || IsReservationStatus(clean(s), PavilionIgnore)
  }

  /** `idx` picks the entries of `out` out of `es`, as `Picks` says, and picks exactly the entries that survive. */
  ghost predicate PicksSurvivors(out: seq<Entry>, es: seq<Entry>, clean: string -> string, f: Facility, idx: seq<nat>)
  {
    && Picks(out, es, clean, idx)
    && forall i :: 0 <= i < |es| ==> (i in idx <==> Survives(f, clean, es[i].status))
  }

  /**
   * Each pick but the last ends where the entry after its source starts,
   * and a pick of the last entry ends at closing time.
   */
  ghost predicate EndsAtNext(out: seq<Entry>, es: seq<Entry>, idx: seq<nat>)
  {
    && |idx| == |out|
    && (forall k :: 0 <= k < |idx| - 1 ==> idx[k] + 1 < |es| && out[k].endTime == es[idx[k] + 1].startTime)
    && (idx != [] && idx[|idx| - 1] == |es| - 1 ==> out[|out| - 1].endTime == ClosingTime)
  }

  // Steps 5 and 6 on any entries.

  /** The fallback applied to entries that keep their start and end picks them. */
  lemma FallbackPicks(kept: seq<Entry>, es: seq<Entry>, clean: string -> string, idx: seq<nat>)
    requires |idx| == |kept|
    requires forall i, j :: 0 <= i < j < |idx| ==> idx[i] < idx[j]
    requires forall k :: 0 <= k < |idx| ==>
      idx[k] < |es| && kept[k] == Entry(es[idx[k]].startTime, es[idx[k]].endTime, clean(es[idx[k]].status))
    ensures Picks(WithFallback(kept), es, clean, idx)
  {
  }

  /** The 2103 steps pick, in order, exactly the entries whose cleaned status is a reservation. */
  lemma PavilionPicks(es: seq<Entry>, clean: string -> string) returns (idx: seq<nat>)
    ensures Picks(WithFallback(CleanAndFilter(es, clean, Pavilion)), es, clean, idx)
    ensures forall i :: 0 <= i < |es| ==> (i in idx <==> Survives(Pavilion, clean, es[i].status))
  {
    var cleaned := CleanEntries(es, clean);
    var kept := KeepReservations(cleaned, PavilionIgnore);
    assert CleanAndFilter(es, clean, Pavilion) == kept;
    idx := KeepInOrder(cleaned, PavilionIgnore);
    FallbackPicks(kept, es, clean, idx);
  }

  /** The 2027 steps pick every entry, in order. */
  lemma SportCourtPicks(es: seq<Entry>, clean: string -> string) returns (idx: seq<nat>)
    ensures Picks(WithFallback(CleanAndFilter(es, clean, SportCourt)), es, clean, idx)
    ensures forall i :: 0 <= i < |es| ==> (i in idx <==> Survives(SportCourt, clean, es[i].status))
  {
    var cleaned := CleanEntries(es, clean);
    assert CleanAndFilter(es, clean, SportCourt) == cleaned;
    idx := seq(|cleaned|, k requires 0 <= k < |cleaned| => k);
    FallbackPicks(cleaned, es, clean, idx);
    forall i | 0 <= i < |es|
      ensures i in idx
    {
      assert idx[i] == i;
    }
  }

  /** Cleaning, filtering and the fallback pick, in order, exactly the entries that survive. */
  lemma FinishPicks(es: seq<Entry>, clean: string -> string, f: Facility) returns (idx: seq<nat>)
    ensures Picks(WithFallback(CleanAndFilter(es, clean, f)), es, clean, idx)
    ensures forall i :: 0 <= i < |es| ==> (i in idx <==> Survives(f, clean, es[i].status))
  {
    if f == Pavilion {
      idx := PavilionPicks(es, clean);
    } else {
      idx := SportCourtPicks(es, clean);
    }
  }

  lemma FinishKeepsLabels(es: seq<Entry>, clean: string -> string, f: Facility, isLabel: string -> bool)
    requires AllLabels(es, isLabel) && isLabel(ClosingTime)
    ensures AllLabels(WithFallback(CleanAndFilter(es, clean, f)), isLabel)
  {
    var idx := FinishPicks(es, clean, f);
    var out := WithFallback(CleanAndFilter(es, clean, f));
    assert forall k :: 0 <= k < |out| ==> isLabel(es[idx[k]].startTime) && isLabel(es[idx[k]].endTime);
  }

  lemma FinishPavilion(es: seq<Entry>, clean: string -> string)
    ensures var out := WithFallback(CleanAndFilter(es, clean, Pavilion));
      forall k :: 0 <= k < |out| ==> out[k].status != "" && out[k].status !in PavilionIgnore
  {
    var cleaned := CleanEntries(es, clean);
    var kept := CleanAndFilter(es, clean, Pavilion);
    var idx := KeepInOrder(cleaned, PavilionIgnore);
    assert forall k :: 0 <= k < |kept| ==> kept[k] == cleaned[idx[k]] && idx[k] in idx;
  }

  lemma FinishSportCourt(es: seq<Entry>, clean: string -> string)
    requires Chained(es) && (es != [] ==> es[|es| - 1].endTime == es[|es| - 1].startTime)
    ensures var out := WithFallback(CleanAndFilter(es, clean, SportCourt));
      && |out| == |es|
      && Chained(out)
      && (out != [] ==> out[|out| - 1].endTime == ClosingTime)
      && (forall k :: 0 <= k < |out| ==> out[k].status == clean(es[k].status))
  {
    var cleaned := CleanEntries(es, clean);
    assert forall k :: 0 <= k < |cleaned| ==>
      cleaned[k].startTime == es[k].startTime && cleaned[k].endTime == es[k].endTime;
  }

  /** Picks out of chained entries whose last one ends where it starts end as `EndsAtNext` says. */
  lemma PicksOfChained(out: seq<Entry>, es: seq<Entry>, clean: string -> string, idx: seq<nat>)
    requires Picks(out, es, clean, idx) && Chained(es)
    requires es != [] ==> es[|es| - 1].endTime == es[|es| - 1].startTime
    ensures EndsAtNext(out, es, idx)
  {
    forall k | 0 <= k < |idx| - 1
      ensures idx[k] + 1 < |es| && out[k].endTime == es[idx[k] + 1].startTime
    {
      assert idx[k] < idx[k + 1];
    }
  }

  /** The steps after the adjustment pick exactly the surviving entries out of chained entries, and end them as `EndsAtNext` says. */
  lemma FinishChained(es: seq<Entry>, clean: string -> string, f: Facility) returns (idx: seq<nat>)
    requires Chained(es) && (es != [] ==> es[|es| - 1].endTime == es[|es| - 1].startTime)
    ensures var out := WithFallback(CleanAndFilter(es, clean, f));
      PicksSurvivors(out, es, clean, f, idx) && EndsAtNext(out, es, idx)
  {
    idx := FinishPicks(es, clean, f);
    PicksOfChained(WithFallback(CleanAndFilter(es, clean, f)), es, clean, idx);
  }

  /** Picking out of the runs' first rows, which were picked out of the table, picks out of the table. */
  lemma ComposePicks(out: seq<Entry>, shifted: seq<Entry>, clean: string -> string, fromShifted: seq<nat>,
                     rows: seq<Row>, starts: seq<nat>, raw: seq<Row>, fromRaw: seq<nat>) returns (idx: seq<nat>)
    requires Picks(out, shifted, clean, fromShifted)
    requires Embeds(Heads(shifted), rows, starts) && Embeds(rows, raw, fromRaw)
    ensures |idx| == |out|
    ensures forall i, j :: 0 <= i < j < |idx| ==> idx[i] < idx[j]
    ensures forall k :: 0 <= k < |idx| ==>
      && idx[k] < |raw| && raw[idx[k]] in rows
      && out[k].startTime == raw[idx[k]].startTime && out[k].status == clean(raw[idx[k]].status)
    ensures forall k :: 0 <= k < |idx| ==>
      fromShifted[k] < |starts| && starts[fromShifted[k]] < |fromRaw| && idx[k] == fromRaw[starts[fromShifted[k]]]
  {
    idx := seq(|fromShifted|, k requires 0 <= k < |fromShifted| => fromRaw[starts[fromShifted[k]]]);
    forall k | 0 <= k < |idx|
      ensures idx[k] < |raw| && raw[idx[k]] in rows
      ensures out[k].startTime == raw[idx[k]].startTime && out[k].status == clean(raw[idx[k]].status)
    {
      var j := fromShifted[k];
      assert Heads(shifted)[j] == rows[starts[j]];
    }
  }

  /** A single open-ended entry that survives the filter ends at closing time. */
  lemma FinishSingle(e: Entry, clean: string -> string, f: Facility)
    requires e.endTime == e.startTime
    requires f == Pavilion ==> IsReservation(Entry(e.startTime, e.endTime, clean(e.status)), PavilionIgnore)
    ensures WithFallback(CleanAndFilter([e], clean, f)) == [Entry(e.startTime, ClosingTime, clean(e.status))]
  {
    var cleaned := CleanEntries([e], clean);
    assert cleaned == [Entry(e.startTime, e.endTime, clean(e.status))];
    if f == Pavilion {
      assert KeepReservations(cleaned, PavilionIgnore) == [] + cleaned;
    }
  }

  /**
   * Row `i` of the table opens a run of candidate rows sharing its merge key,
   * and `e` closes it: `e` is the first later candidate with another key, or
   * the end of the table when there is none.
   */
  ghost predicate RunInRaw(key: string -> string, raw: seq<Row>, ignore: seq<string>, i: nat, e: nat)
  {
    && i < e <= |raw|
    && (forall q :: i < q < e && IsCandidate(raw[q], ignore) ==> SameRun(key, raw[q], raw[i]))
    && (e < |raw| ==> IsCandidate(raw[e], ignore) && !SameRun(key, raw[e], raw[i]))
  }

  /**
   * The end of the reply entry opened by row `i` and closed at `e`: the time
   * label of the row that closes the run (row `i`'s own when none does),
   * replaced by the closing time on the last entry when that leaves it
   * open-ended.
   */
  function ReplyEnd(raw: seq<Row>, i: nat, e: nat, last: bool): string
    requires i < e <= |raw|
  {
    var end := if e < |raw| then raw[e].startTime else raw[i].startTime;
    if last && IsOpenEnded(Entry(raw[i].startTime, end, "")) then ClosingTime else end
  }

  /**
   * `end` is where the reply entry opened by row `i` ends (`last` when it is
   * the reply's last entry): at `ReplyEnd` of the run row `i` opens.
   */
  ghost predicate EndsRun(key: string -> string, raw: seq<Row>, ignore: seq<string>, i: nat, last: bool, end: string)
  {
    exists e :: RunInRaw(key, raw, ignore, i, e) && end == ReplyEnd(raw, i, e, last)
  }

  /** Merged entry `j` is the run of candidate rows that its first row opens in the table. */
  lemma RunInRawAt(key: string -> string, rows: seq<Row>, raw: seq<Row>, ignore: seq<string>,
                   fromRaw: seq<nat>, j: nat) returns (e: nat)
    requires Embeds(rows, raw, fromRaw)
    requires forall i :: 0 <= i < |raw| ==> (IsCandidate(raw[i], ignore) <==> i in fromRaw)
    requires j < |Merge(key, rows)|
    ensures var starts, merged := RunStarts(key, rows), Merge(key, rows);
      && j < |starts| && starts[j] < |fromRaw|
      && RunInRaw(key, raw, ignore, fromRaw[starts[j]], e)
      && merged[j].startTime == raw[fromRaw[starts[j]]].startTime
      && merged[j].endTime == (if e < |raw| then raw[e].startTime else raw[fromRaw[starts[j]]].startTime)
  {
    MergeRunAt(key, rows, j);
    var starts := RunStarts(key, rows);
    var lo := starts[j];
    var next := if j + 1 < |starts| then starts[j + 1] else |rows|;
    var i := fromRaw[lo];
    e := if next < |rows| then fromRaw[next] else |raw|;
    forall q | i < q < e && IsCandidate(raw[q], ignore)
      ensures SameRun(key, raw[q], raw[i])
    {
      var p :| 0 <= p < |fromRaw| && fromRaw[p] == q;
      assert lo < p < next;
    }
    if next < |rows| {
      assert fromRaw[next] in fromRaw;
    }
  }

  /** A picked entry whose source entry spans the run from `i` to `e` ends where the reply says. */
  lemma PickEnd(out: seq<Entry>, es: seq<Entry>, clean: string -> string, idx: seq<nat>, k: nat,
                raw: seq<Row>, i: nat, e: nat)
    requires Picks(out, es, clean, idx) && k < |idx|
    requires i < e <= |raw|
    requires es[idx[k]].startTime == raw[i].startTime
    requires es[idx[k]].endTime == (if e < |raw| then raw[e].startTime else raw[i].startTime)
    ensures out[k].endTime == ReplyEnd(raw, i, e, k == |idx| - 1)
  {
  }

  /** Each picked merged entry ends where the run its first row opens in the table is closed. */
  lemma TraceEnds(key: string -> string, rows: seq<Row>, raw: seq<Row>, ignore: seq<string>, fromRaw: seq<nat>,
                  out: seq<Entry>, clean: string -> string, fromMerged: seq<nat>, idx: seq<nat>)
    requires Embeds(rows, raw, fromRaw)
    requires forall i :: 0 <= i < |raw| ==> (IsCandidate(raw[i], ignore) <==> i in fromRaw)
    requires Picks(out, Merge(key, rows), clean, fromMerged) && |idx| == |fromMerged|
    requires forall k :: 0 <= k < |idx| ==>
      fromMerged[k] < |RunStarts(key, rows)| && RunStarts(key, rows)[fromMerged[k]] < |fromRaw|
      && idx[k] == fromRaw[RunStarts(key, rows)[fromMerged[k]]]
    ensures forall k :: 0 <= k < |idx| ==> EndsRun(key, raw, ignore, idx[k], k == |idx| - 1, out[k].endTime)
  {
    forall k | 0 <= k < |idx|
      ensures EndsRun(key, raw, ignore, idx[k], k == |idx| - 1, out[k].endTime)
    {
      var e := RunInRawAt(key, rows, raw, ignore, fromRaw, fromMerged[k]);
      PickEnd(out, Merge(key, rows), clean, fromMerged, k, raw, idx[k], e);
    }
  }

  /** No row strictly between rows `q` and `i` of the table is a candidate. */
  ghost predicate NoCandidateBetween(raw: seq<Row>, ignore: seq<string>, q: nat, i: nat)
    requires i <= |raw|
  {
    forall p :: q < p < i ==> !IsCandidate(raw[p], ignore)
  }

  /**
   * Row `i` of the table opens a run of the merge: it is a candidate, and the
   * nearest candidate before it, if any, has another key.
   */
  ghost predicate OpensRun(key: string -> string, raw: seq<Row>, ignore: seq<string>, i: nat)
    requires i < |raw|
  {
    && IsCandidate(raw[i], ignore)
    && forall q :: 0 <= q < i && IsCandidate(raw[q], ignore) && NoCandidateBetween(raw, ignore, q, i) ==>
         !SameRun(key, raw[q], raw[i])
  }

  /** The nearest candidate before the one at position `r` of the filtered rows is the one at position `r - 1`. */
  lemma NearestCandidate(raw: seq<Row>, ignore: seq<string>, fromRaw: seq<nat>, r: nat, q: nat)
    requires forall i, j :: 0 <= i < j < |fromRaw| ==> fromRaw[i] < fromRaw[j]
    requires forall i :: 0 <= i < |raw| ==> (IsCandidate(raw[i], ignore) <==> i in fromRaw)
    requires r < |fromRaw| && fromRaw[r] <= |raw|
    requires q < fromRaw[r] && IsCandidate(raw[q], ignore) && NoCandidateBetween(raw, ignore, q, fromRaw[r])
    ensures 0 < r && q == fromRaw[r - 1]
  {
    var t :| 0 <= t < |fromRaw| && fromRaw[t] == q;
    assert t < r;
    assert IsCandidate(raw[fromRaw[r - 1]], ignore) by {
      assert fromRaw[r - 1] in fromRaw;
    }
  }

  /** No candidate lies between the ones at positions `r - 1` and `r` of the filtered rows. */
  lemma PreviousIsNearest(raw: seq<Row>, ignore: seq<string>, fromRaw: seq<nat>, r: nat)
    requires forall i, j :: 0 <= i < j < |fromRaw| ==> fromRaw[i] < fromRaw[j]
    requires forall i :: 0 <= i < |raw| ==> (IsCandidate(raw[i], ignore) <==> i in fromRaw)
    requires 0 < r < |fromRaw| && fromRaw[r] <= |raw|
    ensures NoCandidateBetween(raw, ignore, fromRaw[r - 1], fromRaw[r])
  {
    forall p | fromRaw[r - 1] < p < fromRaw[r]
      ensures !IsCandidate(raw[p], ignore)
    {
      forall t | 0 <= t < |fromRaw|
        ensures fromRaw[t] != p
      {
        if t < r {
          assert fromRaw[t] <= fromRaw[r - 1];
        } else {
          assert fromRaw[r] <= fromRaw[t];
        }
      }
    }
  }

  /** The candidate at position `r` of the filtered rows opens a run exactly when the merge starts a run there. */
  lemma OpenerIff(key: string -> string, rows: seq<Row>, raw: seq<Row>, ignore: seq<string>, fromRaw: seq<nat>, r: nat)
    requires Embeds(rows, raw, fromRaw)
    requires forall i :: 0 <= i < |raw| ==> (IsCandidate(raw[i], ignore) <==> i in fromRaw)
    requires r < |rows|
    ensures fromRaw[r] < |raw|
    ensures OpensRun(key, raw, ignore, fromRaw[r]) <==> r in RunStarts(key, rows)
  {
    var i := fromRaw[r];
    assert IsCandidate(raw[i], ignore) by {
      assert i in fromRaw;
    }
    MergeStartIff(key, rows, r);
    forall q | 0 <= q < i && IsCandidate(raw[q], ignore) && NoCandidateBetween(raw, ignore, q, i)
      ensures 0 < r && q == fromRaw[r - 1]
    {
      NearestCandidate(raw, ignore, fromRaw, r, q);
    }
    if 0 < r {
      PreviousIsNearest(raw, ignore, fromRaw, r);
      assert rows[r - 1] == raw[fromRaw[r - 1]];
    }
  }

  /**
   * Picks out of the merge composed with the pick of the candidates out of
   * the table pick exactly the rows that open a run and whose status survives.
   */
  lemma PickedOpeners(key: string -> string, rows: seq<Row>, raw: seq<Row>, ignore: seq<string>, fromRaw: seq<nat>,
                      f: Facility, clean: string -> string, fromMerged: seq<nat>, idx: seq<nat>)
    requires Embeds(rows, raw, fromRaw)
    requires forall i :: 0 <= i < |raw| ==> (IsCandidate(raw[i], ignore) <==> i in fromRaw)
    requires forall j :: 0 <= j < |Merge(key, rows)| ==> (j in fromMerged <==> Survives(f, clean, Merge(key, rows)[j].status))
    requires |idx| == |fromMerged|
    requires forall k :: 0 <= k < |idx| ==>
      fromMerged[k] < |RunStarts(key, rows)| && RunStarts(key, rows)[fromMerged[k]] < |fromRaw|
      && idx[k] == fromRaw[RunStarts(key, rows)[fromMerged[k]]]
    ensures forall i :: 0 <= i < |raw| ==> (i in idx <==> OpensRun(key, raw, ignore, i) && Survives(f, clean, raw[i].status))
  {
    var merged, starts := Merge(key, rows), RunStarts(key, rows);
    MergeInOrder(key, rows);
    forall i | 0 <= i < |raw|
      ensures i in idx <==> OpensRun(key, raw, ignore, i) && Survives(f, clean, raw[i].status)
    {
      if i in idx {
        var k :| 0 <= k < |idx| && idx[k] == i;
        var j := fromMerged[k];
        OpenerIff(key, rows, raw, ignore, fromRaw, starts[j]);
        assert Heads(merged)[j] == rows[starts[j]];
      }
      if IsCandidate(raw[i], ignore) {
        var r :| 0 <= r < |fromRaw| && fromRaw[r] == i;
        OpenerIff(key, rows, raw, ignore, fromRaw, r);
        if OpensRun(key, raw, ignore, i) && Survives(f, clean, raw[i].status) {
          var j :| 0 <= j < |starts| && starts[j] == r;
          assert Heads(merged)[j] == rows[starts[j]];
          var k :| 0 <= k < |fromMerged| && fromMerged[k] == j;
          assert idx[k] == i;
        }
      }
    }
  }

  /**
   * `idx` traces the reply `out` back to the table `raw`, in order: each
   * entry comes from a candidate row, keeps its label, carries its cleaned
   * status and ends as `EndsRun` says; and a row yields an entry exactly when
   * it opens a run and its status survives.
   */
  ghost predicate TracesTo(key: string -> string, out: seq<Entry>, raw: seq<Row>, ignore: seq<string>,
                           f: Facility, clean: string -> string, idx: seq<nat>)
  {
    && |idx| == |out|
    && (forall i, j :: 0 <= i < j < |idx| ==> idx[i] < idx[j])
    && (forall k :: 0 <= k < |idx| ==>
          && idx[k] < |raw|
          && IsCandidate(raw[idx[k]], ignore)
          && out[k].startTime == raw[idx[k]].startTime
          && out[k].status == clean(raw[idx[k]].status)
          && EndsRun(key, raw, ignore, idx[k], k == |idx| - 1, out[k].endTime))
    && (forall i :: 0 <= i < |raw| ==> (i in idx <==> OpensRun(key, raw, ignore, i) && Survives(f, clean, raw[i].status)))
  }

  /** Entries picked out of the merge of the table's candidate rows, exactly those that survive, trace back to the table. */
  lemma TraceReply(key: string -> string, rows: seq<Row>, raw: seq<Row>, ignore: seq<string>, fromRaw: seq<nat>,
                   f: Facility, clean: string -> string, out: seq<Entry>, fromMerged: seq<nat>) returns (idx: seq<nat>)
    requires Embeds(rows, raw, fromRaw)
    requires forall i :: 0 <= i < |raw| ==> (IsCandidate(raw[i], ignore) <==> i in fromRaw)
    requires PicksSurvivors(out, Merge(key, rows), clean, f, fromMerged)
    ensures TracesTo(key, out, raw, ignore, f, clean, idx)
  {
    var merged, starts := Merge(key, rows), RunStarts(key, rows);
    MergeInOrder(key, rows);
    idx := ComposePicks(out, merged, clean, fromMerged, rows, starts, raw, fromRaw);
    TraceEnds(key, rows, raw, ignore, fromRaw, out, clean, fromMerged, idx);
    PickedOpeners(key, rows, raw, ignore, fromRaw, f, clean, fromMerged, idx);
    forall k | 0 <= k < |idx|
      ensures IsCandidate(raw[idx[k]], ignore)
    {
      assert idx[k] in fromRaw;
    }
  }

  // The handler's own pipeline.

  /** The rows that reach the merge carry labels and are neither placeholders nor ignored. */
  lemma CandidateRowsFacts(table: seq<Cells>, f: Facility)
    ensures var rows := CandidateRows(table, f);
      forall k :: 0 <= k < |rows| ==> IsValidTime(rows[k].startTime) && IsCandidate(rows[k], RawIgnore(f))
  {
    var raw := Admitted(table);
    var rows := CandidateRows(table, f);
    AdmittedAreLabelled(table);
    var idx := CandidatesInOrder(raw, RawIgnore(f));
    forall k | 0 <= k < |rows|
      ensures IsValidTime(rows[k].startTime) && IsCandidate(rows[k], RawIgnore(f))
    {
      assert rows[k] == raw[idx[k]] && idx[k] in idx;
      assert IsLabelledRow(raw[idx[k]]);
    }
  }

  /**
   * Every merged entry comes from a row that is not a placeholder and whose
   * raw status is not ignored: for 2027, no merged entry carries a status
   * from its ignore list.
   */
  lemma MergedEntriesAreCandidates(table: seq<Cells>, f: Facility)
    ensures var shifted := Shifted(table, f);
      forall k :: 0 <= k < |shifted| ==>
        shifted[k].status != shifted[k].startTime && shifted[k].status !in RawIgnore(f)
  {
    var rows := CandidateRows(table, f);
    CandidateRowsFacts(table, f);
    ShiftedMergeFacts(NormalizeStatus, rows);
    var shifted := Shifted(table, f);
    var starts := RunStarts(NormalizeStatus, rows);
    forall k | 0 <= k < |shifted|
      ensures shifted[k].status != shifted[k].startTime && shifted[k].status !in RawIgnore(f)
    {
      assert Heads(shifted)[k] == rows[starts[k]];
    }
  }

  /** Every entry of the reply starts and ends at a time label (`9:00PM` included). */
  lemma ReservationsAreLabelled(table: seq<Cells>, f: Facility)
    ensures AllLabels(Reservations(table, f), IsValidTime)
  {
    CandidateRowsFacts(table, f);
    ShiftedMergeLabels(NormalizeStatus, CandidateRows(table, f), IsValidTime);
    ClosingTimeIsValid();
    FinishKeepsLabels(Shifted(table, f), CleanStatus, f, IsValidTime);
  }

  /** The 2103 reply has no entry with an empty or ignored status (compared exactly, after cleaning). */
  lemma PavilionHasOnlyReservations(table: seq<Cells>)
    ensures var out := Reservations(table, Pavilion);
      forall k :: 0 <= k < |out| ==> out[k].status != "" && out[k].status !in PavilionIgnore
  {
    FinishPavilion(Shifted(table, Pavilion), CleanStatus);
  }

  /** The 2027 reply is contiguous and, when not empty, ends at closing time. */
  lemma SportCourtIsContiguous(table: seq<Cells>)
    ensures var out := Reservations(table, SportCourt);
      && Chained(out)
      && (out != [] ==> out[|out| - 1].endTime == ClosingTime)
  {
    var rows := CandidateRows(table, SportCourt);
    ShiftedMergeFacts(NormalizeStatus, rows);
    FinishSportCourt(Shifted(table, SportCourt), CleanStatus);
  }

  /** When the merge key is a case-folding of the cleaned status, neighbouring 2027-style entries differ under that folding. */
  lemma FoldedNeighboursDiffer(key: string -> string, clean: string -> string, fold: string -> string, rows: seq<Row>)
    requires forall s :: key(s) == fold(clean(s))
    ensures var out := WithFallback(CleanAndFilter(Shift(Merge(key, rows)), clean, SportCourt));
      forall k :: 0 < k < |out| ==> fold(out[k - 1].status) != fold(out[k].status)
  {
    var merged := Merge(key, rows);
    var shifted := Shift(merged);
    MergeNeighboursDiffer(key, rows);
    ShiftedMergeFacts(key, rows);
    FinishSportCourt(shifted, clean);
    var out := WithFallback(CleanAndFilter(shifted, clean, SportCourt));
    forall k | 0 < k < |out|
      ensures fold(out[k - 1].status) != fold(out[k].status)
    {
      assert out[k - 1].status == clean(merged[k - 1].status);
      assert out[k].status == clean(merged[k].status);
    }
  }

  /** Neighbouring entries of the 2027 reply never have the same status up to letter case. */
  lemma SportCourtNeighboursDiffer(table: seq<Cells>)
    ensures var out := Reservations(table, SportCourt);
      forall k :: 0 < k < |out| ==> !EqualsIgnoringCase(out[k - 1].status, out[k].status)
  {
    FoldedNeighboursDiffer(NormalizeStatus, CleanStatus, Lower, CandidateRows(table, SportCourt));
    var out := Reservations(table, SportCourt);
    forall k | 0 < k < |out|
      ensures !EqualsIgnoringCase(out[k - 1].status, out[k].status)
    {
      LowerEqualIff(out[k - 1].status, out[k].status);
    }
  }

  /**
   * The reply traces back to the admitted rows in table order (`TracesTo`):
   * each entry comes from a row that is neither a placeholder nor ignored,
   * keeps its label and cleaned status, and ends at the label of the first
   * later candidate with another key (its own when there is none), or at
   * closing time when it is the last and that leaves it open-ended; and a
   * row yields an entry exactly when it opens a run of the merge and, for
   * 2103, its cleaned status is a reservation.
   */
  lemma ReservationsTrace(table: seq<Cells>, f: Facility) returns (idx: seq<nat>)
    ensures TracesTo(NormalizeStatus, Reservations(table, f), Admitted(table), RawIgnore(f), f, CleanStatus, idx)
  {
    var raw := Admitted(table);
    var rows := CandidateRows(table, f);
    var fromRaw := CandidatesInOrder(raw, RawIgnore(f));
    ShiftOfMergeIsIdentity(NormalizeStatus, rows);
    var merged := Merge(NormalizeStatus, rows);
    assert Shifted(table, f) == merged;
    var fromMerged := FinishPicks(merged, CleanStatus, f);
    assert PicksSurvivors(Reservations(table, f), merged, CleanStatus, f, fromMerged);
    idx := TraceReply(NormalizeStatus, rows, raw, RawIgnore(f), fromRaw, f, CleanStatus, Reservations(table, f), fromMerged);
  }

  /** The adjusted entries are chained, and the last one ends where it starts. */
  lemma ShiftedIsChained(table: seq<Cells>, f: Facility)
    ensures var shifted := Shifted(table, f);
      Chained(shifted) && (shifted != [] ==> shifted[|shifted| - 1].endTime == shifted[|shifted| - 1].startTime)
  {
    ShiftedMergeFacts(NormalizeStatus, CandidateRows(table, f));
  }

  /**
   * The reply picks, in order, exactly the adjusted entries that survive,
   * each keeping its end: an entry other than the last ends where the next
   * adjusted entry starts, even when the 2103 filter dropped that one, and
   * the last ends at closing time when it is open-ended, which it always is
   * when it comes from the last adjusted entry.
   */
  lemma ReservationsFromShifted(table: seq<Cells>, f: Facility) returns (idx: seq<nat>)
    ensures PicksSurvivors(Reservations(table, f), Shifted(table, f), CleanStatus, f, idx)
    ensures EndsAtNext(Reservations(table, f), Shifted(table, f), idx)
  {
    ShiftedIsChained(table, f);
    idx := FinishChained(Shifted(table, f), CleanStatus, f);
  }

  /**
   * When a single row reaches the merge (and, for 2103, its cleaned status is
   * a reservation) the reply is that one reservation, ending at closing time.
   */
  lemma SingleReservation(table: seq<Cells>, f: Facility)
    requires |CandidateRows(table, f)| == 1
    requires var r := CandidateRows(table, f)[0];
      f == Pavilion ==> CleanStatus(r.status) != "" && CleanStatus(r.status) !in PavilionIgnore
    ensures var r := CandidateRows(table, f)[0];
      Reservations(table, f) == [Entry(r.startTime, ClosingTime, CleanStatus(r.status))]
  {
    var rows := CandidateRows(table, f);
    var r := rows[0];
    var e := Entry(r.startTime, r.startTime, r.status);
    assert Shifted(table, f) == [e] by {
      assert rows == [r];
      MergeSingle(NormalizeStatus, r);
      assert Shift([e]) == [e];
    }
    assert WithFallback(CleanAndFilter([e], CleanStatus, f)) == [Entry(r.startTime, ClosingTime, CleanStatus(r.status))] by {
      FinishSingle(e, CleanStatus, f);
    }
  }

  /** With no row reaching the merge the reply is empty; for 2027 the converse holds too. */
  lemma EmptyReservations(table: seq<Cells>, f: Facility)
    ensures CandidateRows(table, f) == [] ==> Reservations(table, f) == []
    ensures Reservations(table, SportCourt) == [] ==> CandidateRows(table, SportCourt) == []
  {
  }
}
