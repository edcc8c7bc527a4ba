/**
 * Step 3 of the `/proxy` handler, "merge consecutive identical"
 * (server.js:53-69 for facility 2103, server.js:143-158 for facility 2027):
 * each maximal run of consecutive rows whose statuses normalise to the same
 * key becomes one entry, keeping the first row's label and status; its end is
 * the label of the row after the run, or its own label for the last run.
 */
module Runs {
  import opened Rows

  /** An entry of the reconstructed schedule: `{ startTime, endTime, status }`. */
  datatype Entry = Entry(startTime: string, endTime: string, status: string)

  /** Two rows belong to the same run when their statuses have the same key. */
  predicate SameRun(key: string -> string, a: Row, b: Row)
  {
    key(a.status) == key(b.status)
  }

  /** The end of the run that starts at `i`, scanning from `j` (the inner `while`). */
  function RunEnd(key: string -> string, rows: seq<Row>, i: nat, j: nat): (k: nat)
    requires i < j <= |rows|
    ensures j <= k <= |rows|
    ensures forall p :: j <= p < k ==> SameRun(key, rows[p], rows[i])
    ensures k < |rows| ==> !SameRun(key, rows[k], rows[i])
    decreases |rows| - j
  {
    if j < |rows| && SameRun(key, rows[j], rows[i]) then RunEnd(key, rows, i, j + 1) else j
  }

  /** The entry of a run that starts at `i` and stops before `k`. */
  function RunEntry(rows: seq<Row>, i: nat, k: nat): Entry
    requires i < |rows| && k <= |rows|
  {
    Entry(rows[i].startTime, if k < |rows| then rows[k].startTime else rows[i].startTime, rows[i].status)
  }

  /** The entries of the runs from index `i` on. */
  function MergeFrom(key: string -> string, rows: seq<Row>, i: nat): (merged: seq<Entry>)
    requires i <= |rows|
    ensures |merged| <= |rows| - i
    ensures merged == [] <==> i == |rows|
    decreases |rows| - i
  {
    if i == |rows| then []
    else
      var k := RunEnd(key, rows, i, i + 1);
      [RunEntry(rows, i, k)] + MergeFrom(key, rows, k)
  }

  /** The indices at which the runs from index `i` on start. */
  function RunStartsFrom(key: string -> string, rows: seq<Row>, i: nat): (starts: seq<nat>)
    requires i <= |rows|
    decreases |rows| - i
  {
    if i == |rows| then [] else [i] + RunStartsFrom(key, rows, RunEnd(key, rows, i, i + 1))
  }

  /** The `merged` list. */
  function Merge(key: string -> string, rows: seq<Row>): seq<Entry>
  {
    MergeFrom(key, rows, 0)
  }

  function RunStarts(key: string -> string, rows: seq<Row>): seq<nat>
  {
    RunStartsFrom(key, rows, 0)
  }

  /**
   * Rows `lo` up to `next` form one maximal run: they all share the key of
   * row `lo`, and the row at `next`, if any, does not.
   */
  predicate IsMaximalRun(key: string -> string, rows: seq<Row>, lo: nat, next: nat)
    requires lo < next <= |rows|
  {
    && (forall p :: lo <= p < next ==> SameRun(key, rows[p], rows[lo]))
    && (next < |rows| ==> !SameRun(key, rows[next], rows[lo]))
  }

  /**
   * `merged` splits `rows[lo..]` into maximal runs that start at the indices
   * `starts`, one after another; each entry is its run's first row, ending at
   * the label of the row after the run (its own label for the last run).
   */
  ghost predicate IsRunCover(key: string -> string, rows: seq<Row>, lo: nat, starts: seq<nat>, merged: seq<Entry>)
    decreases |starts|
  {
    if starts == [] then lo == |rows| && merged == []
    else
      var next := if |starts| > 1 then starts[1] else |rows|;
      && lo < next <= |rows|
      && starts[0] == lo
      && merged != []
      && IsMaximalRun(key, rows, lo, next)
      && merged[0] == RunEntry(rows, lo, next)
      && IsRunCover(key, rows, next, starts[1..], merged[1..])
  }

  /** A maximal run followed by a cover of the rows after it is a cover. */
  lemma CoverStep(key: string -> string, rows: seq<Row>, lo: nat, next: nat, starts: seq<nat>, merged: seq<Entry>)
    requires lo < next <= |rows| && IsMaximalRun(key, rows, lo, next)
    requires IsRunCover(key, rows, next, starts, merged)
    ensures IsRunCover(key, rows, lo, [lo] + starts, [RunEntry(rows, lo, next)] + merged)
  {
    var s, m := [lo] + starts, [RunEntry(rows, lo, next)] + merged;
    assert s[1..] == starts && m[1..] == merged;
    assert starts != [] ==> starts[0] == next;
    assert starts == [] ==> next == |rows|;
  }

  /** The merge splits the rows into their maximal runs. */
  lemma {:induction false} MergeFromIsRunCover(key: string -> string, rows: seq<Row>, lo: nat)
    requires lo <= |rows|
    ensures IsRunCover(key, rows, lo, RunStartsFrom(key, rows, lo), MergeFrom(key, rows, lo))
    decreases |rows| - lo
  {
    if lo < |rows| {
      var k := RunEnd(key, rows, lo, lo + 1);
      var starts, merged := RunStartsFrom(key, rows, k), MergeFrom(key, rows, k);
      MergeFromIsRunCover(key, rows, k);
      CoverStep(key, rows, lo, k, starts, merged);
      assert RunStartsFrom(key, rows, lo) == [lo] + starts;
      assert MergeFrom(key, rows, lo) == [RunEntry(rows, lo, k)] + merged;
    }
  }

  lemma MergeIsRunCover(key: string -> string, rows: seq<Row>)
    ensures IsRunCover(key, rows, 0, RunStarts(key, rows), Merge(key, rows))
  {
    MergeFromIsRunCover(key, rows, 0);
  }

  /** There is only one way to split rows into maximal runs. */
  lemma {:induction false} RunCoverUnique(key: string -> string, rows: seq<Row>, lo: nat,
                                          s1: seq<nat>, m1: seq<Entry>, s2: seq<nat>, m2: seq<Entry>)
    requires IsRunCover(key, rows, lo, s1, m1) && IsRunCover(key, rows, lo, s2, m2)
    ensures s1 == s2 && m1 == m2
    decreases |s1|
  {
    if s1 != [] {
      var n1 := if |s1| > 1 then s1[1] else |rows|;
      var n2 := if |s2| > 1 then s2[1] else |rows|;
      if n1 < n2 {
        assert false;
      }
      if n2 < n1 {
        assert false;
      }
      RunCoverUnique(key, rows, n1, s1[1..], m1[1..], s2[1..], m2[1..]);
      assert s1 == [s1[0]] + s1[1..] && s2 == [s2[0]] + s2[1..];
      assert m1 == [m1[0]] + m1[1..] && m2 == [m2[0]] + m2[1..];
    }
  }

  /** The merge is the one cover: any split into maximal runs is the merge. */
  lemma MergeIsTheRunCover(key: string -> string, rows: seq<Row>, starts: seq<nat>, merged: seq<Entry>)
    requires IsRunCover(key, rows, 0, starts, merged)
    ensures merged == Merge(key, rows) && starts == RunStarts(key, rows)
  {
    MergeIsRunCover(key, rows);
    RunCoverUnique(key, rows, 0, starts, merged, RunStarts(key, rows), Merge(key, rows));
  }

  /** In a cover, neighbouring entries never share a key. */
  lemma {:induction false} CoverNeighboursDiffer(key: string -> string, rows: seq<Row>, lo: nat, starts: seq<nat>, merged: seq<Entry>)
    requires IsRunCover(key, rows, lo, starts, merged)
    ensures forall k :: 0 < k < |merged| ==> key(merged[k - 1].status) != key(merged[k].status)
    decreases |starts|
  {
    if starts != [] && |starts| > 1 {
      var tail := merged[1..];
      CoverNeighboursDiffer(key, rows, starts[1], starts[1..], tail);
      assert tail[0].status == rows[starts[1]].status;
      forall k | 1 < k < |merged|
        ensures key(merged[k - 1].status) != key(merged[k].status)
      {
        assert merged[k - 1] == tail[k - 2] && merged[k] == tail[k - 1];
      }
    }
  }

  lemma MergeNeighboursDiffer(key: string -> string, rows: seq<Row>)
    ensures var merged := Merge(key, rows);
      forall k :: 0 < k < |merged| ==> key(merged[k - 1].status) != key(merged[k].status)
  {
    MergeIsRunCover(key, rows);
    CoverNeighboursDiffer(key, rows, 0, RunStarts(key, rows), Merge(key, rows));
  }

  /** In a cover, every entry but the last ends where the next one starts, and the last ends where it starts. */
  lemma {:induction false} CoverEnds(key: string -> string, rows: seq<Row>, lo: nat, starts: seq<nat>, merged: seq<Entry>)
    requires IsRunCover(key, rows, lo, starts, merged)
    ensures forall k :: 0 < k < |merged| ==> merged[k - 1].endTime == merged[k].startTime
    ensures merged != [] ==> merged[|merged| - 1].endTime == merged[|merged| - 1].startTime
    decreases |starts|
  {
    if starts != [] && |starts| > 1 {
      var tail := merged[1..];
      CoverEnds(key, rows, starts[1], starts[1..], tail);
      assert tail[0].startTime == rows[starts[1]].startTime;
      forall k | 1 < k < |merged|
        ensures merged[k - 1].endTime == merged[k].startTime
      {
        assert merged[k - 1] == tail[k - 2] && merged[k] == tail[k - 1];
      }
      assert merged[|merged| - 1] == tail[|tail| - 1];
    }
  }

  /** The merge already chains its entries end to start; its last entry ends where it starts. */
  lemma MergeEnds(key: string -> string, rows: seq<Row>)
    ensures var merged := Merge(key, rows);
      && (forall k :: 0 < k < |merged| ==> merged[k - 1].endTime == merged[k].startTime)
      && (merged != [] ==> merged[|merged| - 1].endTime == merged[|merged| - 1].startTime)
  {
    MergeIsRunCover(key, rows);
    CoverEnds(key, rows, 0, RunStarts(key, rows), Merge(key, rows));
  }

  /** The row an entry was made from. */
  function Head(e: Entry): Row
  {
    Row(e.startTime, e.status)
  }

  function Heads(es: seq<Entry>): (rs: seq<Row>)
    ensures |rs| == |es| && forall k :: 0 <= k < |es| ==> rs[k] == Head(es[k])
  {
    seq(|es|, k requires 0 <= k < |es| => Head(es[k]))
  }

  /** In a cover, the entries are the runs' first rows, in row order. */
  lemma {:induction false} CoverInOrder(key: string -> string, rows: seq<Row>, lo: nat, starts: seq<nat>, merged: seq<Entry>)
    requires IsRunCover(key, rows, lo, starts, merged)
    ensures Embeds(Heads(merged), rows, starts)
    ensures forall k :: 0 <= k < |starts| ==> lo <= starts[k]
    decreases |starts|
  {
    if starts != [] {
      var tail := merged[1..];
      CoverInOrder(key, rows, if |starts| > 1 then starts[1] else |rows|, starts[1..], tail);
      forall k | 0 < k < |starts|
        ensures starts[k] < |rows| && Heads(merged)[k] == rows[starts[k]]
      {
        assert merged[k] == tail[k - 1] && starts[k] == starts[1..][k - 1];
      }
    }
  }

  lemma MergeInOrder(key: string -> string, rows: seq<Row>)
    ensures Embeds(Heads(Merge(key, rows)), rows, RunStarts(key, rows))
  {
    MergeIsRunCover(key, rows);
    CoverInOrder(key, rows, 0, RunStarts(key, rows), Merge(key, rows));
  }

  /** Entry `j` of a cover is the maximal run that starts at `starts[j]` and stops at the next start. */
  lemma {:induction false} CoverRunAt(key: string -> string, rows: seq<Row>, lo: nat, starts: seq<nat>, merged: seq<Entry>, j: nat)
    requires IsRunCover(key, rows, lo, starts, merged) && j < |starts|
    ensures var next := if j + 1 < |starts| then starts[j + 1] else |rows|;
      && j < |merged| && starts[j] < next <= |rows|
      && IsMaximalRun(key, rows, starts[j], next)
      && merged[j] == RunEntry(rows, starts[j], next)
    decreases |starts|
  {
    if j > 0 {
      CoverRunAt(key, rows, starts[1], starts[1..], merged[1..], j - 1);
      assert starts[1..][j - 1] == starts[j] && merged[1..][j - 1] == merged[j];
      if j + 1 < |starts| {
        assert starts[1..][j] == starts[j + 1];
      }
    }
  }

  /**
   * Merged entry `j` is the maximal run from `RunStarts(key, rows)[j]` up to
   * the next run's start, ending at that run's label (its own for the last).
   */
  lemma MergeRunAt(key: string -> string, rows: seq<Row>, j: nat)
    requires j < |Merge(key, rows)|
    ensures var starts, merged := RunStarts(key, rows), Merge(key, rows);
      var next := if j + 1 < |starts| then starts[j + 1] else |rows|;
      && |starts| == |merged| && starts[j] < next <= |rows|
      && IsMaximalRun(key, rows, starts[j], next)
      && merged[j] == RunEntry(rows, starts[j], next)
  {
    MergeIsRunCover(key, rows);
    MergeInOrder(key, rows);
    CoverRunAt(key, rows, 0, RunStarts(key, rows), Merge(key, rows), j);
  }

  /** In a cover, a run starts at row `r` exactly when `r` is the first row or its key differs from the row before. */
  lemma {:induction false} CoverStartIff(key: string -> string, rows: seq<Row>, lo: nat, starts: seq<nat>, merged: seq<Entry>, r: nat)
    requires IsRunCover(key, rows, lo, starts, merged) && lo <= r < |rows|
    ensures r in starts <==> r == lo || !SameRun(key, rows[r - 1], rows[r])
    decreases |starts|
  {
    var next := if |starts| > 1 then starts[1] else |rows|;
    CoverInOrder(key, rows, next, starts[1..], merged[1..]);
    assert starts == [lo] + starts[1..];
    if r < next {
      assert r !in starts[1..];
      if lo < r {
        assert SameRun(key, rows[r - 1], rows[lo]) && SameRun(key, rows[r], rows[lo]);
      }
    } else {
      CoverStartIff(key, rows, next, starts[1..], merged[1..], r);
      if r == next {
        assert SameRun(key, rows[r - 1], rows[lo]) && !SameRun(key, rows[r], rows[lo]);
      }
    }
  }

  /** A run of the merge starts at row `r` exactly when `r` is the first row or its key differs from the row before. */
  lemma MergeStartIff(key: string -> string, rows: seq<Row>, r: nat)
    requires r < |rows|
    ensures r in RunStarts(key, rows) <==> r == 0 || !SameRun(key, rows[r - 1], rows[r])
  {
    MergeIsRunCover(key, rows);
    CoverStartIff(key, rows, 0, RunStarts(key, rows), Merge(key, rows), r);
  }

  /** A single row is a run of its own, open-ended. */
  lemma MergeSingle(key: string -> string, r: Row)
    ensures Merge(key, [r]) == [Entry(r.startTime, r.startTime, r.status)]
  {
    assert RunEnd(key, [r], 0, 1) == 1;
  }

  /** The inner `while`: scans past the rows that share the key of row `i`. */
  method ScanRun(key: string -> string, rows: seq<Row>, i: nat) returns (j: nat)
    requires i < |rows|
    ensures j == RunEnd(key, rows, i, i + 1)
  {
    j := i + 1;
    while j < |rows| && key(rows[j].status) == key(rows[i].status)
      invariant i < j <= |rows|
      invariant RunEnd(key, rows, i, j) == RunEnd(key, rows, i, i + 1)
    {
      j := j + 1;
    }
  }

  /** The outer `while`: one entry per run, in row order. */
  method MergeRuns(key: string -> string, rows: seq<Row>) returns (merged: seq<Entry>)
    ensures merged == Merge(key, rows)
  {
    merged := [];
    var i := 0;
    while i < |rows|
      invariant i <= |rows|
      invariant merged + MergeFrom(key, rows, i) == Merge(key, rows)
    {
      var current := rows[i];
      var j := ScanRun(key, rows, i);
      var endTime := if j < |rows| then rows[j].startTime else current.startTime;
      assert MergeFrom(key, rows, i) == [Entry(current.startTime, endTime, current.status)] + MergeFrom(key, rows, j);
      merged := merged + [Entry(current.startTime, endTime, current.status)];
      i := j;
    }
  }
}
