/**
 * Row admission and placeholder removal of the `/proxy` handler
 * (server.js:41-51 for facility 2103, server.js:123-141 for facility 2027).
 * The cell texts come from the HTML table; their extraction is not modelled.
 */
module Rows {
  import opened Wrappers
  import opened Strings
  import opened TimeLabels

  /** One table row as scraped: the text of its time cell and of its status cell. */
  datatype Cells = Cells(timeText: string, statusText: string)

  /** A row that passed the time check: `{ startTime, status }`. */
  datatype Row = Row(startTime: string, status: string)

  /** A row whose status is its own time label carries no reservation. */
  predicate IsPlaceholder(r: Row)
  {
    r.status == r.startTime
  }

  /** The values `f` yields on `xs`, in order: a `push` guarded by an `if`, once per element. */
  function Choose<A, B>(f: A -> Option<B>, xs: seq<A>): (ys: seq<B>)
    ensures |ys| <= |xs|
  {
    if xs == [] then []
    else
      var ys := Choose(f, xs[..|xs| - 1]);
      match f(xs[|xs| - 1])
      case Some(y) => ys + [y]
      case None => ys
  }

  /** `Choose` keeps, in order and once each, exactly the elements on which `f` yields a value. */
  lemma {:induction false} ChooseInOrder<A, B>(f: A -> Option<B>, xs: seq<A>) returns (idx: seq<nat>)
    ensures var ys := Choose(f, xs);
      && |idx| == |ys|
      && (forall i, j :: 0 <= i < j < |idx| ==> idx[i] < idx[j])
      && (forall k :: 0 <= k < |idx| ==> idx[k] < |xs| && f(xs[idx[k]]) == Some(ys[k]))
      && (forall i :: 0 <= i < |xs| ==> (f(xs[i]).Some? <==> i in idx))
  {
    if xs == [] {
      idx := [];
    } else {
      var n := |xs| - 1;
      var init := xs[..n];
      var prev := ChooseInOrder(f, init);
      var before := Choose(f, init);
      var ys := Choose(f, xs);
      if f(xs[n]).Some? {
        assert ys == before + [f(xs[n]).value];
        idx := prev + [n];
      } else {
        idx := prev;
      }
      assert n !in prev;
      forall i | 0 <= i < n
        ensures f(xs[i]).Some? <==> i in idx
      {
        assert xs[i] == init[i];
        assert i in idx <==> i in prev;
      }
    }
  }

  /** Whatever holds of every value `f` yields holds of every value `Choose` keeps. */
  lemma ChooseKeeps<A, B>(f: A -> Option<B>, xs: seq<A>, p: B -> bool)
    requires forall x :: f(x).Some? ==> p(f(x).value)
    ensures var ys := Choose(f, xs); forall k :: 0 <= k < |ys| ==> p(ys[k])
  {
    var idx := ChooseInOrder(f, xs);
  }

  /**
   * One row of the `each` callback: both cells are trimmed; the row is kept
   * only when its time text is a label, and an empty status becomes the label.
   */
  function AdmitCells(c: Cells): (r: Option<Row>)
    ensures r.Some? <==> IsValidTime(Trim(c.timeText))
    ensures r.Some? ==> r.value.startTime == Trim(c.timeText) && r.value.status != ""
    ensures r.Some? && Trim(c.statusText) != "" ==> r.value.status == Trim(c.statusText)
    ensures r.Some? ==>
      (IsPlaceholder(r.value) <==> Trim(c.statusText) == "" || Trim(c.statusText) == Trim(c.timeText))
  {
    var time := Trim(c.timeText);
    var status := Trim(c.statusText);
    if IsValidTime(time) then Some(Row(time, if status == "" then time else status)) else None
  }

  /** A row that starts at a time label and has a status. */
  predicate IsLabelledRow(r: Row)
  {
    IsValidTime(r.startTime) && r.status != ""
  }

  /** The `raw` list: the admitted rows, in table order. */
  function Admitted(table: seq<Cells>): (raw: seq<Row>)
    ensures |raw| <= |table|
  {
    Choose(AdmitCells, table)
  }

  /** Every admitted row starts at a time label and has a status. */
  lemma AdmittedAreLabelled(table: seq<Cells>)
    ensures var raw := Admitted(table); forall k :: 0 <= k < |raw| ==> IsLabelledRow(raw[k])
  {
    ChooseKeeps(AdmitCells, table, IsLabelledRow);
    assert Admitted(table) == Choose(AdmitCells, table);
  }

  /** The `raw.push` loop over the table rows. */
  method AdmitRows(table: seq<Cells>) returns (raw: seq<Row>)
    ensures raw == Admitted(table)
  {
    raw := [];
    for i := 0 to |table|
      invariant raw == Admitted(table[..i])
    {
      assert table[..i + 1][..i] == table[..i];
      match AdmitCells(table[i])
      case Some(r) => raw := raw + [r];
      case None =>
    }
    assert table[..|table|] == table;
  }

  /** Whether a row survives the `filter`: not a placeholder, and not an ignored raw status. */
  predicate IsCandidate(r: Row, ignore: seq<string>)
  {
    !IsPlaceholder(r) && r.status !in ignore
  }

  /**
   * The `filter` before merging: drops placeholders (server.js:51) and, for
   * facility 2027, rows whose raw status is on its ignore list (server.js:138-141).
   */
  function Candidates(raw: seq<Row>, ignore: seq<string>): (rows: seq<Row>)
    ensures |rows| <= |raw|
  {
    Filter(IsCandidate, ignore, raw)
  }

  /** `idx` picks the elements of `a`, in order, out of `b`. */
  ghost predicate Embeds<T>(a: seq<T>, b: seq<T>, idx: seq<nat>)
  {
    && |idx| == |a|
    && (forall k :: 0 <= k < |idx| ==> idx[k] < |b| && a[k] == b[idx[k]])
    && (forall i, j :: 0 <= i < j < |idx| ==> idx[i] < idx[j])
  }

  /** Keeps an element exactly when it passes `p` (given `c`). */
  function KeepIf<T, C>(p: (T, C) -> bool, c: C): T -> Option<T>
  {
    (x: T) => if p(x, c) then Some(x) else None
  }

  /** The elements of `xs` that pass `p` (given `c`), in order: a `filter`. */
  function Filter<T, C>(p: (T, C) -> bool, c: C, xs: seq<T>): (ys: seq<T>)
    ensures |ys| <= |xs|
  {
    Choose(KeepIf(p, c), xs)
  }

  /**
   * A `filter` keeps, in order and once each, exactly the elements that
   * pass; so an element is kept exactly when it occurs and passes.
   */
  lemma FilterInOrder<T, C>(p: (T, C) -> bool, c: C, xs: seq<T>) returns (idx: seq<nat>)
    ensures Embeds(Filter(p, c, xs), xs, idx)
    ensures forall i :: 0 <= i < |xs| ==> (p(xs[i], c) <==> i in idx)
    ensures forall y :: y in Filter(p, c, xs) <==> y in xs && p(y, c)
  {
    var ys := Filter(p, c, xs);
    assert ys == Choose(KeepIf(p, c), xs);
    idx := ChooseInOrder(KeepIf(p, c), xs);
    forall y | y in xs && p(y, c)
      ensures y in ys
    {
      var i :| 0 <= i < |xs| && xs[i] == y;
      var k :| 0 <= k < |idx| && idx[k] == i;
    }
  }

  /**
   * The admitted rows are, in table order, the rows of exactly those table
   * rows that `AdmitCells` admits (those whose trimmed time text is a label).
   */
  lemma AdmittedInOrder(table: seq<Cells>) returns (idx: seq<nat>)
    ensures var raw := Admitted(table);
      && |idx| == |raw|
      && (forall i, j :: 0 <= i < j < |idx| ==> idx[i] < idx[j])
      && (forall k :: 0 <= k < |idx| ==> idx[k] < |table| && AdmitCells(table[idx[k]]) == Some(raw[k]))
      && (forall i :: 0 <= i < |table| ==> (AdmitCells(table[i]).Some? <==> i in idx))
  {
    idx := ChooseInOrder(AdmitCells, table);
  }

  /**
   * Removing placeholders keeps the remaining rows in their table order, and
   * picks every row that survives, once.
   */
  lemma CandidatesInOrder(raw: seq<Row>, ignore: seq<string>) returns (idx: seq<nat>)
    ensures Embeds(Candidates(raw, ignore), raw, idx)
    ensures forall i :: 0 <= i < |raw| ==> (IsCandidate(raw[i], ignore) <==> i in idx)
    ensures forall r :: r in Candidates(raw, ignore) <==> r in raw && IsCandidate(r, ignore)
  {
    idx := FilterInOrder(IsCandidate, ignore, raw);
  }

}
