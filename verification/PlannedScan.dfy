/** A planned scan end to end: the predicate is sent as a filter, the server leaves out files the filter
    rules out, the files of the plan are drained lazily, deleted rows are dropped chunk by chunk, and the
    predicate is applied again. */
module PlannedScan {
  import opened Wrappers
  import opened FileList
  import opened PositionDeletes
  import IrcFilter
  import IrcText

  type Row = IrcFilter.Env
  type Table = string -> seq<Row> // the rows of each data file

  /** The rows from `first` up to `end` whose position is not deleted. */
  function RowsBetween(rows: seq<Row>, positions: set<int>, first: nat, end: nat): (r: seq<Row>)
    requires first <= end <= |rows|
  {
    if first == end then []
    else RowsBetween(rows, positions, first, end - 1) + if end - 1 in positions then [] else [rows[end - 1]]
  }

  /** The rows of a file that no delete file removed. */
  function Survivors(rows: seq<Row>, positions: set<int>): (r: seq<Row>) {
    RowsBetween(rows, positions, 0, |rows|)
  }

  /** They are the rows at the surviving indices. */
  lemma {:induction false} RowsBetweenAreRows(rows: seq<Row>, positions: set<int>, first: nat, end: nat)
    requires first <= end <= |rows|
    ensures var indices := Rows(positions, first, end); var r := RowsBetween(rows, positions, first, end);
      |r| == |indices| && forall i :: 0 <= i < |r| ==> indices[i] < end && r[i] == rows[indices[i]]
    decreases end - first
  {
    if first < end {
      RowsBetweenAreRows(rows, positions, first, end - 1);
    }
  }

  ghost function ReadEntry(e: Entry, table: Table, storage: Storage): (r: Outcome<seq<Row>>) {
    match DeletedPositions(e.deletes, e.path, storage)
    case Err(error) => Err(error)
    case Ok(positions) => Ok(Survivors(table(e.path), positions))
  }

  function Keep(filters: seq<IrcFilter.Expr>, rows: seq<Row>): (r: seq<Row>) {
    if rows == [] then []
    else
      var n := |rows| - 1;
      Keep(filters, rows[..n]) + if IrcFilter.EvalAll(true, filters, rows[n]) == IrcFilter.True then [rows[n]] else []
  }

  /** The rows the predicate keeps, file after file; a delete file that cannot be applied fails the scan. */
  ghost function ScanRows(entries: seq<Entry>, table: Table, storage: Storage, filters: seq<IrcFilter.Expr>)
    : (r: Outcome<seq<Row>>)
  {
    if entries == [] then Ok([])
    else
      var n := |entries| - 1;
      match ScanRows(entries[..n], table, storage, filters)
      case Err(error) => Err(error)
      case Ok(before) =>
        match ReadEntry(entries[n], table, storage)
        case Err(error) => Err(error)
        case Ok(rows) => Ok(before + Keep(filters, rows))
  }

  // ---- Which rows a scan gives ----

  /** `picked` are the elements of `all` at these indices, which increase. */
  ghost predicate PickedAt(picked: seq<Row>, all: seq<Row>, indices: seq<nat>) {
    && |picked| == |indices| && StrictlyIncreasing(indices)
    && forall k :: 0 <= k < |indices| ==> indices[k] < |all| && picked[k] == all[indices[k]]
  }

  /** One more element to pick, or to leave. */
  lemma PickedSnoc(picked: seq<Row>, all: seq<Row>, indices: seq<nat>)
    requires all != [] && PickedAt(picked, all[..|all| - 1], indices)
    ensures PickedAt(picked, all, indices) && |all| - 1 !in indices
    ensures PickedAt(picked + [all[|all| - 1]], all, indices + [|all| - 1])
    ensures forall i :: i in indices + [|all| - 1] <==> i in indices || i == |all| - 1
  {
    var n := |all| - 1;
    forall k | 0 <= k < |indices| ensures indices[k] < n && picked[k] == all[indices[k]] {
      assert all[..n][indices[k]] == all[indices[k]];
    }
  }

  ghost predicate Satisfies(row: Row, filters: seq<IrcFilter.Expr>) {
    forall f :: f in filters ==> IrcFilter.Eval(f, row) == IrcFilter.True
  }

  /** The predicate keeps, in order, exactly the rows on which every pushed filter is true. */
  lemma {:induction false} KeepExactly(filters: seq<IrcFilter.Expr>, rows: seq<Row>) returns (indices: seq<nat>)
    ensures PickedAt(Keep(filters, rows), rows, indices)
    ensures forall i :: 0 <= i < |rows| ==> (i in indices <==> Satisfies(rows[i], filters))
    decreases |rows|
  {
    hide Satisfies, PickedAt, Keep, IrcFilter.EvalAll, StrictlyIncreasing;
    if rows == [] {
      indices := [];
      PickedNone(filters);
    } else {
      var n := |rows| - 1;
      var before := KeepExactly(filters, rows[..n]);
      AllTrueExactly(filters, rows[n]);
      PickedSnoc(Keep(filters, rows[..n]), rows, before);
      KeepStep(filters, rows);
      assert forall i :: 0 <= i < n ==> rows[..n][i] == rows[i];
      indices := if Satisfies(rows[n], filters) then before + [n] else before;
    }
  }

  lemma PickedNone(filters: seq<IrcFilter.Expr>)
    ensures PickedAt(Keep(filters, []), [], [])
  {
  }

  lemma KeepStep(filters: seq<IrcFilter.Expr>, rows: seq<Row>)
    requires rows != []
    ensures var n := |rows| - 1;
      Keep(filters, rows) ==
      if IrcFilter.EvalAll(true, filters, rows[n]) == IrcFilter.True then Keep(filters, rows[..n]) + [rows[n]]
      else Keep(filters, rows[..n])
  {
    hide IrcFilter.EvalAll;
  }

  lemma {:induction false} AllTrueExactly(filters: seq<IrcFilter.Expr>, row: Row)
    ensures IrcFilter.EvalAll(true, filters, row) == IrcFilter.True <==> Satisfies(row, filters)
  {
    if IrcFilter.EvalAll(true, filters, row) == IrcFilter.True {
      EachTrue(filters, row);
    }
    if Satisfies(row, filters) {
      IrcFilter.AllTrue(filters, row);
    }
  }

  /** Of one data file a scan gives, in order, exactly the rows that survive its delete files and satisfy every filter. */
  lemma FileRowsExactly(e: Entry, table: Table, storage: Storage, filters: seq<IrcFilter.Expr>) returns (indices: seq<nat>)
    requires DeletedPositions(e.deletes, e.path, storage).Ok?
    ensures ScanRows([e], table, storage, filters).Ok?
    ensures PickedAt(ScanRows([e], table, storage, filters).value, table(e.path), indices)
    ensures forall i :: 0 <= i < |table(e.path)| ==>
              (i in indices <==> Survives(e.deletes, e.path, storage, i) && Satisfies(table(e.path)[i], filters))
  {
    hide Satisfies, DeletedPositions, Keep, Survives, ScanRows, PickedAt, Survivors;
    var rows := table(e.path);
    var positions := DeletedPositions(e.deletes, e.path, storage).value;
    var surviving := SurvivorsExactly(rows, positions);
    var kept := KeepExactly(filters, Survivors(rows, positions));
    OneFile(e, table, storage, filters);
    indices := PickedTwice(Keep(filters, Survivors(rows, positions)), Survivors(rows, positions), rows, kept, surviving);
    forall i | 0 <= i < |rows|
      ensures i in indices <==> Survives(e.deletes, e.path, storage, i) && Satisfies(rows[i], filters)
    {
      SurvivesExactly(e, storage, i);
      if i in surviving {
        var j :| 0 <= j < |surviving| && surviving[j] == i;
        PickedIndex(Survivors(rows, positions), rows, surviving, j);
      }
    }
  }

  lemma SurvivorsExactly(rows: seq<Row>, positions: set<int>) returns (indices: seq<nat>)
    ensures PickedAt(Survivors(rows, positions), rows, indices)
    ensures forall i :: 0 <= i < |rows| ==> (i in indices <==> i !in positions)
  {
    hide RowsBetween, Rows;
    indices := Rows(positions, 0, |rows|);
    RowsBetweenAreRows(rows, positions, 0, |rows|);
    RowsExact(positions, 0, |rows|);
  }

  lemma OneFile(e: Entry, table: Table, storage: Storage, filters: seq<IrcFilter.Expr>)
    requires DeletedPositions(e.deletes, e.path, storage).Ok?
    ensures ScanRows([e], table, storage, filters) ==
            Ok(Keep(filters, Survivors(table(e.path), DeletedPositions(e.deletes, e.path, storage).value)))
  {
    hide DeletedPositions, Keep, Survivors;
    assert [e][..0] == [];
    var kept := Keep(filters, Survivors(table(e.path), DeletedPositions(e.deletes, e.path, storage).value));
    assert [] + kept == kept;
  }

  lemma PickedIndex(picked: seq<Row>, all: seq<Row>, indices: seq<nat>, j: nat)
    requires PickedAt(picked, all, indices) && j < |indices|
    ensures |picked| == |indices| && indices[j] < |all| && picked[j] == all[indices[j]]
    ensures forall k :: 0 <= k < |indices| && indices[k] == indices[j] ==> k == j
  {
  }

  /** Picking from what was picked. */
  lemma PickedTwice(picked: seq<Row>, some: seq<Row>, all: seq<Row>, inner: seq<nat>, outer: seq<nat>) returns (indices: seq<nat>)
    requires PickedAt(picked, some, inner) && PickedAt(some, all, outer)
    ensures PickedAt(picked, all, indices)
    ensures forall i :: i in indices <==> exists j :: 0 <= j < |outer| && outer[j] == i && j in inner
  {
    indices := seq(|inner|, k requires 0 <= k < |inner| => outer[inner[k]]);
    forall i ensures i in indices <==> exists j :: 0 <= j < |outer| && outer[j] == i && j in inner {
      IndexIn(inner, outer, indices, i);
    }
  }

  lemma SurvivesExactly(e: Entry, storage: Storage, row: nat)
    requires DeletedPositions(e.deletes, e.path, storage).Ok?
    ensures Survives(e.deletes, e.path, storage, row) <==> row !in DeletedPositions(e.deletes, e.path, storage).value
  {
    hide DeletedBy;
    DeletedIsUnion(e.deletes, e.path, storage, row);
  }

  lemma IndexIn(inner: seq<nat>, outer: seq<nat>, indices: seq<nat>, i: nat)
    requires |indices| == |inner|
    requires forall k :: 0 <= k < |inner| ==> inner[k] < |outer| && indices[k] == outer[inner[k]]
    ensures i in indices <==> exists j :: 0 <= j < |outer| && outer[j] == i && j in inner
  {
    if i in indices {
      var k :| 0 <= k < |indices| && indices[k] == i;
      assert outer[inner[k]] == i && inner[k] in inner;
    }
    if j :| 0 <= j < |outer| && outer[j] == i && j in inner {
      var k :| 0 <= k < |inner| && inner[k] == j;
      assert indices[k] == i;
    }
  }

  /** A scan of more files is the scans of the first and of the rest: the first failure, or all the rows in order. */
  lemma {:induction false} ScanConcat(a: seq<Entry>, b: seq<Entry>, table: Table, storage: Storage, filters: seq<IrcFilter.Expr>)
    ensures var first, rest := ScanRows(a, table, storage, filters), ScanRows(b, table, storage, filters);
      ScanRows(a + b, table, storage, filters) ==
      if first.Err? then first else if rest.Err? then rest else Ok(first.value + rest.value)
    decreases |b|
  {
    hide ReadEntry, Keep, ScanRows;
    if b == [] {
      assert a + b == a;
      ScanNothing(table, storage, filters);
      NothingMore(ScanRows(a, table, storage, filters));
    } else {
      var n := |b| - 1;
      ScanConcat(a, b[..n], table, storage, filters);
      assert |a + b| - 1 == |a| + n && (a + b)[..|a| + n] == a + b[..n] && (a + b)[|a| + n] == b[n];
      ScanLast(b, table, storage, filters);
      ScanLast(a + b, table, storage, filters);
      var first, middle := ScanRows(a, table, storage, filters), ScanRows(b[..n], table, storage, filters);
      var last := ReadEntry(b[n], table, storage);
      if first.Ok? && middle.Ok? && last.Ok? {
        var kept := Keep(filters, last.value);
        assert first.value + (middle.value + kept) == first.value + middle.value + kept;
      }
    }
  }

  lemma NothingMore(r: Outcome<seq<Row>>)
    ensures r.Ok? ==> r.value + [] == r.value
  {
  }

  lemma ScanLast(entries: seq<Entry>, table: Table, storage: Storage, filters: seq<IrcFilter.Expr>)
    requires entries != []
    ensures var n := |entries| - 1;
      var before := ScanRows(entries[..n], table, storage, filters); var last := ReadEntry(entries[n], table, storage);
      ScanRows(entries, table, storage, filters) ==
      if before.Err? then before else if last.Err? then last else Ok(before.value + Keep(filters, last.value))
  {
    hide ReadEntry, Keep;
  }

  // ---- What the server may leave out ----

  /** No surviving row of the file satisfies the filter. */
  ghost predicate RuledOut(e: Entry, filter: IrcFilter.Filter, table: Table, storage: Storage) {
    ReadEntry(e, table, storage).Ok? ==>
      forall row :: row in ReadEntry(e, table, storage).value ==> IrcFilter.EvalFilter(filter, row) != IrcFilter.True
  }

  /** `kept` is `all`, in order, without some files the filter rules out; with no filter, without none. */
  ghost predicate Pruned(kept: seq<Entry>, all: seq<Entry>, filter: Option<IrcFilter.Filter>, table: Table, storage: Storage)
    decreases |all|
  {
    if all == [] then kept == []
    else
      var n := |all| - 1;
      || (kept != [] && kept[|kept| - 1] == all[n] && Pruned(kept[..|kept| - 1], all[..n], filter, table, storage))
      || (filter.Some? && RuledOut(all[n], filter.value, table, storage) && Pruned(kept, all[..n], filter, table, storage))
  }

  /** What a filter text asks for: nothing, or the filter it reads as. */
  function Requested(text: string): (r: Option<IrcFilter.Filter>) {
    if text == "" then None else IrcText.ReadFilter(text, false)
  }

  /** The texts that filter pushdown can leave: none, or the text of some predicates' filter. */
  ghost predicate Sendable(text: string) {
    text == "" || exists filters :: Sends(filters, text)
  }

  predicate Sends(filters: seq<IrcFilter.Expr>, text: string) {
    IrcFilter.WeakenFilters(filters).Emitted? && text == IrcText.FilterText(IrcFilter.WeakenFilters(filters).value)
  }

  /** The server answers any filter text it may be sent with an acceptable plan that leaves out, of the files
      of the unfiltered plan, only files the filter rules out. */
  ghost predicate Honest(plans: string -> Response, table: Table, storage: Storage) {
    forall text | Sendable(text) :: AcceptedPlan(plans(text)) && AcceptedPlan(plans("")) &&
      Pruned(PlanEntries(plans(text)), PlanEntries(plans("")), Requested(text), table, storage)
  }

  /** The files that are not left out. */
  function Without(all: seq<Entry>, out: seq<bool>): (r: seq<Entry>)
    requires |out| == |all|
  {
    if all == [] then []
    else
      var n := |all| - 1;
      Without(all[..n], out[..n]) + if out[n] then [] else [all[n]]
  }

  /** An honest server may leave out any files that the filter rules out: all of them, none, or some. */
  lemma {:induction false} AnyRuledOutMayGo(all: seq<Entry>, out: seq<bool>, filter: IrcFilter.Filter, table: Table,
                                            storage: Storage)
    requires |out| == |all| && forall i :: 0 <= i < |all| && out[i] ==> RuledOut(all[i], filter, table, storage)
    ensures Pruned(Without(all, out), all, Some(filter), table, storage)
    decreases |all|
  {
    hide RuledOut;
    if all != [] {
      var n := |all| - 1;
      AnyRuledOutMayGo(all[..n], out[..n], filter, table, storage);
      var kept := Without(all, out);
      assert !out[n] ==> kept[..|kept| - 1] == Without(all[..n], out[..n]);
      assert out[n] ==> kept == Without(all[..n], out[..n]);
    }
  }

  /** What is asked for by the text of some predicates' filter is that very filter. */
  lemma RequestedIsSent(filters: seq<IrcFilter.Expr>, text: string)
    requires Sends(filters, text)
    ensures text != "" && Requested(text) == Some(IrcFilter.WeakenFilters(filters).value)
  {
    hide IrcText.FilterText, IrcText.ReadFilter, IrcFilter.WeakenFilters;
    var filter := IrcFilter.WeakenFilters(filters).value;
    IrcText.TextReadsBack(filter, false);
    assert IrcText.FilterText(filter) != "";
  }

  // ---- Nothing is lost ----

  /** Rows the predicate keeps are rows every sent filter keeps. */
  lemma {:induction false} NothingKept(filters: seq<IrcFilter.Expr>, filter: IrcFilter.Filter, rows: seq<Row>)
    requires IrcFilter.WeakenFilters(filters) == IrcFilter.Emitted(filter)
    requires forall row :: row in rows ==> IrcFilter.EvalFilter(filter, row) != IrcFilter.True
    ensures Keep(filters, rows) == []
  {
    hide IrcFilter.EvalFilter, IrcFilter.EvalAll;
    if rows != [] {
      var n := |rows| - 1;
      NothingKept(filters, filter, rows[..n]);
      assert rows[n] in rows;
      if IrcFilter.EvalAll(true, filters, rows[n]) == IrcFilter.True {
        EachTrue(filters, rows[n]);
        IrcFilter.FiltersSound(filters, rows[n]);
      }
    }
  }

  lemma {:induction false} EachTrue(filters: seq<IrcFilter.Expr>, row: Row)
    requires IrcFilter.EvalAll(true, filters, row) == IrcFilter.True
    ensures forall f :: f in filters ==> IrcFilter.Eval(f, row) == IrcFilter.True
  {
    if filters != [] {
      EachTrue(filters[1..], row);
    }
  }

  /** Leaving out files the sent filter rules out changes no row of the result. */
  lemma {:induction false} PruningKeepsRows(kept: seq<Entry>, all: seq<Entry>, filters: seq<IrcFilter.Expr>,
                                            filter: Option<IrcFilter.Filter>, table: Table, storage: Storage)
    requires filter.Some? ==> IrcFilter.WeakenFilters(filters) == IrcFilter.Emitted(filter.value)
    requires Pruned(kept, all, filter, table, storage) && ScanRows(all, table, storage, filters).Ok?
    ensures ScanRows(kept, table, storage, filters) == ScanRows(all, table, storage, filters)
    decreases |all|
  {
    hide ReadEntry, Keep;
    if all != [] {
      var n := |all| - 1;
      if kept != [] && kept[|kept| - 1] == all[n] && Pruned(kept[..|kept| - 1], all[..n], filter, table, storage) {
        PruningKeepsRows(kept[..|kept| - 1], all[..n], filters, filter, table, storage);
      } else {
        assert RuledOut(all[n], filter.value, table, storage) && Pruned(kept, all[..n], filter, table, storage);
        PruningKeepsRows(kept, all[..n], filters, filter, table, storage);
        NothingKept(filters, filter.value, ReadEntry(all[n], table, storage).value);
        var before := ScanRows(all[..n], table, storage, filters).value;
        assert before + [] == before;
      }
    }
  }

  /** With an honest server, the plan asked for with any pushed predicate yields the same rows as the whole
      table's plan. */
  lemma FilteredPlanIsComplete(plans: string -> Response, table: Table, storage: Storage,
                               filters: seq<IrcFilter.Expr>, text: string)
    requires Honest(plans, table, storage)
    requires text == "" || Sends(filters, text)
    requires ScanRows(PlanEntries(plans("")), table, storage, filters).Ok?
    ensures ScanRows(PlanEntries(plans(text)), table, storage, filters)
         == ScanRows(PlanEntries(plans("")), table, storage, filters)
  {
    hide PlanEntries, ScanRows, Pruned, IrcText.FilterText, IrcText.ReadFilter, IrcFilter.WeakenFilters;
    assert Sendable(text) && Sendable("");
    assert AcceptedPlan(plans(text)) && AcceptedPlan(plans(""));
    if text != "" {
      IrcText.TextReadsBack(IrcFilter.WeakenFilters(filters).value, false);
    }
    PruningKeepsRows(PlanEntries(plans(text)), PlanEntries(plans("")), filters, Requested(text), table, storage);
  }

  // ---- The scan ----

  lemma {:induction false} RowsBetweenConcat(rows: seq<Row>, positions: set<int>, a: nat, b: nat, c: nat)
    requires a <= b <= c <= |rows|
    ensures RowsBetween(rows, positions, a, c) == RowsBetween(rows, positions, a, b) + RowsBetween(rows, positions, b, c)
    decreases c - b
  {
    if b < c {
      RowsBetweenConcat(rows, positions, a, b, c - 1);
    }
  }

  predicate Fits(rows: seq<Row>, start: nat, selection: seq<nat>) {
    forall i :: 0 <= i < |selection| ==> start + selection[i] < |rows|
  }

  /** The selected rows of a chunk. */
  function PickRows(rows: seq<Row>, start: nat, selection: seq<nat>): (r: seq<Row>)
    requires Fits(rows, start, selection)
  {
    if selection == [] then []
    else
      var n := |selection| - 1;
      PickRows(rows, start, selection[..n]) + [rows[start + selection[n]]]
  }

  lemma {:induction false} PickSelection(rows: seq<Row>, positions: set<int>, start: nat, count: nat)
    requires start + count <= |rows|
    ensures var selection := Selection(positions, start, count);
      Fits(rows, start, selection) && PickRows(rows, start, selection) == RowsBetween(rows, positions, start, start + count)
    decreases count
  {
    hide Fits, PickRows;
    if count == 0 {
      PickNothing(rows, start);
    } else {
      PickSelection(rows, positions, start, count - 1);
      PickOne(rows, start, Selection(positions, start, count - 1), count - 1);
      var before := RowsBetween(rows, positions, start, start + count - 1);
      assert before + [] == before && Selection(positions, start, count - 1) + [] == Selection(positions, start, count - 1);
    }
  }

  lemma PickNothing(rows: seq<Row>, start: nat)
    ensures Fits(rows, start, []) && PickRows(rows, start, []) == []
  {
  }

  lemma PickOne(rows: seq<Row>, start: nat, selection: seq<nat>, offset: nat)
    requires Fits(rows, start, selection) && start + offset < |rows|
    ensures Fits(rows, start, selection + [offset])
    ensures PickRows(rows, start, selection + [offset]) == PickRows(rows, start, selection) + [rows[start + offset]]
  {
    assert (selection + [offset])[..|selection|] == selection;
  }

  lemma NoRowsBetween(rows: seq<Row>, positions: set<int>)
    ensures RowsBetween(rows, positions, 0, 0) == []
  {
  }

  lemma {:induction false} NothingDeleted(rows: seq<Row>, n: nat)
    requires n <= |rows|
    ensures RowsBetween(rows, {}, 0, n) == rows[..n]
  {
    if n > 0 {
      NothingDeleted(rows, n - 1);
    }
  }

  /** The selected rows of one chunk, copied out. */
  method CopySelected(rows: seq<Row>, start: nat, selection: SelectionVector, selected: nat) returns (out: seq<Row>)
    requires selected <= selection.indices.Length && Fits(rows, start, selection.indices[..selected])
    ensures out == PickRows(rows, start, selection.indices[..selected])
  {
    out := [];
    ghost var all := selection.indices[..selected];
    for i := 0 to selected
      invariant Fits(rows, start, all[..i]) && out == PickRows(rows, start, all[..i])
    {
      assert all[..i + 1][..i] == all[..i] && all[i] == selection.indices[i];
      out := out + [rows[start + selection.indices[i]]];
    }
    assert all[..selected] == all;
  }

  /** One data file, read in chunks that fit a vector. */
  method ReadFile(rows: seq<Row>, filter: Option<set<int>>, chunk: nat) returns (out: seq<Row>)
    requires 0 < chunk <= VECTOR_CAPACITY
    ensures out == Survivors(rows, if filter.None? then {} else filter.value)
  {
    hide Selection, Fits, PickRows, RowsBetween, Rows;
    if filter.None? {
      NothingDeleted(rows, |rows|);
      assert rows[..|rows|] == rows;
      return rows;
    }
    NoRowsBetween(rows, filter.value);
    var deletes := new PositionDeleteFilter(filter.value);
    var selection := new SelectionVector();
    var start := 0;
    out := [];
    while start < |rows|
      invariant 0 <= start <= |rows| && fresh(selection)
      invariant out == RowsBetween(rows, filter.value, 0, start)
    {
      var count := if |rows| - start < chunk then |rows| - start else chunk;
      var selected := deletes.Filter(start, count, selection);
      PickSelection(rows, filter.value, start, count);
      RowsBetweenConcat(rows, filter.value, 0, start, start + count);
      var chunkRows := CopySelected(rows, start, selection, selected);
      out := out + chunkRows;
      start := start + count;
    }
  }

  /** The predicate, applied again above the scan. */
  method Refilter(filters: seq<IrcFilter.Expr>, rows: seq<Row>) returns (out: seq<Row>)
    ensures out == Keep(filters, rows)
  {
    hide IrcFilter.EvalAll;
    out := [];
    for i := 0 to |rows|
      invariant out == Keep(filters, rows[..i])
    {
      assert rows[..i + 1][..i] == rows[..i];
      if IrcFilter.EvalAll(true, filters, rows[i]) == IrcFilter.True {
        out := out + [rows[i]];
      }
    }
    assert rows[..|rows|] == rows;
  }

  lemma {:induction false} ScanFails(entries: seq<Entry>, n: nat, table: Table, storage: Storage, filters: seq<IrcFilter.Expr>)
    requires n <= |entries| && ScanRows(entries[..n], table, storage, filters).Err?
    ensures ScanRows(entries, table, storage, filters) == ScanRows(entries[..n], table, storage, filters)
  {
    hide ReadEntry, Keep;
    if n == |entries| {
      assert entries[..n] == entries;
    } else {
      assert entries[..|entries| - 1][..n] == entries[..n];
      ScanFails(entries[..|entries| - 1], n, table, storage, filters);
    }
  }

  /** One more file scanned. */
  lemma ScanStep(entries: seq<Entry>, i: nat, table: Table, storage: Storage, filters: seq<IrcFilter.Expr>, out: seq<Row>)
    requires i < |entries| && ScanRows(entries[..i], table, storage, filters) == Ok(out)
    ensures var e := entries[i]; var deleted := DeletedPositions(e.deletes, e.path, storage);
      ScanRows(entries[..i + 1], table, storage, filters) ==
      if deleted.Err? then Err(deleted.error)
      else Ok(out + Keep(filters, Survivors(table(e.path), deleted.value)))
  {
    hide DeletedPositions, Keep, Survivors;
    assert entries[..i + 1][..i] == entries[..i];
  }

  lemma ScanNothing(table: Table, storage: Storage, filters: seq<IrcFilter.Expr>)
    ensures ScanRows([], table, storage, filters) == Ok([])
  {
  }

  /** A scan ends, or the exchange of a token throws. */
  datatype Scanned = Ended(result: Outcome<seq<Row>>) | ScanThrew(token: Token)

  /** Drains an accepted plan. */
  method ScanPlan(plan: Response, table: Table, storage: Storage, filters: seq<IrcFilter.Expr>, chunk: nat,
                  throws: Token -> bool) returns (r: Scanned)
    requires AcceptedPlan(plan) && 0 < chunk <= VECTOR_CAPACITY
    ensures r.Ended? ==> r.result == ScanRows(PlanEntries(plan), table, storage, filters)
    ensures r.ScanThrew? ==> throws(r.token)
  {
    hide PlanEntries, Keep, Survivors, DeletedPositions, AcceptedPlan, LazyFileList.Total, ScanRows, ReadEntry, Lost;
    ScanNothing(table, storage, filters);
    var list := new LazyFileList();
    var loaded := list.Load(plan);
    ghost var entries := PlanEntries(plan);
    var out: seq<Row> := [];
    var i := 0;
    var next := list.FileAt(0, throws);
    assert entries[..0] == [];
    while next.There?
      invariant 0 <= i <= |entries| && fresh(list) && list.Valid()
      invariant if next.LookupThrew? then throws(next.token)
                else list.Total() == entries && next == if i < |entries| then There(entries[i]) else NotThere
      invariant ScanRows(entries[..i], table, storage, filters) == Ok(out)
      decreases next.There?, |entries| - i
    {
      var entry := next.entry;
      ScanStep(entries, i, table, storage, filters, out);
      var filter := BuildDeleteFilter(entry.path, entry.deletes, storage);
      if filter.Err? {
        ScanFails(entries, i + 1, table, storage, filters);
        return Ended(Err(filter.error));
      }
      var rows := ReadFile(table(entry.path), filter.value, chunk);
      var kept := Refilter(filters, rows);
      out := out + kept;
      i := i + 1;
      next := list.FileAt(i, throws);
    }
    if next.LookupThrew? {
      return ScanThrew(next.token);
    }
    assert entries[..i] == entries;
    r := Ended(Ok(out));
  }

  /** The whole scan: with an honest server, unless an exchange throws, it gives exactly the rows of the
      unfiltered plan, expanded eagerly, that the predicate keeps. */
  method Scan(plans: string -> Response, table: Table, storage: Storage, filters: seq<IrcFilter.Expr>, chunk: nat,
              throws: Token -> bool) returns (r: Scanned, sent: string)
    requires Honest(plans, table, storage) && 0 < chunk <= VECTOR_CAPACITY
    ensures if filters != [] && IrcFilter.WeakenFilters(filters).Emitted? then Sends(filters, sent) else sent == ""
    ensures AcceptedPlan(plans(""))
    ensures var whole := ScanRows(PlanEntries(plans("")), table, storage, filters);
      r.Ended? && whole.Ok? ==> r.result == whole
    ensures r.ScanThrew? ==> throws(r.token)
  {
    hide PlanEntries, ScanRows, Pruned, IrcText.FilterText, AcceptedPlan;
    var bind := new IrcText.BindData();
    bind.PushdownFilter(filters);
    bind.PushdownFilter([]);
    assert bind.filterJson == "" || Sends(filters, bind.filterJson);
    assert Sendable(bind.filterJson) && Sendable("");
    assert AcceptedPlan(plans(bind.filterJson)) && AcceptedPlan(plans(""));
    sent := bind.filterJson;
    r := ScanPlan(plans(sent), table, storage, filters, chunk, throws);
    if ScanRows(PlanEntries(plans("")), table, storage, filters).Ok? {
      FilteredPlanIsComplete(plans, table, storage, filters, bind.filterJson);
    }
  }
}
