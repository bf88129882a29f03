/** Row groups: rows are emitted in order, gathered in column builders and written out in batches. */
module Batching {
  import opened Ir
  import opened Seqs
  import opened Sorting
  import Text

  /** One row's columns; the ones the sort does not look at are kept together. */
  datatype EmittedRow = EmittedRow(modulePath: string, address: string, cells: seq<string>)

  datatype Row = Row(componentPath: string, emitted: EmittedRow)

  datatype Component = Component(path: string, rows: seq<EmittedRow>)

  datatype Limits = Limits(rowGroupRows: nat, rowGroupBytes: nat)

  // ---- sizes ----------------------------------------------------------------------------------

  function CellBytes(cells: seq<string>): nat {
    if cells == [] then 0 else |cells[0]| + CellBytes(cells[1..])
  }

  function ApproxRowBytes(row: Row): nat {
    |row.componentPath| + |row.emitted.modulePath| + |row.emitted.address| + CellBytes(row.emitted.cells) + 8
  }

  function ApproxBytes(rows: seq<Row>): nat {
    if rows == [] then 0 else ApproxBytes(rows[..|rows| - 1]) + ApproxRowBytes(rows[|rows| - 1])
  }

  // ---- the emitted sequence -------------------------------------------------------------------

  function RowKey(r: EmittedRow): SortKey {
    [r.modulePath, r.address]
  }

  function ComponentKey(c: Component): SortKey {
    [c.path]
  }

  function TableKey(r: Row): SortKey {
    [r.componentPath, r.emitted.modulePath, r.emitted.address]
  }

  function Stamp(path: string, rows: seq<EmittedRow>): (r: seq<Row>)
    ensures |r| == |rows| && forall i :: 0 <= i < |r| ==> r[i] == Row(path, rows[i])
  {
    seq(|rows|, i requires 0 <= i < |rows| => Row(path, rows[i]))
  }

  function ComponentRows(c: Component): seq<Row> {
    Stamp(c.path, SortBy(c.rows, RowKey))
  }

  function RowsInOrder(components: seq<Component>): seq<Row> {
    if components == [] then []
    else RowsInOrder(components[..|components| - 1]) + ComponentRows(components[|components| - 1])
  }

  /** All rows of a workspace in the order they reach the builders. */
  function TableRows(components: seq<Component>): seq<Row> {
    RowsInOrder(SortBy(components, ComponentKey))
  }

  // ---- batches --------------------------------------------------------------------------------

  predicate Reached(rows: seq<Row>, limits: Limits) {
    |rows| >= limits.rowGroupRows || ApproxBytes(rows) >= limits.rowGroupBytes
  }

  /** A batch is never empty and every shorter one was under both thresholds. */
  ghost predicate Batch(rows: seq<Row>, limits: Limits) {
    rows != [] && forall n :: 0 < n < |rows| ==> !Reached(rows[..n], limits)
  }

  function Flatten(batches: seq<seq<Row>>): seq<Row> {
    if batches == [] then [] else Flatten(batches[..|batches| - 1]) + batches[|batches| - 1]
  }

  /** Batches of which only the last may be under both thresholds. */
  ghost predicate Batches(batches: seq<seq<Row>>, limits: Limits) {
    && (forall i :: 0 <= i < |batches| ==> Batch(batches[i], limits))
    && (forall i :: 0 <= i < |batches| - 1 ==> Reached(batches[i], limits))
  }

  // ---- the builders and the writer ------------------------------------------------------------

  class RowBuilders {
    var rows: seq<Row>
    var rowCount: nat
    var approxBytes: nat
    var totalRows: u64
    var written: seq<seq<Row>>
    const limits: Limits

    ghost predicate Valid()
      reads this
    {
      && rowCount == |rows| && approxBytes == ApproxBytes(rows)
      && (forall i :: 0 <= i < |written| ==> Batch(written[i], limits) && Reached(written[i], limits))
      && (forall n :: 0 < n <= |rows| ==> !Reached(rows[..n], limits))
    }

    /** Everything that has been emitted, written or still pending. */
    ghost function Emitted(): seq<Row>
      reads this
    {
      Flatten(written) + rows
    }

    constructor (limits: Limits)
      ensures Valid() && Emitted() == [] && totalRows == 0 && this.limits == limits
    {
      this.rows := [];
      this.rowCount := 0;
      this.approxBytes := 0;
      this.totalRows := 0;
      this.written := [];
      this.limits := limits;
    }

    method AppendRow(row: Row)
      modifies this
      ensures rows == old(rows) + [row] && written == old(written) && totalRows == old(totalRows)
      ensures rowCount == old(rowCount) + 1 && approxBytes == old(approxBytes) + ApproxRowBytes(row)
    {
      rows := rows + [row];
      rowCount := rowCount + 1;
      approxBytes := approxBytes + ApproxRowBytes(row);
    }

    /** Hands the pending rows to the writer and empties the builders. */
    method FlushBatch()
      modifies this
      ensures written == old(written) + [old(rows)] && rows == [] && totalRows == old(totalRows)
      ensures rowCount == 0 && approxBytes == 0
    {
      written := written + [rows];
      rows := [];
      rowCount := 0;
      approxBytes := 0;
    }

    /** One row: append it, count it, and flush when a threshold is reached. */
    method EmitRow(row: Row)
      requires Valid()
      modifies this
      ensures Valid() && Emitted() == old(Emitted()) + [row]
      ensures totalRows == Saturate(old(totalRows) + 1)
    {
      ghost var before := rows;
      Grown(before, row, limits);
      AppendRow(row);
      totalRows := Saturate(totalRows + 1);
      if rowCount >= limits.rowGroupRows || approxBytes >= limits.rowGroupBytes {
        FlushBatch();
        assert Flatten(written) == Flatten(old(written)) + (before + [row]) by {
          assert written[..|written| - 1] == old(written);
        }
      }
      ConcatAssoc(Flatten(old(written)), before, [row]);
    }

    method EmitComponentRows(component: Component)
      requires Valid()
      modifies this
      ensures Valid() && Emitted() == old(Emitted()) + ComponentRows(component)
      ensures totalRows == Saturate(old(totalRows) + |component.rows|)
    {
      hide Valid, Emitted;
      var sorted := SortBy(component.rows, RowKey);
      ghost var all := Stamp(component.path, sorted);
      assert old(Emitted()) + [] == old(Emitted());
      for i := 0 to |sorted|
        invariant Valid() && Emitted() == old(Emitted()) + all[..i]
        invariant totalRows == Saturate(old(totalRows) + i)
      {
        assert all[..i + 1] == all[..i] + [all[i]];
        ConcatAssoc(old(Emitted()), all[..i], [all[i]]);
        EmitRow(Row(component.path, sorted[i]));
      }
      assert all[..|sorted|] == all;
    }

    /** The whole table; the last batch is flushed only when rows are pending. */
    method WriteTable(components: seq<Component>)
      requires Valid() && Emitted() == [] && totalRows == 0
      modifies this
      ensures Flatten(written) == TableRows(components)
      ensures Batches(written, limits)
      ensures totalRows == Saturate(|TableRows(components)|)
    {
      var sorted := SortBy(components, ComponentKey);
      for i := 0 to |sorted|
        invariant Valid() && Emitted() == RowsInOrder(sorted[..i])
        invariant totalRows == Saturate(|RowsInOrder(sorted[..i])|)
      {
        assert sorted[..i + 1][..i] == sorted[..i];
        EmitComponentRows(sorted[i]);
      }
      assert sorted[..|sorted|] == sorted;
      ghost var before, pending := written, rows;
      if rowCount > 0 {
        FlushBatch();
        assert written[..|written| - 1] == before;
        assert pending[..|pending|] == pending;
      }
    }
  }

  lemma ApproxGrows(rows: seq<Row>, row: Row)
    ensures ApproxBytes(rows + [row]) == ApproxBytes(rows) + ApproxRowBytes(row)
  {
    assert (rows + [row])[..|rows|] == rows;
  }

  lemma Grown(rows: seq<Row>, row: Row, limits: Limits)
    requires forall n :: 0 < n <= |rows| ==> !Reached(rows[..n], limits)
    ensures Batch(rows + [row], limits)
    ensures ApproxBytes(rows + [row]) == ApproxBytes(rows) + ApproxRowBytes(row)
    ensures !Reached(rows + [row], limits) ==> forall n :: 0 < n <= |rows| + 1 ==> !Reached((rows + [row])[..n], limits)
  {
    hide Reached, ApproxBytes, ApproxRowBytes;
    ApproxGrows(rows, row);
    var all := rows + [row];
    assert all[..|all|] == all;
    forall n | 0 < n < |all| ensures !Reached(all[..n], limits) { assert all[..n] == rows[..n]; }
  }

  // ---- what the batches say -------------------------------------------------------------------

  /** No batch exceeds the row threshold, except that a threshold of zero still lets one row through. */
  lemma BatchSize(rows: seq<Row>, limits: Limits)
    requires Batch(rows, limits)
    ensures 0 < |rows| <= if limits.rowGroupRows > 1 then limits.rowGroupRows else 1
  {
    var n := |rows| - 1;
    if n > 0 { assert !Reached(rows[..n], limits); }
  }

  lemma {:induction false} FlattenHead(batches: seq<seq<Row>>)
    requires batches != []
    ensures Flatten(batches) == batches[0] + Flatten(batches[1..])
    decreases |batches|
  {
    if |batches| == 1 {
      assert batches[..0] == [] && batches[1..] == [];
    } else {
      var front, last := batches[..|batches| - 1], batches[|batches| - 1];
      FlattenHead(front);
      assert batches[1..][..|batches| - 2] == front[1..];
      assert batches[1..][|batches| - 2] == last;
      ConcatAssoc(batches[0], Flatten(front[1..]), last);
    }
  }

  /** The rows determine the batches: there is one way to cut a sequence under given thresholds. */
  lemma {:induction false} BatchesUnique(a: seq<seq<Row>>, b: seq<seq<Row>>, limits: Limits)
    requires Batches(a, limits) && Batches(b, limits) && Flatten(a) == Flatten(b)
    ensures a == b
    decreases |a|
  {
    FlattenedRows(a, limits);
    FlattenedRows(b, limits);
    if a != [] && b != [] {
      FlattenHead(a);
      FlattenHead(b);
      FirstBatch(a, b, limits);
      FirstBatch(b, a, limits);
      var all := Flatten(a);
      assert a[0] == all[..|a[0]|] && b[0] == all[..|b[0]|];
      assert Flatten(a[1..]) == all[|a[0]|..] && Flatten(b[1..]) == all[|b[0]|..];
      BatchesUnique(a[1..], b[1..], limits);
      assert a == [a[0]] + a[1..] && b == [b[0]] + b[1..];
    }
  }

  lemma FlattenedRows(batches: seq<seq<Row>>, limits: Limits)
    requires Batches(batches, limits)
    ensures Flatten(batches) == [] <==> batches == []
  {
    if batches != [] {
      FlattenHead(batches);
      assert Batch(batches[0], limits);
    }
  }

  lemma FirstBatch(a: seq<seq<Row>>, b: seq<seq<Row>>, limits: Limits)
    requires a != [] && b != [] && Batches(a, limits) && Batches(b, limits)
    requires a[0] + Flatten(a[1..]) == b[0] + Flatten(b[1..])
    ensures |a[0]| <= |b[0]|
  {
    assert Batch(a[0], limits);
    assert |b[0]| <= |a[0]| ==> (a[0] + Flatten(a[1..]))[..|b[0]|] == a[0][..|b[0]|];
    assert (b[0] + Flatten(b[1..]))[..|b[0]|] == b[0];
    if |b| == 1 {
      assert b[1..] == [];
      assert |a[0]| <= |a[0] + Flatten(a[1..])| == |b[0]|;
    } else {
      assert Reached(b[0], limits);
    }
  }

  // ---- the table is sorted --------------------------------------------------------------------

  lemma TableKeyOrder(r: Row, s: Row)
    requires r.componentPath == s.componentPath
    ensures KeyLe(TableKey(r), TableKey(s)) == KeyLe(RowKey(r.emitted), RowKey(s.emitted))
  {
    StringsFlip(r.componentPath, s.componentPath);
    assert TableKey(r)[1..] == RowKey(r.emitted) && TableKey(s)[1..] == RowKey(s.emitted);
  }

  lemma TableKeyBefore(r: Row, s: Row)
    requires Text.CompareStrings(r.componentPath, s.componentPath) == Less
    ensures KeyLe(TableKey(r), TableKey(s))
  {
  }

  lemma ComponentSorted(c: Component)
    ensures Sorted(ComponentRows(c), TableKey)
  {
    SortBySorts(c.rows, RowKey);
    var rows := ComponentRows(c);
    forall i, j | 0 <= i < j < |rows| ensures KeyLe(TableKey(rows[i]), TableKey(rows[j])) {
      TableKeyOrder(rows[i], rows[j]);
    }
  }

  ghost predicate Increasing(components: seq<Component>) {
    forall i, j :: 0 <= i < j < |components| ==> Text.CompareStrings(components[i].path, components[j].path) == Less
  }

  lemma {:induction false} RowsComeFrom(components: seq<Component>, r: Row)
    requires r in RowsInOrder(components)
    ensures exists i :: 0 <= i < |components| && components[i].path == r.componentPath
    decreases |components|
  {
    var front, last := components[..|components| - 1], components[|components| - 1];
    if r in RowsInOrder(front) {
      RowsComeFrom(front, r);
      var i :| 0 <= i < |front| && front[i].path == r.componentPath;
      assert components[i].path == r.componentPath;
    } else {
      assert r in ComponentRows(last);
      assert components[|components| - 1].path == r.componentPath;
    }
  }

  lemma {:induction false} InOrderSorted(components: seq<Component>)
    requires Increasing(components)
    ensures Sorted(RowsInOrder(components), TableKey)
    decreases |components|
  {
    if components != [] {
      var front, last := components[..|components| - 1], components[|components| - 1];
      InOrderSorted(front);
      ComponentSorted(last);
      var a, b := RowsInOrder(front), ComponentRows(last);
      forall i, j | 0 <= i < |a| && 0 <= j < |b| ensures KeyLe(TableKey(a[i]), TableKey(b[j])) {
        assert a[i] in RowsInOrder(front);
        RowsComeFrom(front, a[i]);
        var k :| 0 <= k < |front| && front[k].path == a[i].componentPath;
        assert components[k] == front[k];
        TableKeyBefore(a[i], b[j]);
      }
      SortedConcat(a, b);
    }
  }

  lemma SortedConcat(a: seq<Row>, b: seq<Row>)
    requires Sorted(a, TableKey) && Sorted(b, TableKey)
    requires forall i, j :: 0 <= i < |a| && 0 <= j < |b| ==> KeyLe(TableKey(a[i]), TableKey(b[j]))
    ensures Sorted(a + b, TableKey)
  {
  }

  /** With distinct component paths the table is sorted by component, module path and address. */
  lemma TableIsSorted(components: seq<Component>)
    requires forall i, j :: 0 <= i < j < |components| ==> components[i].path != components[j].path
    ensures Sorted(TableRows(components), TableKey)
  {
    var sorted := SortBy(components, ComponentKey);
    SortBySorts(components, ComponentKey);
    DistinctPathsSurvive(components, sorted);
    forall i, j | 0 <= i < j < |sorted| ensures Text.CompareStrings(sorted[i].path, sorted[j].path) == Less {
      assert KeyLe(ComponentKey(sorted[i]), ComponentKey(sorted[j]));
      StringsFlip(sorted[i].path, sorted[j].path);
    }
    InOrderSorted(sorted);
  }

  lemma DistinctPathsSurvive(a: seq<Component>, b: seq<Component>)
    requires multiset(a) == multiset(b)
    requires forall i, j :: 0 <= i < j < |a| ==> a[i].path != a[j].path
    ensures forall i, j :: 0 <= i < j < |b| ==> b[i].path != b[j].path
  {
    PermutedDistinct(a, b, (c: Component) => c.path);
  }

  // ---- no row is lost or invented -------------------------------------------------------------

  /** The rows of the components as they were collected. */
  ghost function Collected(components: seq<Component>): multiset<Row> {
    if components == [] then multiset{}
    else multiset(Stamp(components[0].path, components[0].rows)) + Collected(components[1..])
  }

  lemma {:induction false} StampAppend(path: string, a: seq<EmittedRow>, b: seq<EmittedRow>)
    ensures Stamp(path, a + b) == Stamp(path, a) + Stamp(path, b)
  {
  }

  lemma {:induction false} StampInsert(path: string, x: EmittedRow, s: seq<EmittedRow>)
    ensures multiset(Stamp(path, Insert(x, s, RowKey))) == multiset(Stamp(path, s)) + multiset{Row(path, x)}
    decreases |s|
  {
    if s == [] || KeyLe(RowKey(x), RowKey(s[0])) {
      StampAppend(path, [x], s);
      assert Stamp(path, [x]) == [Row(path, x)];
    } else {
      StampInsert(path, x, s[1..]);
      StampAppend(path, [s[0]], Insert(x, s[1..], RowKey));
      StampAppend(path, [s[0]], s[1..]);
      assert s == [s[0]] + s[1..];
    }
  }

  lemma {:induction false} StampSorted(path: string, rows: seq<EmittedRow>)
    ensures multiset(Stamp(path, SortBy(rows, RowKey))) == multiset(Stamp(path, rows))
    decreases |rows|
  {
    if rows != [] {
      StampSorted(path, rows[1..]);
      StampInsert(path, rows[0], SortBy(rows[1..], RowKey));
      assert rows == [rows[0]] + rows[1..];
      StampAppend(path, [rows[0]], rows[1..]);
      assert Stamp(path, [rows[0]]) == [Row(path, rows[0])];
    }
  }

  lemma {:induction false} CollectedAppend(a: seq<Component>, b: seq<Component>)
    ensures Collected(a + b) == Collected(a) + Collected(b)
    decreases |a|
  {
    if a == [] {
      assert a + b == b;
    } else {
      assert (a + b)[1..] == a[1..] + b;
      CollectedAppend(a[1..], b);
    }
  }

  lemma {:induction false} InOrderCollects(components: seq<Component>)
    ensures multiset(RowsInOrder(components)) == Collected(components)
    decreases |components|
  {
    if components != [] {
      var front, last := components[..|components| - 1], components[|components| - 1];
      InOrderCollects(front);
      CollectedAppend(front, [last]);
      assert components == front + [last];
      StampSorted(last.path, last.rows);
      assert Collected([last]) == multiset(Stamp(last.path, last.rows)) + Collected([]);
    }
  }

  lemma {:induction false} CollectedInsert(x: Component, s: seq<Component>)
    ensures Collected(Insert(x, s, ComponentKey)) == Collected([x] + s)
    decreases |s|
  {
    if s != [] && !KeyLe(ComponentKey(x), ComponentKey(s[0])) {
      CollectedInsert(x, s[1..]);
      CollectedAppend([s[0]], Insert(x, s[1..], ComponentKey));
      CollectedAppend([s[0]], s[1..]);
      CollectedAppend([x], s[1..]);
      CollectedAppend([x], s);
      assert s == [s[0]] + s[1..];
    }
  }

  lemma {:induction false} CollectedSorted(components: seq<Component>)
    ensures Collected(SortBy(components, ComponentKey)) == Collected(components)
    decreases |components|
  {
    if components != [] {
      var c, rest := components[0], components[1..];
      CollectedSorted(rest);
      CollectedInsert(c, SortBy(rest, ComponentKey));
      CollectedAppend([c], SortBy(rest, ComponentKey));
      CollectedAppend([c], rest);
      assert components == [c] + rest;
    }
  }

  /** The table holds exactly the collected rows. */
  lemma TableConservesRows(components: seq<Component>)
    ensures multiset(TableRows(components)) == Collected(components)
  {
    InOrderCollects(SortBy(components, ComponentKey));
    CollectedSorted(components);
  }
}
