/** What an equality delete file was to delete, by field id, against what its compiled predicate deletes, by name. */
module EqualityScope {
  import opened Common
  import opened Predicates
  import opened DeleteColumns
  import opened EqualityDeletes

  /** A data row: the cell of each primitive field, at any depth, by field id. */
  type DataRow = int -> Option<Datum>

  function Value(cell: Cell): Option<Datum> {
    if cell.Present? then Some(cell.datum) else None
  }

  /** Batch `fields` holds `n` rows of arrays that all convert, fields have distinct ids, and top-level ones distinct
      names. */
  ghost predicate Readable(fields: seq<Column>, ids: set<int>, n: nat) {
    && !HasListOrMap(fields)
    && var leaves := Leaves(fields, ids, true, false);
       && (forall l :: l in leaves ==> ReadableLeaf(l, n))
       && (forall i, j :: 0 <= i < j < |leaves| ==> leaves[i].id != leaves[j].id)
       && forall i, j :: 0 <= i < j < |leaves| && leaves[i].topLevel && leaves[j].topLevel ==> leaves[i].name != leaves[j].name
  }

  ghost predicate ReadableLeaf(l: Leaf, n: nat) {
    l.cells.Some? && |l.cells.value| == n && forall k :: 0 <= k < n ==> !l.cells.value[k].Unconvertible?
  }

  function CellAt(l: Leaf, r: nat): Option<Datum> {
    if l.cells.Some? && r < |l.cells.value| then Value(l.cells.value[r]) else None
  }

  /** Row `r` of the delete file matches: all that lies in its equality columns, whole structs included, agrees. */
  ghost predicate OwnMatch(leaves: seq<Leaf>, r: nat, row: DataRow) {
    forall l :: l in leaves && l.marked ==> row(l.id) == CellAt(l, r)
  }

  /** Binding fails on a name the table does not have. */
  ghost predicate Binds(d: DeleteRow, table: string -> Option<int>) {
    forall i :: 0 <= i < |d| ==> table(d[i].0).Some?
  }

  /** The row as predicates see it once bound: a name stands for the table column of that name. */
  function ByName(table: string -> Option<int>, row: DataRow): string -> Option<Datum> {
    name => if table(name).Some? then row(table(name).value) else None
  }

  /** Top-level columns are found by their name, and the bare name of a field never leads to a nested one. */
  ghost predicate Resolves(table: string -> Option<int>, leaves: seq<Leaf>) {
    && (forall l :: l in leaves && l.topLevel ==> table(l.name) == Some(l.id))
    && forall l, m :: l in leaves && m in leaves && !m.topLevel ==> table(l.name) != Some(m.id)
  }

  /** What is compiled from row `r` of the batch binds, and is false on the data row, so that the row is deleted. */
  ghost predicate Deletes(fields: seq<Column>, ids: set<int>, r: nat, table: string -> Option<int>, row: DataRow) {
    && EqualityColumns(fields, ids).Ok? && EqualityColumns(fields, ids).value != []
    && RowAt(EqualityColumns(fields, ids).value, r).Some?
    && Binds(RowAt(EqualityColumns(fields, ids).value, r).value, table)
    && Meaning(RowPredicate(RowAt(EqualityColumns(fields, ids).value, r).value), ByName(table, row), Kleene) == Some(false)
  }

  /** There is something to compare, and it consists of top-level primitive columns. */
  ghost predicate InScope(leaves: seq<Leaf>) {
    && (exists l :: l in leaves && l.marked)
    && forall l :: l in leaves && l.marked ==> l.topLevel
  }

  // ----- what is compiled -----

  function PickedRow(leaves: seq<Leaf>, ids: set<int>, r: nat): DeleteRow {
    if leaves == [] then []
    else (if leaves[0].id in ids then [(leaves[0].name, CellAt(leaves[0], r))] else []) + PickedRow(leaves[1..], ids, r)
  }

  lemma {:induction false} RowOfPicked(leaves: seq<Leaf>, ids: set<int>, n: nat, r: nat)
    requires r < n && forall l :: l in leaves ==> ReadableLeaf(l, n)
    ensures Finished(Picked(leaves, ids)).Ok?
    ensures RowAt(Finished(Picked(leaves, ids)).value, r) == Some(PickedRow(leaves, ids, r))
    ensures Picked(leaves, ids) == [] <==> PickedRow(leaves, ids, r) == []
    ensures Finished(Picked(leaves, ids)).value == [] <==> Picked(leaves, ids) == []
  {
    if leaves != [] {
      RowOfPicked(leaves[1..], ids, n, r);
      assert leaves[0] in leaves && ReadableLeaf(leaves[0], n);
      if leaves[0].id in ids {
        var p := Picked(leaves, ids);
        assert p[0] == (leaves[0].name, leaves[0].cells) && p[1..] == Picked(leaves[1..], ids);
        var columns := Finished(p).value;
        assert columns[0] == (leaves[0].name, leaves[0].cells.value) && columns[1..] == Finished(p[1..]).value;
      } else {
        assert Picked(leaves, ids) == Picked(leaves[1..], ids);
        assert PickedRow(leaves, ids, r) == PickedRow(leaves[1..], ids, r);
      }
    }
  }

  lemma {:induction false} PickedRowMatches(leaves: seq<Leaf>, ids: set<int>, r: nat, named: string -> Option<Datum>)
    ensures Matches(PickedRow(leaves, ids, r), named)
       <==> forall l :: l in leaves && l.id in ids ==> named(l.name) == CellAt(l, r)
  {
    if leaves != [] {
      PickedRowMatches(leaves[1..], ids, r, named);
      assert leaves == [leaves[0]] + leaves[1..];
      var rest := PickedRow(leaves[1..], ids, r);
      if leaves[0].id in ids {
        MatchesCons((leaves[0].name, CellAt(leaves[0], r)), rest, named);
      } else {
        assert PickedRow(leaves, ids, r) == rest;
      }
    }
  }

  lemma {:induction false} PickedRowBinds(leaves: seq<Leaf>, ids: set<int>, r: nat, table: string -> Option<int>)
    ensures Binds(PickedRow(leaves, ids, r), table) <==> forall l :: l in leaves && l.id in ids ==> table(l.name).Some?
  {
    if leaves != [] {
      PickedRowBinds(leaves[1..], ids, r, table);
      assert leaves == [leaves[0]] + leaves[1..];
      var rest := PickedRow(leaves[1..], ids, r);
      if leaves[0].id in ids {
        BindsCons((leaves[0].name, CellAt(leaves[0], r)), rest, table);
      } else {
        assert PickedRow(leaves, ids, r) == rest;
      }
    }
  }

  lemma BindsCons(cell: (string, Option<Datum>), rest: DeleteRow, table: string -> Option<int>)
    ensures Binds([cell] + rest, table) <==> table(cell.0).Some? && Binds(rest, table)
  {
    var d := [cell] + rest;
    assert d[0] == cell;
    assert forall i :: 0 <= i < |rest| ==> rest[i] == d[i + 1];
  }

  lemma MatchesCons(cell: (string, Option<Datum>), rest: DeleteRow, named: string -> Option<Datum>)
    ensures Matches([cell] + rest, named) <==> named(cell.0) == cell.1 && Matches(rest, named)
  {
    var d := [cell] + rest;
    assert d[0] == cell;
    assert forall i :: 0 <= i < |rest| ==> rest[i] == d[i + 1];
  }

  lemma {:induction false} LeafMarks(fields: seq<Column>, ids: set<int>, topLevel: bool, marked: bool)
    ensures forall l :: l in Leaves(fields, ids, topLevel, marked) ==>
              (l.id in ids || marked ==> l.marked) && (l.topLevel ==> (l.marked <==> marked || l.id in ids))
    decreases fields, 0
  {
    if fields != [] {
      LeafMarks(fields[1..], ids, topLevel, marked);
      LeafMarksAt(fields[0], ids, topLevel, marked);
    }
  }

  lemma {:induction false} LeafMarksAt(column: Column, ids: set<int>, topLevel: bool, marked: bool)
    ensures forall l :: l in LeavesAt(column, ids, topLevel, marked) ==>
              (l.id in ids || marked ==> l.marked) && (l.topLevel ==> (l.marked <==> marked || l.id in ids))
    decreases column, 1
  {
    match column.content
    case Primitive(_) =>
    case Struct(fields) =>
      LeafMarks(fields, ids, false, marked || column.id in ids);
      NestedLeaves(fields, ids, marked || column.id in ids);
    case ListOrMap =>
  }

  lemma {:induction false} NestedLeaves(fields: seq<Column>, ids: set<int>, marked: bool)
    ensures forall l :: l in Leaves(fields, ids, false, marked) ==> !l.topLevel
    decreases fields, 0
  {
    if fields != [] {
      NestedLeaves(fields[1..], ids, marked);
      NestedLeavesAt(fields[0], ids, marked);
    }
  }

  lemma {:induction false} NestedLeavesAt(column: Column, ids: set<int>, marked: bool)
    ensures forall l :: l in LeavesAt(column, ids, false, marked) ==> !l.topLevel
    decreases column, 1
  {
    match column.content
    case Primitive(_) =>
    case Struct(fields) =>
      NestedLeaves(fields, ids, marked || column.id in ids);
    case ListOrMap =>
  }

  /** Something was collected, and every collected field agrees with what its bare name leads to. */
  ghost predicate CollectedMatch(leaves: seq<Leaf>, ids: set<int>, r: nat, table: string -> Option<int>, row: DataRow) {
    && (exists l :: l in leaves && l.id in ids)
    && forall l :: l in leaves && l.id in ids ==> table(l.name).Some? && row(table(l.name).value) == CellAt(l, r)
  }

  lemma {:induction false} PickedRowEmpty(leaves: seq<Leaf>, ids: set<int>, r: nat)
    ensures PickedRow(leaves, ids, r) == [] <==> forall l :: l in leaves ==> l.id !in ids
  {
    if leaves != [] {
      PickedRowEmpty(leaves[1..], ids, r);
      assert leaves == [leaves[0]] + leaves[1..];
    }
  }

  /** A data row is deleted exactly by what was collected. */
  lemma DeletesMeans(fields: seq<Column>, ids: set<int>, n: nat, r: nat, table: string -> Option<int>, row: DataRow)
    requires Readable(fields, ids, n) && r < n
    ensures Deletes(fields, ids, r, table, row) <==> CollectedMatch(Leaves(fields, ids, true, false), ids, r, table, row)
  {
    var leaves := Leaves(fields, ids, true, false);
    var d, named := PickedRow(leaves, ids, r), ByName(table, row);
    hide Binds, Leaves, Picked, PickedRow, Finished, RowAt, Matches, Meaning, RowPredicate, MatchPredicate;
    CollectedIsPicked(fields, ids, true, false);
    RowOfPicked(leaves, ids, n, r);
    PickedRowEmpty(leaves, ids, r);
    PickedRowMatches(leaves, ids, r, named);
    PickedRowBinds(leaves, ids, r, table);
    RowPredicateMeaning(d, named, Kleene);
    MatchMeaning(d, named, Kleene);
  }

  // ----- which rows it should be -----

  /** The data row that has the cells of row `r` of the delete file. */
  function OwnRow(leaves: seq<Leaf>, r: nat): DataRow {
    id => LookUp(leaves, r, id)
  }

  function LookUp(leaves: seq<Leaf>, r: nat, id: int): Option<Datum> {
    if leaves == [] then None
    else if leaves[0].id == id then CellAt(leaves[0], r)
    else LookUp(leaves[1..], r, id)
  }

  lemma {:induction false} OwnRowMatches(leaves: seq<Leaf>, r: nat, l: Leaf)
    requires forall i, j :: 0 <= i < j < |leaves| ==> leaves[i].id != leaves[j].id
    requires l in leaves
    ensures OwnRow(leaves, r)(l.id) == CellAt(l, r)
  {
    var k :| 0 <= k < |leaves| && leaves[k] == l;
    if k > 0 {
      assert leaves[1..][k - 1] == l;
      OwnRowMatches(leaves[1..], r, l);
    }
  }

  /** For every batch and every one of its rows: the compiled predicate deletes exactly the data rows that match that
      row of the delete file if and only if there is an equality column and all of them are top-level primitive
      columns. */
  lemma ScopeExact(fields: seq<Column>, ids: set<int>, n: nat, r: nat, table: string -> Option<int>)
    requires Readable(fields, ids, n) && r < n && Resolves(table, Leaves(fields, ids, true, false))
    ensures (forall row :: Deletes(fields, ids, r, table, row) <==> OwnMatch(Leaves(fields, ids, true, false), r, row))
       <==> InScope(Leaves(fields, ids, true, false))
  {
    var leaves := Leaves(fields, ids, true, false);
    LeafMarks(fields, ids, true, false);
    hide Deletes, Readable;
    if InScope(leaves) {
      forall row
        ensures Deletes(fields, ids, r, table, row) <==> OwnMatch(leaves, r, row)
      {
        DeletesMeans(fields, ids, n, r, table, row);
      }
    } else {
      var row := OutOfScope(fields, ids, n, r, table);
    }
  }

  lemma DistinctIds(fields: seq<Column>, ids: set<int>, n: nat)
    requires Readable(fields, ids, n)
    ensures var leaves := Leaves(fields, ids, true, false);
            forall i, j :: 0 <= i < j < |leaves| ==> leaves[i].id != leaves[j].id
  {
  }

  /** A data row that the delete file and its compiled predicate disagree on. */
  lemma OutOfScope(fields: seq<Column>, ids: set<int>, n: nat, r: nat, table: string -> Option<int>) returns (row: DataRow)
    requires Readable(fields, ids, n) && r < n && Resolves(table, Leaves(fields, ids, true, false))
    requires !InScope(Leaves(fields, ids, true, false))
    ensures Deletes(fields, ids, r, table, row) != OwnMatch(Leaves(fields, ids, true, false), r, row)
  {
    hide Deletes, Readable, Leaves, OwnRow;
    var leaves := Leaves(fields, ids, true, false);
    LeafMarks(fields, ids, true, false);
    row := OwnRow(leaves, r);
    DistinctIds(fields, ids, n);
    forall l | l in leaves
      ensures row(l.id) == CellAt(l, r)
    {
      OwnRowMatches(leaves, r, l);
    }
    DeletesMeans(fields, ids, n, r, table, row);
    if Deletes(fields, ids, r, table, row) {
      var x :| x in leaves && x.marked && !x.topLevel;
      var other := if CellAt(x, r).None? then Some(Num(0)) else None;
      var own := row;
      row := id => if id == x.id then other else own(id);
      DeletesMeans(fields, ids, n, r, table, row);
    }
  }

  // ----- concrete batches -----

  /** One row a = 1, s = (sa = 4) of a column a and a struct column s. */
  function ARow(): seq<Column> {
    [Column(1, "a", Primitive(Some([Present(Num(1))]))),
     Column(2, "s", Struct([Column(3, "sa", Primitive(Some([Present(Num(4))])))]))]
  }

  /** Equality columns a and s: only a is collected, and a data row a = 1, s = (sa = 5) is deleted as well. */
  lemma StructOverApplies(table: string -> Option<int>, row: DataRow)
    requires table("a") == Some(1) && row(1) == Some(Num(1)) && row(3) == Some(Num(5))
    ensures EqualityColumns(ARow(), {1, 2}) == Ok([("a", [Present(Num(1))])])
    ensures Deletes(ARow(), {1, 2}, 0, table, row)
    ensures !OwnMatch(Leaves(ARow(), {1, 2}, true, false), 0, row)
  {
    hide Deletes, Leaves, EqualityColumns, Readable, ARow;
    var leaves := ARowLeaves({1, 2});
    DeletesMeans(ARow(), {1, 2}, 1, 0, table, row);
    assert leaves[0] in leaves && leaves[1] in leaves;
  }

  /** Equality column s.sa: the field is collected under its bare name. In a table with a column sa of its own, it is
      that column which decides. */
  lemma NestedFieldByBareName(table: string -> Option<int>, row: DataRow)
    requires table("sa") == Some(9) && row(9) == Some(Num(4)) && row(3) == Some(Num(5))
    ensures EqualityColumns(ARow(), {3}) == Ok([("sa", [Present(Num(4))])])
    ensures Deletes(ARow(), {3}, 0, table, row)
    ensures !OwnMatch(Leaves(ARow(), {3}, true, false), 0, row)
  {
    hide Deletes, Leaves, EqualityColumns, Readable, ARow;
    var leaves := ARowLeaves({3});
    DeletesMeans(ARow(), {3}, 1, 0, table, row);
    assert leaves[0] in leaves && leaves[1] in leaves;
  }

  lemma ARowLeaves(ids: set<int>) returns (leaves: seq<Leaf>)
    ensures leaves == Leaves(ARow(), ids, true, false)
    ensures leaves == [Leaf(1, "a", Some([Present(Num(1))]), true, 1 in ids),
                       Leaf(3, "sa", Some([Present(Num(4))]), false, 2 in ids || 3 in ids)]
    ensures Readable(ARow(), ids, 1)
    ensures 1 in ids && 3 !in ids ==> EqualityColumns(ARow(), ids) == Ok([("a", [Present(Num(1))])])
    ensures 1 !in ids && 3 in ids ==> EqualityColumns(ARow(), ids) == Ok([("sa", [Present(Num(4))])])
  {
    var a, sa := Column(1, "a", Primitive(Some([Present(Num(1))]))), Column(3, "sa", Primitive(Some([Present(Num(4))])));
    var s := Column(2, "s", Struct([sa]));
    assert ARow() == [a, s];
    TwoColumns(a, s, sa, ids);
    leaves := Leaves([a, s], ids, true, false);
    hide Leaves, HasListOrMap, ARow, Collected;
    var forA: Named<Option<seq<Cell>>> := [("a", Some([Present(Num(1))]))];
    var forSa: Named<Option<seq<Cell>>> := [("sa", Some([Present(Num(4))]))];
    assert forA + [] == forA && [] + forSa == forSa;
    ColumnOf("a", [Present(Num(1))]);
    ColumnOf("sa", [Present(Num(4))]);
  }

  lemma TwoColumns(a: Column, s: Column, sa: Column, ids: set<int>)
    requires a.content.Primitive? && sa.content.Primitive? && s.content == Struct([sa])
    ensures Leaves([a, s], ids, true, false) ==
              [Leaf(a.id, a.name, a.content.cells, true, a.id in ids),
               Leaf(sa.id, sa.name, sa.content.cells, false, s.id in ids || sa.id in ids)]
    ensures !HasListOrMap([a, s])
    ensures Collected([a, s], ids) == (if a.id in ids then [(a.name, a.content.cells)] else [])
                                    + (if sa.id in ids then [(sa.name, sa.content.cells)] else [])
  {
    assert [a, s][1..] == [s] && [s][1..] == [] && [sa][1..] == [];
    assert Leaves([sa], ids, false, s.id in ids) == LeavesAt(sa, ids, false, s.id in ids) + [];
    assert Leaves([s], ids, true, false) == LeavesAt(s, ids, true, false) + [];
    assert Collected([sa], ids) == CollectedAt(sa, ids) + [];
    assert Collected([s], ids) == CollectedAt(s, ids) + [];
    assert !HasListOrMap([]) && !HasListOrMap([sa]) && !HasListOrMap([s]);
  }

  lemma ColumnOf(name: string, cells: seq<Cell>)
    ensures Finished([(name, Some(cells))]) == Ok([(name, cells)])
  {
    var c: Named<Option<seq<Cell>>> := [(name, Some(cells))];
    assert c[1..] == [];
    assert [(name, cells)] + [] == [(name, cells)];
  }
}
