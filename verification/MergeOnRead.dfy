/** The scan of one data file end to end: splits, pruning, positional deletes, equality deletes and the filter. */
module MergeOnRead {
  import opened Common
  import opened Predicates
  import opened Binding
  import opened FieldIds
  import opened RowFilter
  import EqualityDeletes
  import opened DeleteFilters
  import DeleteVectors
  import opened RowSelections
  import opened ByteSplits
  import opened ScanTask
  import LoadProtocol

  type DeleteRow = EqualityDeletes.DeleteRow

  type ColumnPredicate = EqualityDeletes.ColumnPredicate

  /** The leaf cells of one row of the file. */
  type Leaves = seq<Option<Datum>>

  // ----- what compiled equality deletes look like -----

  /** Inequalities with literals that fit their column, and tests for a value, joined by AND and OR. */
  ghost predicate DeleteLeaves<R(!new)>(p: Predicate<R>, fits: (R, Datum) -> bool) {
    match p
    case And(l, r) => DeleteLeaves(l, fits) && DeleteLeaves(r, fits)
    case Or(l, r) => DeleteLeaves(l, fits) && DeleteLeaves(r, fits)
    case Unary(op, _) => op.NotNull?
    case Binary(op, t, d) => op.NotEq? && fits(t, d)
    case Set(_, _, _) => false
    case Not(_) => false
    case _ => true
  }

  /** The same before negation. */
  ghost predicate MatchLeaves(p: ColumnPredicate, fits: (string, Datum) -> bool) {
    match p
    case And(l, r) => MatchLeaves(l, fits) && MatchLeaves(r, fits)
    case Unary(op, _) => op.IsNull?
    case Binary(op, t, d) => op.Eq? && fits(t, d)
    case AlwaysTrue => true
    case _ => false
  }

  /** The literal can be a value of the column. */
  ghost function Suits(schema: Schema): (string, Datum) -> bool {
    (name, d) => schema(name).None? || CanHold(schema(name).value.columnType, d)
  }

  /** Delete rows as the reader has them: evolved to the column types of the table. */
  ghost predicate TypedRow(d: DeleteRow, schema: Schema) {
    forall i :: 0 <= i < |d| && d[i].1.Some? ==> Suits(schema)(d[i].0, d[i].1.value)
  }

  ghost predicate TypedFiles(files: seq<seq<DeleteRow>>, schema: Schema) {
    forall i, d :: 0 <= i < |files| && d in files[i] ==> TypedRow(d, schema)
  }

  lemma {:induction false} MatchPredicateLeaves(d: DeleteRow, schema: Schema)
    requires TypedRow(d, schema)
    ensures MatchLeaves(EqualityDeletes.MatchPredicate(d), Suits(schema))
  {
    if d != [] {
      var front := d[..|d| - 1];
      assert forall i :: 0 <= i < |front| ==> front[i] == d[i];
      MatchPredicateLeaves(front, schema);
    }
  }

  lemma {:induction false} NegatedLeaves(p: ColumnPredicate, fits: (string, Datum) -> bool)
    requires MatchLeaves(p, fits)
    ensures DeleteLeaves(Negate(p), fits)
  {
    match p
    case And(l, r) =>
      NegatedLeaves(l, fits);
      NegatedLeaves(r, fits);
    case _ =>
  }

  lemma RowPredicateLeaves(d: DeleteRow, schema: Schema)
    requires d != [] && TypedRow(d, schema)
    ensures DeleteLeaves(EqualityDeletes.RowPredicate(d), Suits(schema))
  {
    EqualityDeletes.MatchPredicateShape(d);
    EqualityDeletes.MatchShapeFixed(EqualityDeletes.MatchPredicate(d));
    MatchPredicateLeaves(d, schema);
    NegatedLeaves(EqualityDeletes.MatchPredicate(d), Suits(schema));
  }

  lemma {:induction false} ConjunctLeaves(p: ColumnPredicate, fits: (string, Datum) -> bool)
    requires forall i :: 0 <= i < |Conjuncts(p)| ==> DeleteLeaves(Conjuncts(p)[i], fits)
    ensures DeleteLeaves(p, fits)
  {
    var cs := Conjuncts(p);
    if p.And? {
      forall i | 0 <= i < |Conjuncts(p.left)|
        ensures DeleteLeaves(Conjuncts(p.left)[i], fits)
      {
        assert cs[i] == Conjuncts(p.left)[i];
      }
      forall i | 0 <= i < |Conjuncts(p.right)|
        ensures DeleteLeaves(Conjuncts(p.right)[i], fits)
      {
        assert cs[|Conjuncts(p.left)| + i] == Conjuncts(p.right)[i];
      }
      ConjunctLeaves(p.left, fits);
      ConjunctLeaves(p.right, fits);
    } else if !p.AlwaysTrue? {
      assert DeleteLeaves(cs[0], fits);
    }
  }

  lemma {:induction false} TaskLeaves(preds: seq<ColumnPredicate>, files: seq<seq<DeleteRow>>, schema: Schema)
    requires CompiledFiles(preds, files) && TypedFiles(files, schema)
    ensures DeleteLeaves(EqualityDeletes.LeftFold(preds), Suits(schema))
  {
    if preds != [] {
      var n := |preds| - 1;
      TaskLeaves(preds[..n], files[..n], schema);
      assert EqualityDeletes.Compiled(preds[n], files[n]);
      forall i | 0 <= i < |files[n]|
        ensures DeleteLeaves(EqualityDeletes.RowPredicates(files[n])[i], Suits(schema))
      {
        assert files[n][i] in files[n];
        RowPredicateLeaves(files[n][i], schema);
      }
      ConjunctLeaves(preds[n], Suits(schema));
    }
  }

  /** Binding keeps that shape, and decides nothing on null cells. */
  lemma {:induction false} BoundLeaves(p: ColumnPredicate, schema: Schema, row: int -> Option<Datum>)
    requires DeleteLeaves(p, Suits(schema)) && Bind(p, schema).Ok?
    ensures DeleteLeaves(Bind(p, schema).value, (id: int, d: Datum) => true)
    ensures NoneDecidedOnNull(p, schema, row)
  {
    match p
    case And(l, r) =>
      BoundLeaves(l, schema, row);
      BoundLeaves(r, schema, row);
    case Or(l, r) =>
      BoundLeaves(l, schema, row);
      BoundLeaves(r, schema, row);
    case _ =>
  }

  /** On whatever columns the file has or lacks, the filter compiled from such a predicate is true exactly where the
      predicate is. */
  lemma {:induction false} LeavesKeepTruth(p: BoundPredicate, columnMap: map<int, nat>, row: int -> Option<Datum>)
    requires DeleteLeaves(p, (id: int, d: Datum) => true)
    ensures NotFree(p) && KeepsTruth(columnMap, p, row)
  {
    match p
    case And(l, r) =>
      LeavesKeepTruth(l, columnMap, row);
      LeavesKeepTruth(r, columnMap, row);
    case Or(l, r) =>
      LeavesKeepTruth(l, columnMap, row);
      LeavesKeepTruth(r, columnMap, row);
    case _ =>
  }

  // ----- the predicate of one scan task -----

  /** The filter of the scan and the equality deletes of the scan task, in the order the source combines them. */
  function FinalPredicate(filter: Option<BoundPredicate>, deletes: Option<BoundPredicate>): Option<BoundPredicate> {
    match (filter, deletes)
    case (None, _) => deletes
    case (_, None) => filter
    case (Some(f), Some(d)) => Some(And(f, d))
  }

  /** Folded, bound and combined. */
  function Planned(filter: Option<BoundPredicate>, preds: seq<ColumnPredicate>,
                   schema: Schema): Result<Option<BoundPredicate>> {
    var deletes := EqualityDeletes.LeftFold(preds);
    if deletes.AlwaysTrue? then Ok(FinalPredicate(filter, None))
    else
      var bound := Bind(deletes, schema);
      if bound.Err? then Err(bound.error) else Ok(FinalPredicate(filter, Some(bound.value)))
  }

  /** The row satisfies the scan's own filter. */
  ghost predicate Satisfies(filter: Option<BoundPredicate>, row: int -> Option<Datum>) {
    filter.Some? ==> Meaning(filter.value, row, Kleene) == Some(true)
  }

  /** The predicate of the scan task is true on a row that the schema allows if and only if the row satisfies the scan's
      filter and visibly differs from every row of every equality delete file. */
  lemma PlannedMeans(filter: Option<BoundPredicate>, preds: seq<ColumnPredicate>, files: seq<seq<DeleteRow>>,
                     schema: Schema, row: int -> Option<Datum>)
    requires CompiledFiles(preds, files) && TypedFiles(files, schema) && Conforms(schema, row)
    requires Planned(filter, preds, schema).Ok?
    ensures Satisfies(Planned(filter, preds, schema).value, row)
       <==> Satisfies(filter, row) && DiffersFromAllFiles(files, Named(schema, row))
  {
    var deletes := EqualityDeletes.LeftFold(preds);
    TaskPredicateMeans(preds, files, Named(schema, row));
    TaskLeaves(preds, files, schema);
    if !deletes.AlwaysTrue? {
      BoundLeaves(deletes, schema, row);
      BindMeaning(deletes, schema, row);
    }
    hide DeleteLeaves, Bind, TypedFiles, CompiledFiles, DiffersFromAllFiles, Conforms;
  }

  /** The compiled filter lets a row with these leaf cells through. */
  predicate Passes(c: Converter, final: Option<BoundPredicate>, leaves: Leaves)
    requires Fits(c, leaves) && (final.Some? ==> Compile(c, final.value).Compiled?)
  {
    final.Some? ==>
      && ColumnsBelow(Compile(c, final.value).kernel, |c.indices|)
      && Run(Compile(c, final.value).kernel, Project(leaves, c.indices)) == Some(true)
  }

  /** The filter compiled for a scan task passes a row that the schema allows if and only if the scan's own filter does
      and the row visibly differs from every row of every equality delete file. Nothing is asked of the deletes: their
      columns may be missing from the file. */
  lemma FilterPasses(c: Converter, filter: Option<BoundPredicate>, preds: seq<ColumnPredicate>,
                     files: seq<seq<DeleteRow>>, schema: Schema, leaves: Leaves)
    requires Fits(c, leaves) && CompiledFiles(preds, files) && TypedFiles(files, schema)
    requires Conforms(schema, RowOf(c, leaves)) && Planned(filter, preds, schema).Ok?
    requires var final := Planned(filter, preds, schema).value; final.Some? ==> Compile(c, final.value).Compiled?
    ensures filter.Some? ==> Compile(c, filter.value).Compiled?
    ensures Passes(c, Planned(filter, preds, schema).value, leaves)
       <==> Passes(c, filter, leaves) && DiffersFromAllFiles(files, Named(schema, RowOf(c, leaves)))
  {
    var deletes := EqualityDeletes.LeftFold(preds);
    TaskPredicateMeans(preds, files, Named(schema, RowOf(c, leaves)));
    if !deletes.AlwaysTrue? {
      DeletesPass(c, deletes, preds, files, schema, leaves);
    }
    hide DeleteLeaves, Bind, TypedFiles, CompiledFiles, DiffersFromAllFiles, Conforms;
    if filter.Some? {
      CompiledInScope(c, filter.value);
    }
  }

  /** The folded deletes, bound and compiled on their own. */
  lemma DeletesPass(c: Converter, deletes: ColumnPredicate, preds: seq<ColumnPredicate>, files: seq<seq<DeleteRow>>,
                    schema: Schema, leaves: Leaves)
    requires Fits(c, leaves) && CompiledFiles(preds, files) && TypedFiles(files, schema)
    requires deletes == EqualityDeletes.LeftFold(preds) && Bind(deletes, schema).Ok?
    requires Conforms(schema, RowOf(c, leaves)) && Compile(c, Bind(deletes, schema).value).Compiled?
    ensures Passes(c, Some(Bind(deletes, schema).value), leaves)
       <==> Meaning(deletes, Named(schema, RowOf(c, leaves)), Kleene) == Some(true)
  {
    var row := RowOf(c, leaves);
    TaskLeaves(preds, files, schema);
    BoundLeaves(deletes, schema, row);
    LeavesKeepTruth(Bind(deletes, schema).value, c.columnMap, row);
    BindMeaning(deletes, schema, row);
    TruthKept(c, Bind(deletes, schema).value, leaves);
  }

  /** The row has a value there, and not the delete row's. */
  ghost predicate DiffersAt(d: DeleteRow, named: string -> Option<Datum>, j: nat)
    requires j < |d|
  {
    named(d[j].0).Some? && named(d[j].0) != d[j].1
  }

  /** A delete row with a value for a column that the data file does not have matches no row of that file. Yet by that
      delete row a row is lost if and only if no other column of it differs visibly; x = 5 alone loses them all. */
  lemma DeleteOnMissingColumn(files: seq<seq<DeleteRow>>, named: string -> Option<Datum>, k: nat, d: DeleteRow, i: nat)
    requires k < |files| && d in files[k] && i < |d| && d[i].1.Some? && named(d[i].0).None?
    ensures !EqualityDeletes.Matches(d, named)
    ensures EqualityDeletes.DiffersVisibly(d, named)
       <==> exists j :: 0 <= j < |d| && j != i && DiffersAt(d, named, j)
    ensures (forall j :: 0 <= j < |d| && j != i ==> !DiffersAt(d, named, j)) ==> !DiffersFromAllFiles(files, named)
  {
    if EqualityDeletes.DiffersVisibly(d, named) {
      var j :| 0 <= j < |d| && named(d[j].0).Some? && named(d[j].0) != d[j].1;
      assert DiffersAt(d, named, j);
    }
    hide EqualityDeletes.DiffersVisibly;
    if DiffersFromAllFiles(files, named) {
      assert EqualityDeletes.DiffersVisibly(d, named);
    }
  }

  /** Looks the predicates up, folds, binds and combines. */
  method PlanFilter(lookups: seq<Option<ColumnPredicate>>, filter: Option<BoundPredicate>, schema: Schema)
    returns (r: Result<Option<BoundPredicate>>)
    ensures (exists i :: 0 <= i < |lookups| && lookups[i].None?) ==> r.Err?
    ensures (forall i :: 0 <= i < |lookups| ==> lookups[i].Some?) ==> r == Planned(filter, Values(lookups), schema)
  {
    var deletes := BuildEqualityDeletePredicate(lookups);
    if deletes.Err? {
      return Err(deletes.error);
    }
    if deletes.value.None? {
      return Ok(FinalPredicate(filter, None));
    }
    var bound := Bind(deletes.value.value, schema);
    r := if bound.Err? then Err(bound.error) else Ok(FinalPredicate(filter, Some(bound.value)));
  }

  // ----- the scan of one file -----

  /** Everything about the file and the scan but the deletes. `columns` are the leaf columns, `columnMap` the field map,
      and `table` the leaf cells of each row. */
  datatype Scan = Scan(
    options: Task,
    file: File,
    edges: seq<nat>,
    columns: seq<Leaf>,
    columnMap: map<int, nat>,
    table: seq<Leaves>,
    schema: Schema,
    filter: Option<BoundPredicate>
  ) {
    ghost predicate Valid() {
      && file.Valid() && Tiles(edges, file.bytes) && |table| == Base(file.sizes, |file.sizes|)
      && Injective(columnMap) && MapsInto(columnMap, |columns|)
      && forall r :: 0 <= r < |table| ==> |table[r]| == |columns|
    }

    /** The schema allows the row. */
    ghost predicate InSchema(r: nat)
      requires r < |table| && MapsInto(columnMap, |table[r]|)
    {
      Conforms(schema, FileRow(columnMap, table[r]))
    }

    /** The leaves of the filter keep truth on the row. */
    ghost predicate FilterKeeps(r: nat)
      requires r < |table| && MapsInto(columnMap, |table[r]|)
    {
      filter.Some? ==> NotFree(filter.value) && KeepsTruth(columnMap, filter.value, FileRow(columnMap, table[r]))
    }

    function Row(r: nat): int -> Option<Datum>
      requires r < |table| && MapsInto(columnMap, |table[r]|)
    {
      FileRow(columnMap, table[r])
    }

    /** The rows on which a predicate is true. */
    ghost function TrueRows(final: Option<BoundPredicate>): set<nat>
      requires MapsInto(columnMap, |columns|) && forall r :: 0 <= r < |table| ==> |table[r]| == |columns|
    {
      set r: nat | r < |table| && Satisfies(final, Row(r))
    }

    /** What the scan is to return of these delete files: rows that satisfy the filter and visibly differ from every
        equality delete row. */
    ghost predicate Wants(files: seq<seq<DeleteRow>>, r: nat)
      requires r < |table| && MapsInto(columnMap, |table[r]|)
    {
      Satisfies(filter, Row(r)) && DiffersFromAllFiles(files, Named(schema, Row(r)))
    }
  }

  /** Merge on read. However the file is split and whatever pruning is on, a row of a non-empty row group that the
      schema allows, and on which the predicate of the scan task is true, is read by some split if and only if it
      satisfies the scan's filter, visibly differs from every equality delete row, and is named by no positional
      delete. */
  lemma MergedScan(scan: Scan, preds: seq<ColumnPredicate>, files: seq<seq<DeleteRow>>, deleted: set<nat>, g: nat,
                   r: nat)
    requires scan.Valid() && CompiledFiles(preds, files) && TypedFiles(files, scan.schema)
    requires Planned(scan.filter, preds, scan.schema).Ok?
    requires SoundPruning(scan.file, scan.TrueRows(Planned(scan.filter, preds, scan.schema).value))
    requires SplitsIntact(scan.options, scan.file, scan.edges, deleted)
    requires InGroup(scan.file.sizes, g, r) && scan.file.bytes[g] > 0
    ensures r < |scan.table|
    ensures scan.InSchema(r) ==>
              ((exists k :: 0 <= k && k + 1 < |scan.edges| &&
                  Delivers(scan.options, scan.file, scan.edges, k, deleted,
                           scan.TrueRows(Planned(scan.filter, preds, scan.schema).value), r))
          <==> scan.Wants(files, r) && r !in deleted)
  {
    hide Base, Delivers, SoundPruning, Tiles, CompiledFiles, TypedFiles, Planned, Injective;
    hide SplitsIntact, Satisfies, DiffersFromAllFiles, Conforms;
    RowInFile(scan.file, g, r);
    var final := Planned(scan.filter, preds, scan.schema).value;
    if scan.InSchema(r) {
      PlannedMeans(scan.filter, preds, files, scan.schema, scan.Row(r));
      SplitsDeliver(scan.options, scan.file, scan.edges, deleted, scan.TrueRows(final), g, r);
    }
  }

  lemma RowInFile(file: File, g: nat, r: nat)
    requires InGroup(file.sizes, g, r)
    ensures r < Base(file.sizes, |file.sizes|)
  {
    BaseMonotone(file.sizes, g + 1, |file.sizes|);
  }

  /** One split: read, then filter. */
  method ReadSplit(task: Task, file: File, deletes: Option<DeleteVectors.DeleteVector>, c: Converter,
                   final: Option<BoundPredicate>, table: seq<Leaves>)
    returns (delivered: seq<nat>)
    requires file.Valid() && |table| == Base(file.sizes, |file.sizes|)
    requires deletes.Some? ==> deletes.value.Valid() && Ends(file.sizes, GroupList(task, file), deletes.value.inner)
    requires c.Valid() && forall r :: 0 <= r < |table| ==> Fits(c, table[r])
    requires final.Some? ==> Compile(c, final.value).Compiled?
    ensures forall r: nat :: r in delivered
                   <==> ReadsRow(task, file, DeletedBy(deletes), r) && r < |table| && Passes(c, final, table[r])
  {
    hide Passes, ReadsRow, Fits, Compile, Base;
    var rows := RowsRead(task, file, deletes);
    delivered := [];
    for i := 0 to |rows|
      invariant forall r: nat :: r in delivered <==> r in rows[..i] && r < |table| && Passes(c, final, table[r])
    {
      var r := rows[i];
      assert rows[..i + 1] == rows[..i] + [r];
      assert r in rows;
      ReadRowInFile(task, file, DeletedBy(deletes), r);
      if Passes(c, final, table[r]) {
        delivered := delivered + [r];
      }
    }
    assert rows[..|rows|] == rows;
  }

  lemma ReadRowInFile(task: Task, file: File, deleted: set<nat>, r: nat)
    requires file.Valid() && ReadsRow(task, file, deleted, r)
    ensures r < Base(file.sizes, |file.sizes|)
  {
    var g :| Reads(task, file, deleted, g, r);
    RowInFile(file, g, r);
  }

  ghost predicate DeliveredRow(delivered: seq<seq<nat>>, r: nat) {
    exists k :: 0 <= k < |delivered| && r in delivered[k]
  }

  /** Of the rows of non-empty groups, the splits together deliver none that a delete is about; and of those on which
      the leaves of the scan's own filter keep truth, exactly those that the scan wants and that are not deleted. */
  ghost predicate DeliversExactly(scan: Scan, delivered: seq<seq<nat>>, files: seq<seq<DeleteRow>>, deleted: set<nat>)
    requires scan.Valid()
  {
    forall g: nat, r: nat {:trigger InGroup(scan.file.sizes, g, r)} :: DeliversRow(scan, delivered, files, deleted, g, r)
  }

  ghost predicate DeliversRow(scan: Scan, delivered: seq<seq<nat>>, files: seq<seq<DeleteRow>>, deleted: set<nat>,
                              g: nat, r: nat)
    requires scan.Valid()
  {
    InGroup(scan.file.sizes, g, r) && scan.file.bytes[g] > 0 ==>
      && r < |scan.table|
      && (DeliveredRow(delivered, r) ==> r !in deleted)
      && (DeliveredRow(delivered, r) && scan.InSchema(r) ==> DiffersFromAllFiles(files, Named(scan.schema, scan.Row(r))))
      && (scan.InSchema(r) && scan.FilterKeeps(r) ==>
            (DeliveredRow(delivered, r) <==> scan.Wants(files, r) && r !in deleted))
  }

  /** `order` lists the field ids of a predicate once each, in the order the hash set happens to iterate. */
  ghost predicate Lists(order: BoundPredicate -> seq<int>, p: BoundPredicate) {
    && (forall i, j :: 0 <= i < j < |order(p)| ==> order(p)[i] != order(p)[j])
    && forall id :: id in order(p) <==> id in FieldIdsOf(p)
  }

  /** A filter can be built: every predicate is there, the deletes bind, and no referenced column is nested. */
  ghost predicate Plannable(scan: Scan, lookups: seq<Option<ColumnPredicate>>)
    requires MapsInto(scan.columnMap, |scan.columns|)
  {
    && (forall i :: 0 <= i < |lookups| ==> lookups[i].Some?)
    && Planned(scan.filter, Values(lookups), scan.schema).Ok?
    && var final := Planned(scan.filter, Values(lookups), scan.schema).value;
       final.Some? ==> OnRootColumns(final.value, scan.columns, scan.columnMap)
  }

  /** All splits of one file, with the delete vector that the shared filter holds for it. It fails exactly where no
      filter can be built. Otherwise, whatever the scan's own filter, no row is delivered that a positional delete names
      or an equality delete row does not visibly differ from; and a row on which that filter keeps truth is delivered by
      some split if and only if the scan wants it and no positional delete names it. */
  method ScanFile(scan: Scan, shared: DeleteFilter, dataFile: string, lookups: seq<Option<ColumnPredicate>>,
                  order: BoundPredicate -> seq<int>, ghost files: seq<seq<DeleteRow>>)
    returns (result: Result<seq<seq<nat>>>)
    requires scan.Valid() && shared.Valid() && forall p :: Lists(order, p)
    requires TypedFiles(files, scan.schema)
    requires (forall i :: 0 <= i < |lookups| ==> lookups[i].Some?) ==> CompiledFiles(Values(lookups), files)
    requires SplitsIntact(scan.options, scan.file, scan.edges, VectorOf(shared.State(), dataFile))
    requires Plannable(scan, lookups) ==>
               SoundPruning(scan.file, scan.TrueRows(Planned(scan.filter, Values(lookups), scan.schema).value))
    ensures result.Ok? <==> Plannable(scan, lookups)
    ensures result.Ok? ==> |result.value| == |scan.edges| - 1
    ensures result.Ok? ==> DeliversExactly(scan, result.value, files, VectorOf(shared.State(), dataFile))
  {
    var plan := PlanFilter(lookups, scan.filter, scan.schema);
    if plan.Err? {
      return Err(plan.error);
    }
    var final := plan.value;
    var c := Converter(scan.columnMap, scan.columns, []);
    if final.Some? {
      assert Lists(order, final.value);
      var compiled;
      c, compiled := GetRowFilter(final.value, scan.columns, scan.columnMap, order(final.value));
      if !compiled.Compiled? {
        return Err(DataInvalid);
      }
    }
    var delivered := DeliverSplits(scan, shared, dataFile, c, final, Values(lookups), files);
    result := Ok(delivered);
  }

  lemma RowsFit(scan: Scan, c: Converter, final: Option<BoundPredicate>)
    requires scan.Valid()
    requires if final.Some? then IsConverter(c, scan.columns, scan.columnMap, final.value)
             else c == Converter(scan.columnMap, scan.columns, [])
    ensures forall r :: 0 <= r < |scan.table| ==> Fits(c, scan.table[r])
  {
    hide Tiles, Injective, NotFree, Base;
    forall r | 0 <= r < |scan.table|
      ensures Fits(c, scan.table[r])
    {
      if final.Some? {
        ConverterFits(c, scan.columns, scan.columnMap, final.value, scan.table[r]);
      }
    }
  }

  /** What the compiled filter passes on one row. */
  lemma PassesRow(scan: Scan, c: Converter, preds: seq<ColumnPredicate>, files: seq<seq<DeleteRow>>, r: nat)
    requires scan.Valid() && r < |scan.table| && CompiledFiles(preds, files) && TypedFiles(files, scan.schema)
    requires Planned(scan.filter, preds, scan.schema).Ok? && c.columnMap == scan.columnMap && Fits(c, scan.table[r])
    requires var final := Planned(scan.filter, preds, scan.schema).value; final.Some? ==> Compile(c, final.value).Compiled?
    requires scan.InSchema(r)
    ensures Passes(c, Planned(scan.filter, preds, scan.schema).value, scan.table[r]) ==>
              DiffersFromAllFiles(files, Named(scan.schema, scan.Row(r)))
    ensures scan.FilterKeeps(r) ==>
              (Passes(c, Planned(scan.filter, preds, scan.schema).value, scan.table[r])
          <==> r in scan.TrueRows(Planned(scan.filter, preds, scan.schema).value))
  {
    hide Tiles, Injective, NotFree, Base, KeepsTruth, Conforms, Compile, Planned, Meaning, RowFilter.Run;
    hide CompiledFiles, TypedFiles, DiffersFromAllFiles;
    FilterPasses(c, scan.filter, preds, files, scan.schema, scan.table[r]);
    PlannedMeans(scan.filter, preds, files, scan.schema, scan.Row(r));
    if scan.FilterKeeps(r) && scan.filter.Some? {
      TruthKept(c, scan.filter.value, scan.table[r]);
    }
  }

  method DeliverSplits(scan: Scan, shared: DeleteFilter, dataFile: string, c: Converter, final: Option<BoundPredicate>,
                       ghost preds: seq<ColumnPredicate>, ghost files: seq<seq<DeleteRow>>)
    returns (delivered: seq<seq<nat>>)
    requires scan.Valid() && shared.Valid()
    requires CompiledFiles(preds, files) && TypedFiles(files, scan.schema)
    requires Planned(scan.filter, preds, scan.schema) == Ok(final)
    requires SoundPruning(scan.file, scan.TrueRows(final))
    requires SplitsIntact(scan.options, scan.file, scan.edges, VectorOf(shared.State(), dataFile))
    requires if final.Some? then IsConverter(c, scan.columns, scan.columnMap, final.value) && Compile(c, final.value).Compiled?
             else c == Converter(scan.columnMap, scan.columns, [])
    ensures |delivered| == |scan.edges| - 1
    ensures DeliversExactly(scan, delivered, files, VectorOf(shared.State(), dataFile))
  {
    hide Base, Passes, Compile, Fits, SoundPruning, CompiledFiles, TypedFiles, Planned, Delivers, Injective, DeliveredRow;
    hide DeleteVectors.ValidTreemap, DeleteVectors.PositionSet, Intact, NotFree, KeepsTruth, Conforms, Satisfies, Ends;
    RowsFit(scan, c, final);
    var deletes := shared.GetDeleteVector(dataFile);
    ghost var deleted := VectorOf(shared.State(), dataFile);
    assert DeletedBy(deletes) == deleted;
    delivered := [];
    for k := 0 to |scan.edges| - 1
      invariant |delivered| == k
      invariant deletes.Some? ==> deletes.value.Valid()
      invariant DeletedBy(deletes) == deleted
      invariant forall j :: 0 <= j < k ==> IsDelivered(scan, c, j, deleted, final, delivered[j])
    {
      var task := SplitTask(scan.options, scan.edges, k);
      if deletes.Some? {
        IntactEnds(task, scan.file, deletes.value.inner);
      }
      var rows := ReadSplit(task, scan.file, deletes, c, final, scan.table);
      delivered := delivered + [rows];
    }
    forall g: nat, r: nat
      ensures DeliversRow(scan, delivered, files, deleted, g, r)
    {
      if InGroup(scan.file.sizes, g, r) && scan.file.bytes[g] > 0 {
        RowDelivered(scan, c, preds, files, deleted, final, delivered, g, r);
      }
    }
  }

  /** The rows of split `k`: those read that the compiled filter passes. */
  ghost predicate IsDelivered(scan: Scan, c: Converter, k: nat, deleted: set<nat>, final: Option<BoundPredicate>,
                              rows: seq<nat>)
    requires scan.Valid() && k + 1 < |scan.edges| && (final.Some? ==> c.Valid() && Compile(c, final.value).Compiled?)
    requires forall r :: 0 <= r < |scan.table| ==> Fits(c, scan.table[r])
  {
    forall r: nat :: r in rows
      <==> ReadsRow(SplitTask(scan.options, scan.edges, k), scan.file, deleted, r)
           && r < |scan.table| && Passes(c, final, scan.table[r])
  }

  lemma RowDelivered(scan: Scan, c: Converter, preds: seq<ColumnPredicate>, files: seq<seq<DeleteRow>>, deleted: set<nat>,
                     final: Option<BoundPredicate>, delivered: seq<seq<nat>>, g: nat, r: nat)
    requires scan.Valid() && CompiledFiles(preds, files) && TypedFiles(files, scan.schema)
    requires Planned(scan.filter, preds, scan.schema) == Ok(final) && SoundPruning(scan.file, scan.TrueRows(final))
    requires SplitsIntact(scan.options, scan.file, scan.edges, deleted) && |delivered| == |scan.edges| - 1
    requires c.columnMap == scan.columnMap && forall r :: 0 <= r < |scan.table| ==> Fits(c, scan.table[r])
    requires final.Some? ==> c.Valid() && Compile(c, final.value).Compiled?
    requires forall k :: 0 <= k < |delivered| ==> IsDelivered(scan, c, k, deleted, final, delivered[k])
    requires InGroup(scan.file.sizes, g, r) && scan.file.bytes[g] > 0
    ensures DeliversRow(scan, delivered, files, deleted, g, r)
  {
    hide Base, Passes, Compile, Fits, CompiledFiles, TypedFiles, Planned, Injective, NotFree, KeepsTruth, Conforms;
    hide Satisfies, ReadsRow, SoundPruning, DiffersFromAllFiles, SplitsIntact;
    MergedScan(scan, preds, files, deleted, g, r);
    if scan.InSchema(r) {
      PassesRow(scan, c, preds, files, r);
    }
    if k :| 0 <= k < |delivered| && r in delivered[k] {
      assert IsDelivered(scan, c, k, deleted, final, delivered[k]);
      ReadUndeleted(scan, deleted, k, g, r);
    }
    if scan.InSchema(r) && scan.FilterKeeps(r) {
      AllDelivered(scan, c, deleted, final, delivered, r);
    }
  }

  /** Where the splits are read intact, no split reads a deleted row. */
  lemma ReadUndeleted(scan: Scan, deleted: set<nat>, k: nat, g: nat, r: nat)
    requires scan.Valid() && k + 1 < |scan.edges| && SplitsIntact(scan.options, scan.file, scan.edges, deleted)
    requires InGroup(scan.file.sizes, g, r) && ReadsRow(SplitTask(scan.options, scan.edges, k), scan.file, deleted, r)
    ensures r !in deleted
  {
    var task := SplitTask(scan.options, scan.edges, k);
    var h :| Reads(task, scan.file, deleted, h, r);
    AppliedMeans(task, scan.file, deleted, h, r);
  }

  lemma AllDelivered(scan: Scan, c: Converter, deleted: set<nat>, final: Option<BoundPredicate>, delivered: seq<seq<nat>>,
                     r: nat)
    requires scan.Valid() && |delivered| == |scan.edges| - 1 && r < |scan.table|
    requires final.Some? ==> c.Valid() && Compile(c, final.value).Compiled?
    requires forall r :: 0 <= r < |scan.table| ==> Fits(c, scan.table[r])
    requires Passes(c, final, scan.table[r]) <==> r in scan.TrueRows(final)
    requires forall j :: 0 <= j < |delivered| ==> IsDelivered(scan, c, j, deleted, final, delivered[j])
    ensures DeliveredRow(delivered, r)
       <==> exists k :: 0 <= k && k + 1 < |scan.edges| &&
              Delivers(scan.options, scan.file, scan.edges, k, deleted, scan.TrueRows(final), r)
  {
    hide Base, Injective, Passes, ReadsRow, Satisfies, Fits, Compile;
    if k :| 0 <= k && k + 1 < |scan.edges| &&
            Delivers(scan.options, scan.file, scan.edges, k, deleted, scan.TrueRows(final), r) {
      assert IsDelivered(scan, c, k, deleted, final, delivered[k]);
    }
    if DeliveredRow(delivered, r) {
      var k :| 0 <= k < |delivered| && r in delivered[k];
      assert IsDelivered(scan, c, k, deleted, final, delivered[k]);
      assert Delivers(scan.options, scan.file, scan.edges, k, deleted, scan.TrueRows(final), r);
    }
  }

  // ----- with the delete files that the loaders have read -----

  /** What the delete files on storage say: rows of positional delete files, and rows of equality delete files. */
  datatype Sources = Sources(positional: string -> seq<PosRow>, equality: string -> seq<DeleteRow>)

  /** The parsed contents that the loading protocol passes around are what the two parsers make of the sources. */
  ghost predicate ParsedFrom(loaded: LoadProtocol.Files, sources: Sources) {
    && (forall f :: ParsedPositional(loaded.positional(f), sources.positional(f)))
    && forall f :: EqualityDeletes.Compiled(loaded.equality(f), sources.equality(f))
  }

  ghost predicate ParsedPositional(contents: map<string, set<nat>>, rows: seq<PosRow>) {
    && (forall d :: d in contents ==> forall r: nat :: r in contents[d] <==> Names(rows, d, r))
    && forall d, r: nat :: Names(rows, d, r) ==> d in contents
  }

  /** The outcome of the positional parser, vector by vector, is such contents. */
  lemma GroupsAreContents(result: map<string, seq<DeleteVectors.Bucket>>, rows: seq<PosRow>)
    requires Groups(result, rows)
    ensures ParsedPositional(map d | d in result :: DeleteVectors.PositionSet(result[d]), rows)
  {
    forall d | d in result
      ensures forall r: nat :: r in DeleteVectors.PositionSet(result[d]) <==> Names(rows, d, r)
    {
      assert HoldsNamed(result[d], rows, d);
    }
  }

  /** A delete file whose rows have been merged by now names the row. */
  ghost predicate NamedByMerged(loaded: LoadProtocol.Files, sources: Sources, w: LoadProtocol.World,
                                dataFile: string, r: nat) {
    exists f :: LoadProtocol.Merged(loaded, w, f, dataFile) && Names(sources.positional(f), dataFile, r)
  }

  /** Some process is done with the positional delete file, having loaded it or waited for it. */
  ghost predicate Done(w: LoadProtocol.World, f: string) {
    exists k :: 0 <= k < |w.processes| && w.processes[k].file == f && (w.processes[k].PosDone? || w.processes[k].PosOwnerDone?)
  }

  /** Some reader has got this predicate for the equality delete file. */
  ghost predicate Got(w: LoadProtocol.World, f: string, p: ColumnPredicate) {
    exists k :: 0 <= k < |w.processes| && w.processes[k] == LoadProtocol.ReadGot(f, p)
  }

  lemma VectorNames(loaded: LoadProtocol.Files, sources: Sources, run: seq<LoadProtocol.World>, j: nat,
                    dataFile: string, r: nat)
    requires LoadProtocol.Run(loaded, run) && j < |run| && ParsedFrom(loaded, sources)
    ensures r in VectorOf(run[j].filter, dataFile) <==> NamedByMerged(loaded, sources, run[j], dataFile, r)
  {
    hide LoadProtocol.Run;
    LoadProtocol.VectorIsUnion(loaded, run, j, dataFile, r);
    forall f
      ensures LoadProtocol.Contributes(loaded, run[j], f, dataFile, r)
         <==> LoadProtocol.Merged(loaded, run[j], f, dataFile) && Names(sources.positional(f), dataFile, r)
    {
      assert ParsedPositional(loaded.positional(f), sources.positional(f));
    }
  }

  lemma DoneNames(loaded: LoadProtocol.Files, sources: Sources, run: seq<LoadProtocol.World>, j: nat,
                  dataFile: string, f: string)
    requires LoadProtocol.Run(loaded, run) && j < |run| && ParsedFrom(loaded, sources) && Done(run[j], f)
    ensures forall r: nat :: Names(sources.positional(f), dataFile, r) ==> r in VectorOf(run[j].filter, dataFile)
  {
    hide LoadProtocol.Run;
    var k :| 0 <= k < |run[j].processes| && run[j].processes[k].file == f
      && (run[j].processes[k].PosDone? || run[j].processes[k].PosOwnerDone?);
    assert ParsedPositional(loaded.positional(f), sources.positional(f));
    if dataFile in loaded.positional(f) {
      LoadProtocol.FinishedTaskSeesDeletes(loaded, run, j, j, k, dataFile);
    }
  }

  lemma GotCompiled(loaded: LoadProtocol.Files, sources: Sources, run: seq<LoadProtocol.World>, j: nat,
                    eqFiles: seq<string>,
                    preds: seq<ColumnPredicate>)
    requires LoadProtocol.Run(loaded, run) && j < |run| && ParsedFrom(loaded, sources) && |preds| == |eqFiles|
    requires forall i :: 0 <= i < |eqFiles| ==> Got(run[j], eqFiles[i], preds[i])
    ensures CompiledFiles(preds, EqualityRows(sources, eqFiles))
  {
    hide LoadProtocol.Run, EqualityDeletes.Compiled;
    forall i | 0 <= i < |eqFiles|
      ensures EqualityDeletes.Compiled(preds[i], EqualityRows(sources, eqFiles)[i])
    {
      assert Got(run[j], eqFiles[i], preds[i]);
      var k :| 0 <= k < |run[j].processes| && run[j].processes[k] == LoadProtocol.ReadGot(eqFiles[i], preds[i]);
      LoadProtocol.ReadersAgree(loaded, run, j, k);
    }
  }

  ghost function EqualityRows(sources: Sources, eqFiles: seq<string>): seq<seq<DeleteRow>> {
    seq(|eqFiles|, i requires 0 <= i < |eqFiles| => sources.equality(eqFiles[i]))
  }

  /** The scan of a file at a moment of any run of the loading protocol when its positional delete files are done and
      its equality delete predicates have been read. It fails exactly where no filter can be built. Where the splits are
      read intact, none of the rows that a positional delete file merged by then names is delivered, and of the rows on
      which the scan's own filter keeps truth, exactly the others that the scan wants. The scan's own positional delete
      files are all among those merged. */
  method ScanLoadedFile(scan: Scan, shared: DeleteFilter, dataFile: string, preds: seq<ColumnPredicate>,
                        order: BoundPredicate -> seq<int>, ghost loaded: LoadProtocol.Files, ghost sources: Sources,
                        ghost run: seq<LoadProtocol.World>, ghost j: nat,
                        ghost posFiles: seq<string>, ghost eqFiles: seq<string>)
    returns (result: Result<seq<seq<nat>>>)
    requires scan.Valid() && shared.Valid() && forall p :: Lists(order, p)
    requires LoadProtocol.Run(loaded, run) && j < |run| && shared.State() == run[j].filter && ParsedFrom(loaded, sources)
    requires forall f :: f in posFiles ==> Done(run[j], f)
    requires |preds| == |eqFiles| && forall i :: 0 <= i < |eqFiles| ==> Got(run[j], eqFiles[i], preds[i])
    requires TypedFiles(EqualityRows(sources, eqFiles), scan.schema)
    requires SplitsIntact(scan.options, scan.file, scan.edges, VectorOf(run[j].filter, dataFile))
    requires Planned(scan.filter, preds, scan.schema).Ok? ==>
               SoundPruning(scan.file, scan.TrueRows(Planned(scan.filter, preds, scan.schema).value))
    ensures result.Ok? <==> Plannable(scan, seq(|preds|, i requires 0 <= i < |preds| => Some(preds[i])))
    ensures result.Ok? ==> |result.value| == |scan.edges| - 1
    ensures result.Ok? ==> DeliversExactly(scan, result.value, EqualityRows(sources, eqFiles), VectorOf(run[j].filter, dataFile))
    ensures forall r: nat :: r in VectorOf(run[j].filter, dataFile) <==> NamedByMerged(loaded, sources, run[j], dataFile, r)
    ensures forall f, r: nat :: f in posFiles && Names(sources.positional(f), dataFile, r) ==> r in VectorOf(run[j].filter, dataFile)
  {
    hide LoadProtocol.Run, ParsedFrom, NamedByMerged, TypedFiles, CompiledFiles, SplitsIntact, SoundPruning;
    hide Planned, Done, Got;
    hide EqualityRows, DeliversRow, Tiles, Base, Lists, Injective, NotFree;
    ghost var files := EqualityRows(sources, eqFiles);
    GotCompiled(loaded, sources, run, j, eqFiles, preds);
    var lookups := seq(|preds|, i requires 0 <= i < |preds| => Some(preds[i]));
    assert Values(lookups) == preds;
    result := ScanFile(scan, shared, dataFile, lookups, order, files);
    forall r: nat
      ensures r in VectorOf(run[j].filter, dataFile) <==> NamedByMerged(loaded, sources, run[j], dataFile, r)
    {
      VectorNames(loaded, sources, run, j, dataFile, r);
    }
    forall f | f in posFiles
      ensures forall r: nat :: Names(sources.positional(f), dataFile, r) ==> r in VectorOf(run[j].filter, dataFile)
    {
      DoneNames(loaded, sources, run, j, dataFile, f);
    }
  }

  /** Splits of a file of fewer than 2^32 rows are read intact, whatever has been deleted. */
  lemma SmallFileScansIntact(scan: Scan, deleted: set<nat>)
    requires scan.Valid() && Base(scan.file.sizes, |scan.file.sizes|) < DeleteVectors.TWO_32
    ensures SplitsIntact(scan.options, scan.file, scan.edges, deleted)
  {
    SmallSplitsIntact(scan.options, scan.file, scan.edges, deleted);
  }
}
