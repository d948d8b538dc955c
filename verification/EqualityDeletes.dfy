/** Equality delete files compiled to a predicate, and which rows that predicate keeps. */
module EqualityDeletes {
  import opened Common
  import opened Predicates
  import opened DeleteColumns

  type ColumnPredicate = Predicate<string>

  /** One record batch: its fields with their arrays. */
  type Batch = seq<Column>

  /** One row to delete: the equality columns with their values, None for null. */
  type DeleteRow = seq<(string, Option<Datum>)>

  // ----- what a stream of batches asks to delete -----

  /** Row `r` of the collected columns; a column that has run out contributes nothing. */
  function RowAt(columns: seq<(string, seq<Cell>)>, r: nat): Option<DeleteRow> {
    if columns == [] then Some([])
    else
      var rest := RowAt(columns[1..], r);
      if r >= |columns[0].1| then rest
      else
        match columns[0].1[r]
        case Unconvertible => None
        case Missing => Prepend([(columns[0].0, None)], rest)
        case Present(d) => Prepend([(columns[0].0, Some(d))], rest)
  }

  datatype Parsed = Failed | NoColumns | Rows(rows: seq<DeleteRow>)

  /** Rows `r` and on of one batch, as many as its first column has. */
  function BatchRows(columns: seq<(string, seq<Cell>)>, r: nat): Parsed
    requires columns != []
    decreases |columns[0].1| - r
  {
    if r >= |columns[0].1| then Rows([])
    else
      var row := RowAt(columns, r);
      if row.None? then Failed
      else
        var rest := BatchRows(columns, r + 1);
        if rest.Rows? then Rows([row.value] + rest.rows) else rest
  }

  /** A stream of batches, with the ids of the equality columns. */
  function StreamRows(stream: seq<Result<Batch>>, ids: set<int>): Parsed {
    if stream == [] then Rows([])
    else if stream[0].Err? then Failed
    else if stream[0].value == [] then NoColumns
    else
      var columns := EqualityColumns(stream[0].value, ids);
      if columns.Err? then Failed
      else if columns.value == [] then StreamRows(stream[1..], ids)
      else
        var here := BatchRows(columns.value, 0);
        if here.Rows? then After(here.rows, StreamRows(stream[1..], ids)) else here
  }

  /** Prepends rows already read. */
  function After(rows: seq<DeleteRow>, rest: Parsed): Parsed {
    if rest.Rows? then Rows(rows + rest.rows) else rest
  }

  // ----- which rows those are -----

  /** There is no row exactly if a column that reaches it holds a cell that does not convert. Where all columns reach
      it, the row has one cell for each column, in order. */
  lemma {:induction false} RowAtCells(columns: seq<(string, seq<Cell>)>, r: nat)
    ensures RowAt(columns, r).None?
       <==> exists c :: 0 <= c < |columns| && r < |columns[c].1| && columns[c].1[r].Unconvertible?
    ensures RowAt(columns, r).Some? && (forall c :: 0 <= c < |columns| ==> r < |columns[c].1|) ==>
              && |RowAt(columns, r).value| == |columns|
              && forall c :: 0 <= c < |columns| ==> IsCell(RowAt(columns, r).value[c], columns[c], r)
  {
    if columns != [] {
      var rest := columns[1..];
      RowAtCells(rest, r);
      assert forall c :: 0 <= c < |rest| ==> rest[c] == columns[c + 1];
      if c :| 0 <= c < |rest| && r < |rest[c].1| && rest[c].1[r].Unconvertible? {
        assert columns[c + 1] == rest[c];
      }
    }
  }

  /** The name and the value of a column at row `r`. */
  ghost predicate IsCell(cell: (string, Option<Datum>), column: (string, seq<Cell>), r: nat)
    requires r < |column.1|
  {
    cell.0 == column.0 && column.1[r] == if cell.1.Some? then Present(cell.1.value) else Missing
  }

  /** A column that does not reach the row has no part in it. */
  lemma {:induction false} ShortColumn(front: seq<(string, seq<Cell>)>, short: (string, seq<Cell>),
                                       back: seq<(string, seq<Cell>)>, r: nat)
    requires r >= |short.1|
    ensures RowAt(front + [short] + back, r) == RowAt(front + back, r)
  {
    var all := front + [short] + back;
    if front == [] {
      assert all[1..] == back && front + back == back;
    } else {
      ShortColumn(front[1..], short, back, r);
      assert all[0] == front[0] && all[1..] == front[1..] + [short] + back;
      assert (front + back)[0] == front[0] && (front + back)[1..] == front[1..] + back;
    }
  }

  /** As many rows as the first column has cells, and each of them is there. */
  ghost predicate RowsOf(columns: seq<(string, seq<Cell>)>, rows: seq<DeleteRow>)
    requires columns != []
  {
    |rows| == |columns[0].1| && forall r :: 0 <= r < |rows| ==> RowAt(columns, r) == Some(rows[r])
  }

  lemma {:induction false} RowsFrom(columns: seq<(string, seq<Cell>)>, r: nat)
    requires columns != [] && r <= |columns[0].1|
    ensures BatchRows(columns, r).Rows? <==> forall k :: r <= k < |columns[0].1| ==> RowAt(columns, k).Some?
    ensures BatchRows(columns, r).Rows? ==> |BatchRows(columns, r).rows| == |columns[0].1| - r
    ensures BatchRows(columns, r).Rows? ==>
              forall k :: r <= k < |columns[0].1| ==> RowAt(columns, k) == Some(BatchRows(columns, r).rows[k - r])
    ensures !BatchRows(columns, r).NoColumns?
    decreases |columns[0].1| - r
  {
    if r < |columns[0].1| {
      RowsFrom(columns, r + 1);
      var parsed, rest := BatchRows(columns, r), BatchRows(columns, r + 1);
      if parsed.Rows? {
        forall k | r <= k < |columns[0].1|
          ensures RowAt(columns, k) == Some(parsed.rows[k - r])
        {
          assert k > r ==> parsed.rows[k - r] == rest.rows[k - (r + 1)];
        }
      } else if RowAt(columns, r).Some? {
        var k :| r + 1 <= k < |columns[0].1| && RowAt(columns, k).None?;
      } else {
        assert RowAt(columns, r).None?;
      }
    }
  }

  /** The batch can be read, has columns, and every row of its equality columns converts. */
  ghost predicate Good(batch: Result<Batch>, ids: set<int>) {
    && batch.Ok? && batch.value != [] && EqualityColumns(batch.value, ids).Ok?
    && var columns := EqualityColumns(batch.value, ids).value;
       columns != [] ==> forall r :: 0 <= r < |columns[0].1| ==> RowAt(columns, r).Some?
  }

  /** These are the delete rows of the batch: none without equality columns. */
  ghost predicate BatchHolds(batch: Result<Batch>, ids: set<int>, rows: seq<DeleteRow>) {
    && batch.Ok? && EqualityColumns(batch.value, ids).Ok?
    && var columns := EqualityColumns(batch.value, ids).value;
       if columns == [] then rows == [] else RowsOf(columns, rows)
  }

  lemma BatchExact(batch: Result<Batch>, ids: set<int>, columns: seq<(string, seq<Cell>)>)
    requires batch.Ok? && batch.value != [] && EqualityColumns(batch.value, ids) == Ok(columns) && columns != []
    ensures !BatchRows(columns, 0).NoColumns?
    ensures BatchRows(columns, 0).Rows? <==> Good(batch, ids)
    ensures BatchRows(columns, 0).Rows? ==> BatchHolds(batch, ids, BatchRows(columns, 0).rows)
  {
    RowsFrom(columns, 0);
    hide RowAt, BatchRows, EqualityColumns;
    var parsed := BatchRows(columns, 0);
    if parsed.Rows? {
      forall r | 0 <= r < |parsed.rows|
        ensures RowAt(columns, r) == Some(parsed.rows[r])
      {
        assert RowAt(columns, r) == Some(parsed.rows[r - 0]);
      }
    }
  }

  /** Batch `i` is the first that is not good: it has no columns at all, or it is a failure. */
  ghost predicate StopsAt(stream: seq<Result<Batch>>, ids: set<int>, i: nat) {
    i < |stream| && stream[i] == Ok([]) && forall j :: 0 <= j < i ==> Good(stream[j], ids)
  }

  ghost predicate FailsAt(stream: seq<Result<Batch>>, ids: set<int>, i: nat) {
    && i < |stream| && !Good(stream[i], ids) && stream[i] != Ok([])
    && forall j :: 0 <= j < i ==> Good(stream[j], ids)
  }

  /** `rows` are those of all batches in stream order: those of batch `i` stand from `starts[i]` to `starts[i + 1]`. */
  ghost predicate LaidOut(stream: seq<Result<Batch>>, ids: set<int>, rows: seq<DeleteRow>, starts: seq<nat>) {
    && |starts| == |stream| + 1 && starts[0] == 0 && starts[|stream|] == |rows|
    && forall i :: 0 <= i < |stream| ==> LaidOutAt(stream, ids, rows, starts, i)
  }

  ghost predicate LaidOutAt(stream: seq<Result<Batch>>, ids: set<int>, rows: seq<DeleteRow>, starts: seq<nat>, i: nat)
    requires |starts| == |stream| + 1 && i < |stream|
  {
    starts[i] <= starts[i + 1] <= |rows| && BatchHolds(stream[i], ids, rows[starts[i]..starts[i + 1]])
  }

  lemma LayOutFirst(stream: seq<Result<Batch>>, ids: set<int>, here: seq<DeleteRow>, rest: seq<DeleteRow>, starts: seq<nat>)
    returns (all: seq<nat>)
    requires stream != [] && BatchHolds(stream[0], ids, here) && LaidOut(stream[1..], ids, rest, starts)
    ensures LaidOut(stream, ids, here + rest, all)
  {
    hide BatchHolds;
    var rows := here + rest;
    all := [0] + seq(|starts|, i requires 0 <= i < |starts| => |here| + starts[i]);
    forall i | 0 <= i < |stream|
      ensures LaidOutAt(stream, ids, rows, all, i)
    {
      if i == 0 {
        assert rows[..|here|] == here;
      } else {
        assert LaidOutAt(stream[1..], ids, rest, starts, i - 1);
        assert rows[all[i]..all[i + 1]] == rest[starts[i - 1]..starts[i]];
      }
    }
  }

  /** There are rows exactly if every batch is good, and they are laid out in stream order; otherwise the first batch
      that is not good decides. */
  lemma {:induction false} StreamExact(stream: seq<Result<Batch>>, ids: set<int>) returns (starts: seq<nat>)
    ensures StreamRows(stream, ids).Rows? <==> forall i :: 0 <= i < |stream| ==> Good(stream[i], ids)
    ensures StreamRows(stream, ids).Rows? ==> LaidOut(stream, ids, StreamRows(stream, ids).rows, starts)
    ensures StreamRows(stream, ids).NoColumns? <==> exists i :: StopsAt(stream, ids, i)
    ensures StreamRows(stream, ids).Failed? <==> exists i :: FailsAt(stream, ids, i)
  {
    if stream == [] {
      starts := [0];
      return;
    }
    starts := [];
    var tail := stream[1..];
    var after := StreamExact(tail, ids);
    if Good(stream[0], ids) {
      Later(stream, ids);
      var columns := EqualityColumns(stream[0].value, ids).value;
      var here := [];
      if columns != [] {
        BatchExact(stream[0], ids, columns);
        here := BatchRows(columns, 0).rows;
      }
      if StreamRows(tail, ids).Rows? {
        starts := LayOutFirst(stream, ids, here, StreamRows(tail, ids).rows, after);
        assert here == [] ==> here + StreamRows(tail, ids).rows == StreamRows(tail, ids).rows;
      }
    } else {
      FirstDecides(stream, ids);
      if stream[0].Ok? && stream[0].value != [] && EqualityColumns(stream[0].value, ids).Ok? {
        BatchExact(stream[0], ids, EqualityColumns(stream[0].value, ids).value);
      }
    }
    hide BatchRows, EqualityColumns, LaidOut, StopsAt, FailsAt;
  }

  /** Where the first batch is good, what comes first is decided by the others. */
  lemma Later(stream: seq<Result<Batch>>, ids: set<int>)
    requires stream != [] && Good(stream[0], ids)
    ensures (exists i :: StopsAt(stream, ids, i)) <==> exists i :: StopsAt(stream[1..], ids, i)
    ensures (exists i :: FailsAt(stream, ids, i)) <==> exists i :: FailsAt(stream[1..], ids, i)
    ensures (forall i :: 0 <= i < |stream| ==> Good(stream[i], ids))
       <==> forall i :: 0 <= i < |stream| - 1 ==> Good(stream[1..][i], ids)
  {
    assert !Good(Ok([]), ids);
    hide Good;
    GoodBefore(stream, ids, |stream| - 1);
    if i: nat :| StopsAt(stream, ids, i) {
      GoodBefore(stream, ids, i - 1);
      assert StopsAt(stream[1..], ids, i - 1);
    }
    if i: nat :| FailsAt(stream, ids, i) {
      GoodBefore(stream, ids, i - 1);
      assert FailsAt(stream[1..], ids, i - 1);
    }
    if i: nat :| StopsAt(stream[1..], ids, i) {
      GoodBefore(stream, ids, i);
      assert StopsAt(stream, ids, i + 1);
    }
    if i: nat :| FailsAt(stream[1..], ids, i) {
      GoodBefore(stream, ids, i);
      assert FailsAt(stream, ids, i + 1);
    }
  }

  lemma FirstDecides(stream: seq<Result<Batch>>, ids: set<int>)
    requires stream != [] && !Good(stream[0], ids)
    ensures (exists i :: StopsAt(stream, ids, i)) <==> stream[0] == Ok([])
    ensures (exists i :: FailsAt(stream, ids, i)) <==> stream[0] != Ok([])
  {
    hide Good;
    assert StopsAt(stream, ids, 0) || FailsAt(stream, ids, 0);
    assert forall i :: StopsAt(stream, ids, i) || FailsAt(stream, ids, i) ==> i == 0;
  }

  lemma GoodBefore(stream: seq<Result<Batch>>, ids: set<int>, n: nat)
    requires stream != []
    ensures n < |stream| ==>
              ((forall j :: 0 <= j < n + 1 ==> Good(stream[j], ids))
          <==> Good(stream[0], ids) && forall j :: 0 <= j < n ==> Good(stream[1..][j], ids))
  {
    hide Good;
    if n < |stream| {
      assert forall j :: 0 <= j < n ==> stream[1..][j] == stream[j + 1];
      if Good(stream[0], ids) && forall j :: 0 <= j < n ==> Good(stream[1..][j], ids) {
        forall j | 0 <= j < n + 1
          ensures Good(stream[j], ids)
        {
          assert j > 0 ==> stream[j] == stream[1..][j - 1];
        }
      }
    }
  }

  // ----- one row predicate -----

  function CellPredicate(cell: (string, Option<Datum>)): ColumnPredicate {
    if cell.1.Some? then Binary(Eq, cell.0, cell.1.value) else Unary(IsNull, cell.0)
  }

  /** The row predicate before negation, folded from the left. */
  function MatchPredicate(row: DeleteRow): ColumnPredicate {
    if row == [] then AlwaysTrue
    else MkAnd(MatchPredicate(row[..|row| - 1]), CellPredicate(row[|row| - 1]))
  }

  function RowPredicate(row: DeleteRow): ColumnPredicate {
    RewriteNot(Not(MatchPredicate(row)))
  }

  function RowPredicates(rows: seq<DeleteRow>): seq<ColumnPredicate> {
    seq(|rows|, i requires 0 <= i < |rows| => RowPredicate(rows[i]))
  }

  /** A conjunction that is neither constant: what simplification cannot remove. */
  ghost predicate MatchShape(p: ColumnPredicate) {
    match p
    case And(l, r) => MatchShape(l) && MatchShape(r)
    case Unary(_, _) => true
    case Binary(_, _, _) => true
    case _ => false
  }

  lemma {:induction false} MatchPredicateShape(row: DeleteRow)
    ensures if row == [] then MatchPredicate(row) == AlwaysTrue else MatchShape(MatchPredicate(row))
  {
    if row != [] {
      MatchPredicateShape(row[..|row| - 1]);
    }
  }

  lemma {:induction false} MatchShapeFixed(p: ColumnPredicate)
    requires MatchShape(p)
    ensures RewriteNot(p) == p
  {
    match p
    case And(l, r) =>
      MatchShapeFixed(l);
      MatchShapeFixed(r);
    case _ =>
  }

  /** A delete row with at least one cell compiles to a single conjunct, never to a constant. */
  lemma RowPredicateIsOneConjunct(row: DeleteRow)
    requires row != []
    ensures Conjuncts(RowPredicate(row)) == [RowPredicate(row)] && ConjHeight(RowPredicate(row)) == 0
    ensures !RowPredicate(row).AlwaysFalse? && !RowPredicate(row).AlwaysTrue?
  {
    MatchPredicateShape(row);
    MatchShapeFixed(MatchPredicate(row));
  }

  // ----- the balanced conjunction -----

  /** How deep conjunctions nest. */
  function ConjHeight(p: ColumnPredicate): nat {
    match p
    case And(l, r) => 1 + Max(ConjHeight(l), ConjHeight(r))
    case _ => 0
  }

  /** Conjunctions all along the way: to the left where `path` says true. */
  ghost predicate AndsAlong(p: ColumnPredicate, path: seq<bool>)
    decreases |path|
  {
    path == [] || (p.And? && AndsAlong(if path[0] then p.left else p.right, path[1..]))
  }

  /** The height is the length of the longest way down through conjunctions. */
  lemma {:induction false} HeightMeans(p: ColumnPredicate, n: nat)
    ensures (exists path :: |path| == n && AndsAlong(p, path)) <==> n <= ConjHeight(p)
  {
    if n == 0 {
      assert AndsAlong(p, []);
    } else if p.And? {
      HeightMeans(p.left, n - 1);
      HeightMeans(p.right, n - 1);
      if path :| |path| == n && AndsAlong(p, path) {
        assert |path[1..]| == n - 1 && AndsAlong(if path[0] then p.left else p.right, path[1..]);
      }
      if path: seq<bool> :| |path| == n - 1 && AndsAlong(p.left, path) {
        assert ([true] + path)[1..] == path && AndsAlong(p, [true] + path);
      }
      if path: seq<bool> :| |path| == n - 1 && AndsAlong(p.right, path) {
        assert ([false] + path)[1..] == path && AndsAlong(p, [false] + path);
      }
    }
  }

  function CeilLog2(n: nat): nat {
    if n <= 1 then 0 else 1 + CeilLog2((n + 1) / 2)
  }

  function Pow2(k: nat): nat {
    if k == 0 then 1 else 2 * Pow2(k - 1)
  }

  /** `CeilLog2(n)` is the least k with n <= 2^k. */
  lemma {:induction false} CeilLog2Means(n: nat, k: nat)
    requires n >= 1
    ensures n <= Pow2(k) <==> CeilLog2(n) <= k
  {
    if n > 1 {
      if k > 0 {
        CeilLog2Means((n + 1) / 2, k - 1);
      }
    } else {
      PowPositive(k);
    }
  }

  lemma {:induction false} PowPositive(k: nat)
    ensures Pow2(k) >= 1
  {
    if k > 0 {
      PowPositive(k - 1);
    }
  }

  function Flatten(ps: seq<ColumnPredicate>): seq<ColumnPredicate> {
    if ps == [] then [] else Conjuncts(ps[0]) + Flatten(ps[1..])
  }

  lemma {:induction false} FlattenConcat(ps: seq<ColumnPredicate>, qs: seq<ColumnPredicate>)
    ensures Flatten(ps + qs) == Flatten(ps) + Flatten(qs)
  {
    hide Conjuncts;
    if ps == [] {
      assert ps + qs == qs;
    } else {
      var head, tail := Conjuncts(ps[0]), Flatten(ps[1..]);
      FlattenConcat(ps[1..], qs);
      assert (ps + qs)[0] == ps[0] && (ps + qs)[1..] == ps[1..] + qs;
      ConcatAssociative(head, tail, Flatten(qs));
    }
  }

  /** Trees of one level: no constants, and conjunctions nested at most `h` deep. */
  ghost predicate Level(ps: seq<ColumnPredicate>, h: nat) {
    forall i :: 0 <= i < |ps| ==> !ps[i].AlwaysFalse? && !ps[i].AlwaysTrue? && ConjHeight(ps[i]) <= h
  }

  /** Two neighbours become one tree, a last odd one is carried over. */
  method NextLevel(ps: seq<ColumnPredicate>, ghost h: nat) returns (next: seq<ColumnPredicate>)
    requires Level(ps, h)
    ensures |next| == (|ps| + 1) / 2
    ensures Level(next, h + 1)
    ensures Flatten(next) == Flatten(ps)
  {
    next := [];
    var i := 0;
    while i < |ps|
      invariant i <= |ps|
      invariant |next| == (i + 1) / 2 && (i < |ps| ==> i % 2 == 0)
      invariant Level(next, h + 1)
      invariant Flatten(next) == Flatten(ps[..i])
      decreases |ps| - i
    {
      ghost var before := ps[..i];
      var p1 := ps[i];
      i := i + 1;
      if i < |ps| {
        var p2 := ps[i];
        i := i + 1;
        PushPair(next, before, p1, p2);
        assert ps[..i] == before + [p1, p2];
        next := next + [MkAnd(p1, p2)];
      } else {
        FlattenConcat(next, [p1]);
        FlattenConcat(before, [p1]);
        assert ps[..i] == before + [p1];
        next := next + [p1];
      }
    }
    assert ps[..|ps|] == ps;
  }

  lemma PushPair(next: seq<ColumnPredicate>, before: seq<ColumnPredicate>, p1: ColumnPredicate, p2: ColumnPredicate)
    requires Flatten(next) == Flatten(before)
    requires !p1.AlwaysFalse? && !p1.AlwaysTrue? && !p2.AlwaysFalse? && !p2.AlwaysTrue?
    ensures Flatten(next + [MkAnd(p1, p2)]) == Flatten(before + [p1, p2])
  {
    FlattenConcat(next, [MkAnd(p1, p2)]);
    FlattenConcat(before, [p1, p2]);
    assert [p1, p2][1..] == [p2] && [p2][1..] == [];
    assert Flatten([p1, p2]) == Conjuncts(p1) + (Conjuncts(p2) + []);
    assert Flatten([MkAnd(p1, p2)]) == Conjuncts(MkAnd(p1, p2)) + [];
  }

  /** One tree remains. It keeps the conjuncts in their order, and nests them at most ceil(log2 n) deep. */
  method Balance(rowPredicates: seq<ColumnPredicate>) returns (p: ColumnPredicate)
    requires Level(rowPredicates, 0)
    ensures rowPredicates == [] <==> p == AlwaysTrue
    ensures Conjuncts(p) == Flatten(rowPredicates)
    ensures ConjHeight(p) <= CeilLog2(|rowPredicates|)
  {
    var level := rowPredicates;
    ghost var h := 0;
    while |level| > 1
      invariant level == [] <==> rowPredicates == []
      invariant Level(level, h)
      invariant h + CeilLog2(|level|) == CeilLog2(|rowPredicates|)
      invariant Flatten(level) == Flatten(rowPredicates)
      decreases |level|
    {
      level := NextLevel(level, h);
      h := h + 1;
    }
    if level == [] {
      return AlwaysTrue;
    }
    assert level[1..] == [] && Flatten(level) == Conjuncts(level[0]) + [];
    p := level[0];
  }

  /** The plain left fold the balanced tree stands in for. */
  function LeftFold(ps: seq<ColumnPredicate>): ColumnPredicate {
    if ps == [] then AlwaysTrue else MkAnd(LeftFold(ps[..|ps| - 1]), ps[|ps| - 1])
  }

  lemma {:induction false} LeftFoldConjuncts(ps: seq<ColumnPredicate>, h: nat)
    requires Level(ps, h)
    ensures Conjuncts(LeftFold(ps)) == Flatten(ps)
    ensures !LeftFold(ps).AlwaysFalse? && (LeftFold(ps).AlwaysTrue? <==> ps == [])
  {
    if ps != [] {
      var front, last := ps[..|ps| - 1], ps[|ps| - 1];
      LeftFoldConjuncts(front, h);
      assert ps == front + [last];
      FlattenConcat(front, [last]);
    }
  }

  /** The balanced tree means what the left fold means, on every row. */
  lemma BalanceMeansLeftFold(ps: seq<ColumnPredicate>, p: ColumnPredicate, row: string -> Option<Datum>, reading: Reading)
    requires Level(ps, 0) && Conjuncts(p) == Flatten(ps)
    ensures Meaning(p, row, reading) == Meaning(LeftFold(ps), row, reading)
  {
    LeftFoldConjuncts(ps, 0);
    MeaningOfConjuncts(p, row, reading);
    MeaningOfConjuncts(LeftFold(ps), row, reading);
  }

  // ----- the parser -----

  /** The fold over the columns of one row, cell by cell. */
  method ReadRow(columns: seq<(string, seq<Cell>)>, r: nat) returns (p: Result<ColumnPredicate>)
    ensures p.Ok? <==> RowAt(columns, r).Some?
    ensures p.Ok? ==> p.value == MatchPredicate(RowAt(columns, r).value)
    ensures p.Err? ==> p.error == Unexpected
  {
    var rowPredicate: ColumnPredicate := AlwaysTrue;
    ghost var cells: DeleteRow := [];
    assert columns[0..] == columns;
    PrependUnit(cells, RowAt(columns, r));
    for c := 0 to |columns|
      invariant RowAt(columns, r) == Prepend(cells, RowAt(columns[c..], r))
      invariant rowPredicate == MatchPredicate(cells)
    {
      var (name, column) := columns[c];
      assert columns[c..][1..] == columns[c + 1..];
      if r < |column| {
        var cell;
        match column[r] {
          case Unconvertible => return Err(Unexpected);
          case Missing => cell := (name, None);
          case Present(d) => cell := (name, Some(d));
        }
        assert (cells + [cell])[..|cells|] == cells;
        PrependSnoc(cells, cell, RowAt(columns[c + 1..], r));
        cells := cells + [cell];
        rowPredicate := MkAnd(rowPredicate, CellPredicate(cell));
      }
    }
    PrependUnit(cells, Some([]));
    p := Ok(rowPredicate);
  }

  function Prepend(cells: DeleteRow, rest: Option<DeleteRow>): Option<DeleteRow> {
    if rest.Some? then Some(cells + rest.value) else None
  }

  lemma PrependUnit(cells: DeleteRow, rest: Option<DeleteRow>)
    ensures Prepend([], rest) == rest && Prepend(cells, Some([])) == Some(cells)
  {
    assert cells + [] == cells;
    if rest.Some? {
      assert [] + rest.value == rest.value;
    }
  }

  lemma PrependSnoc(cells: DeleteRow, cell: (string, Option<Datum>), rest: Option<DeleteRow>)
    ensures Prepend(cells, Prepend([cell], rest)) == Prepend(cells + [cell], rest)
  {
    if rest.Some? {
      assert cells + ([cell] + rest.value) == (cells + [cell]) + rest.value;
    }
  }

  lemma RowAtNonEmpty(columns: seq<(string, seq<Cell>)>, r: nat)
    requires columns != [] && r < |columns[0].1| && RowAt(columns, r).Some?
    ensures RowAt(columns, r).value != []
  {
  }

  lemma SnocRows(rows: seq<DeleteRow>, row: DeleteRow)
    ensures RowPredicates(rows + [row]) == RowPredicates(rows) + [RowPredicate(row)]
  {
  }

  ghost predicate NonEmptyRows(rows: seq<DeleteRow>) {
    forall i :: 0 <= i < |rows| ==> rows[i] != []
  }

  lemma NoRows(columns: seq<(string, seq<Cell>)>, r: nat)
    requires columns != [] && r < |columns[0].1| && RowAt(columns, r).None?
    ensures !forall k :: 0 <= k < |columns[0].1| ==> RowAt(columns, k).Some?
  {
  }

  lemma RowsAppended(columns: seq<(string, seq<Cell>)>, rows: seq<DeleteRow>, all: seq<DeleteRow>)
    requires columns != [] && After(rows, BatchRows(columns, 0)) == Rows(all)
    ensures |rows| <= |all| && all[..|rows|] == rows && RowsOf(columns, all[|rows|..])
    ensures forall k :: 0 <= k < |columns[0].1| ==> RowAt(columns, k).Some?
  {
    RowsFrom(columns, 0);
    hide RowAt;
    var here := BatchRows(columns, 0).rows;
    assert all[|rows|..] == here;
    hide BatchRows;
    assert forall k :: 0 <= k < |here| ==> here[k - 0] == here[k];
  }

  /** The rows of one batch in lockstep, appended to those already compiled. */
  method ReadBatch(columns: seq<(string, seq<Cell>)>, soFar: seq<ColumnPredicate>, ghost rows: seq<DeleteRow>)
    returns (result: Result<seq<ColumnPredicate>>, ghost all: seq<DeleteRow>)
    requires columns != [] && soFar == RowPredicates(rows) && NonEmptyRows(rows)
    ensures result.Err? ==> BatchRows(columns, 0) == Failed && result.error == Unexpected
    ensures result.Ok? ==> After(rows, BatchRows(columns, 0)) == Rows(all)
    ensures result.Ok? <==> forall k :: 0 <= k < |columns[0].1| ==> RowAt(columns, k).Some?
    ensures result.Ok? ==> |rows| <= |all| && all[..|rows|] == rows && RowsOf(columns, all[|rows|..])
    ensures result.Ok? ==> result.value == RowPredicates(all) && NonEmptyRows(all)
  {
    var preds := soFar;
    all := rows;
    var r := 0;
    while r < |columns[0].1|
      invariant r <= |columns[0].1|
      invariant After(rows, BatchRows(columns, 0)) == After(all, BatchRows(columns, r))
      invariant preds == RowPredicates(all) && NonEmptyRows(all)
      decreases |columns[0].1| - r
    {
      var p := ReadRow(columns, r);
      if p.Err? {
        NoRows(columns, r);
        return Err(p.error), all;
      }
      RowAtNonEmpty(columns, r);
      ghost var row := RowAt(columns, r).value;
      assert BatchRows(columns, r + 1).Rows? ==>
          all + ([row] + BatchRows(columns, r + 1).rows) == (all + [row]) + BatchRows(columns, r + 1).rows;
      SnocRows(all, row);
      preds := preds + [RewriteNot(Not(p.value))];
      all := all + [row];
      r := r + 1;
    }
    assert After(rows, BatchRows(columns, 0)) == Rows(all + []) && all + [] == all;
    RowsAppended(columns, rows, all);
    result := Ok(preds);
  }

  /** The whole stream: an error where the first batch that is not good is a failure, AlwaysTrue where it has no
      columns, and otherwise the balanced conjunction of one predicate per delete row of every batch, in stream
      order. */
  method ParseEqualityDeletes(stream: seq<Result<Batch>>, ids: set<int>) returns (r: Result<ColumnPredicate>)
    ensures r.Err? <==> exists i :: FailsAt(stream, ids, i)
    ensures (exists i :: StopsAt(stream, ids, i)) ==> r == Ok(AlwaysTrue)
    ensures (forall i :: 0 <= i < |stream| ==> Good(stream[i], ids)) ==> r.Ok? && CompiledFrom(r.value, stream, ids)
  {
    ghost var starts := StreamExact(stream, ids);
    hide Good, LaidOut, StopsAt, FailsAt;
    hide EqualityColumns, BatchRows;
    var preds: seq<ColumnPredicate> := [];
    ghost var rows: seq<DeleteRow> := [];
    AfterNothing(StreamRows(stream, ids));
    assert stream[0..] == stream;
    for i := 0 to |stream|
      invariant StreamRows(stream, ids) == After(rows, StreamRows(stream[i..], ids))
      invariant preds == RowPredicates(rows) && NonEmptyRows(rows)
    {
      assert stream[i..][1..] == stream[i + 1..];
      if stream[i].Err? {
        return Err(stream[i].error);
      }
      var batch := stream[i].value;
      if batch == [] {
        return Ok(AlwaysTrue);
      }
      var columns := CollectColumns(batch, ids);
      if columns.Err? {
        return Err(columns.error);
      }
      if columns.value == [] {
        continue;
      }
      ghost var all;
      var read;
      read, all := ReadBatch(columns.value, preds, rows);
      if read.Err? {
        return Err(read.error);
      }
      AfterAfter(rows, BatchRows(columns.value, 0).rows, StreamRows(stream[i + 1..], ids));
      preds, rows := read.value, all;
    }
    OneConjunctEach(rows);
    var p := Balance(preds);
    r := Ok(p);
  }

  /** Compiled from exactly the delete rows of all batches, in stream order. */
  ghost predicate CompiledFrom(p: ColumnPredicate, stream: seq<Result<Batch>>, ids: set<int>) {
    exists rows, starts :: LaidOut(stream, ids, rows, starts) && Compiled(p, rows)
  }

  lemma AfterNothing(rest: Parsed)
    ensures After([], rest) == rest
  {
    if rest.Rows? {
      assert [] + rest.rows == rest.rows;
    }
  }

  lemma AfterAfter(rows: seq<DeleteRow>, more: seq<DeleteRow>, rest: Parsed)
    ensures After(rows, After(more, rest)) == After(rows + more, rest)
  {
    if rest.Rows? {
      assert rows + (more + rest.rows) == (rows + more) + rest.rows;
    }
  }

  /** `p` conjoins exactly the row predicates of `rows`, in order, in a shallow tree. */
  ghost predicate Compiled(p: ColumnPredicate, rows: seq<DeleteRow>) {
    && NonEmptyRows(rows)
    && Conjuncts(p) == RowPredicates(rows)
    && ConjHeight(p) <= CeilLog2(|rows|)
  }

  lemma {:induction false} OneConjunctEach(rows: seq<DeleteRow>)
    requires NonEmptyRows(rows)
    ensures Level(RowPredicates(rows), 0) && Flatten(RowPredicates(rows)) == RowPredicates(rows)
  {
    forall i | 0 <= i < |rows|
      ensures Conjuncts(RowPredicate(rows[i])) == [RowPredicate(rows[i])] && ConjHeight(RowPredicate(rows[i])) == 0
      ensures !RowPredicate(rows[i]).AlwaysFalse? && !RowPredicate(rows[i]).AlwaysTrue?
    {
      RowPredicateIsOneConjunct(rows[i]);
    }
    hide RowPredicate, Conjuncts, ConjHeight;
    if rows != [] {
      OneConjunctEach(rows[1..]);
      assert RowPredicates(rows)[1..] == RowPredicates(rows[1..]);
    }
  }

  // ----- which rows the predicate keeps -----

  /** A row matches a delete row when they agree on every equality column, null agreeing with null. */
  ghost predicate Matches(deleteRow: DeleteRow, row: string -> Option<Datum>) {
    forall i :: 0 <= i < |deleteRow| ==> row(deleteRow[i].0) == deleteRow[i].1
  }

  /** They differ on a column where the row has a value. */
  ghost predicate DiffersVisibly(deleteRow: DeleteRow, row: string -> Option<Datum>) {
    exists i :: 0 <= i < |deleteRow| && row(deleteRow[i].0).Some? && row(deleteRow[i].0) != deleteRow[i].1
  }

  lemma {:induction false} MatchMeaning(deleteRow: DeleteRow, row: string -> Option<Datum>, reading: Reading)
    ensures Meaning(MatchPredicate(deleteRow), row, reading) == Some(true) <==> Matches(deleteRow, row)
    ensures Meaning(MatchPredicate(deleteRow), row, reading) == Some(false)
       <==> if reading.Kleene? then DiffersVisibly(deleteRow, row) else !Matches(deleteRow, row)
  {
    if deleteRow != [] {
      var front, last := deleteRow[..|deleteRow| - 1], deleteRow[|deleteRow| - 1];
      MatchMeaning(front, row, reading);
      MkAndMeaning(MatchPredicate(front), CellPredicate(last), row, reading);
      assert deleteRow == front + [last];
      MatchesSnoc(front, last, row);
      hide Matches, DiffersVisibly;
    }
  }

  lemma MatchesSnoc(front: DeleteRow, last: (string, Option<Datum>), row: string -> Option<Datum>)
    ensures Matches(front + [last], row) <==> Matches(front, row) && row(last.0) == last.1
    ensures DiffersVisibly(front + [last], row)
       <==> DiffersVisibly(front, row) || (row(last.0).Some? && row(last.0) != last.1)
  {
    var whole := front + [last];
    assert whole[|front|] == last;
    assert forall i :: 0 <= i < |front| ==> whole[i] == front[i];
    if DiffersVisibly(front, row) {
      var i :| 0 <= i < |front| && row(front[i].0).Some? && row(front[i].0) != front[i].1;
      assert whole[i] == front[i];
    }
  }

  lemma RowPredicateMeaning(deleteRow: DeleteRow, row: string -> Option<Datum>, reading: Reading)
    ensures Meaning(RowPredicate(deleteRow), row, reading)
         == KleeneNot(Meaning(MatchPredicate(deleteRow), row, reading))
  {
    RewriteNotKeepsMeaning(Not(MatchPredicate(deleteRow)), row, reading);
  }

  /** Reading null as a value, the compiled predicate is two-valued: true exactly on rows that match no delete row. */
  lemma CompiledTwoValued(p: ColumnPredicate, rows: seq<DeleteRow>, row: string -> Option<Datum>)
    requires Compiled(p, rows)
    ensures Meaning(p, row, NullIsAValue) == Some(forall d :: d in rows ==> !Matches(d, row))
  {
    MeaningOfConjuncts(p, row, NullIsAValue);
    AllMeans(RowPredicates(rows), row, NullIsAValue);
    forall i | 0 <= i < |rows|
      ensures Meaning(RowPredicates(rows)[i], row, NullIsAValue) == Some(!Matches(rows[i], row))
    {
      RowPredicateMeaning(rows[i], row, NullIsAValue);
      MatchMeaning(rows[i], row, NullIsAValue);
    }
  }

  /** With the reader's three-valued logic it is false exactly on rows that match a delete row, and true, so that the
      row is kept, exactly on rows that visibly differ from every delete row. */
  lemma CompiledKleene(p: ColumnPredicate, rows: seq<DeleteRow>, row: string -> Option<Datum>)
    requires Compiled(p, rows)
    ensures Meaning(p, row, Kleene) == Some(false) <==> exists d :: d in rows && Matches(d, row)
    ensures Meaning(p, row, Kleene) == Some(true) <==> forall d :: d in rows ==> DiffersVisibly(d, row)
  {
    MeaningOfConjuncts(p, row, Kleene);
    AllMeans(RowPredicates(rows), row, Kleene);
    forall i | 0 <= i < |rows|
      ensures Meaning(RowPredicates(rows)[i], row, Kleene) == Some(false) <==> Matches(rows[i], row)
      ensures Meaning(RowPredicates(rows)[i], row, Kleene) == Some(true) <==> DiffersVisibly(rows[i], row)
    {
      RowPredicateMeaning(rows[i], row, Kleene);
      MatchMeaning(rows[i], row, Kleene);
    }
  }

  /** The delete row differs from the row only on columns where the row is null. */
  ghost predicate Undecided(d: DeleteRow, row: string -> Option<Datum>) {
    !Matches(d, row) && !DiffersVisibly(d, row)
  }

  ghost predicate NoNulls(rows: seq<DeleteRow>, row: string -> Option<Datum>) {
    forall d: DeleteRow, i :: d in rows && 0 <= i < |d| ==> row(d[i].0).Some?
  }

  /** The reader keeps a row if and only if the row matches no delete row and no delete row is undecided on it; a row
      without nulls in the equality columns is never undecided. */
  lemma KeptExactly(p: ColumnPredicate, rows: seq<DeleteRow>, row: string -> Option<Datum>)
    requires Compiled(p, rows)
    ensures Meaning(p, row, Kleene) == Some(true)
       <==> (forall d :: d in rows ==> !Matches(d, row)) && (forall d :: d in rows ==> !Undecided(d, row))
    ensures NoNulls(rows, row) ==> forall d :: d in rows ==> !Undecided(d, row)
  {
    CompiledKleene(p, rows, row);
    if NoNulls(rows, row) {
      forall d: DeleteRow | d in rows && !Matches(d, row)
        ensures DiffersVisibly(d, row)
      {
        var i :| 0 <= i < |d| && row(d[i].0) != d[i].1;
        assert row(d[i].0).Some?;
      }
    }
    forall d | d in rows
      ensures DiffersVisibly(d, row) ==> !Matches(d, row)
    {
    }
  }

  /** Deleting x = 5 also loses the row whose x is null: it matches nothing, yet it is not kept. */
  lemma NullRowIsLost()
    ensures var p, row := RowPredicate([("x", Some(Num(5)))]), (c: string) => None;
            && Compiled(p, [[("x", Some(Num(5)))]])
            && !Matches([("x", Some(Num(5)))], row)
            && Meaning(p, row, Kleene) != Some(true)
  {
    var d: DeleteRow := [("x", Some(Num(5)))];
    var row: string -> Option<Datum> := (c: string) => None;
    RowPredicateIsOneConjunct(d);
    assert RowPredicates([d]) == [RowPredicate(d)];
    CompiledKleene(RowPredicate(d), [d], row);
    assert d in [d] && row(d[0].0) != d[0].1;
  }
}
