/** Which columns of an equality delete batch the reader collects. */
module DeleteColumns {
  import opened Common
  import opened Predicates

  /** A cell as the literal conversion yields it. */
  datatype Cell = Unconvertible | Missing | Present(datum: Datum)

  /** A field of a batch with its array. The array of a primitive field either converts to cells or does not. */
  datatype Column = Column(id: int, name: string, content: Content)

  datatype Content = Primitive(cells: Option<seq<Cell>>) | Struct(fields: seq<Column>) | ListOrMap

  /** The collected columns, by the name of the field alone. */
  type Named<T> = seq<(string, T)>

  // ----- the visitor -----

  predicate HasListOrMap(fields: seq<Column>)
    decreases fields, 0
  {
    fields != [] && (IsListOrMap(fields[0]) || HasListOrMap(fields[1..]))
  }

  /** A list or a map, or a struct with one inside. */
  predicate IsListOrMap(column: Column)
    decreases column, 1
  {
    match column.content
    case Primitive(_) => false
    case Struct(fields) => HasListOrMap(fields)
    case ListOrMap => true
  }

  /** The primitive fields with an equality id, wherever they are nested, depth first. */
  function Collected(fields: seq<Column>, ids: set<int>): Named<Option<seq<Cell>>>
    decreases fields, 0
  {
    if fields == [] then [] else CollectedAt(fields[0], ids) + Collected(fields[1..], ids)
  }

  function CollectedAt(column: Column, ids: set<int>): Named<Option<seq<Cell>>>
    decreases column, 1
  {
    match column.content
    case Primitive(cells) => if column.id in ids then [(column.name, cells)] else []
    case Struct(fields) => Collected(fields, ids)
    case ListOrMap => []
  }

  /** Every array is to be converted; the first that cannot be is an error. */
  function Finished(collected: Named<Option<seq<Cell>>>): Result<Named<seq<Cell>>> {
    if collected == [] then Ok([])
    else if collected[0].1.None? then Err(Unexpected)
    else
      var rest := Finished(collected[1..]);
      if rest.Ok? then Ok([(collected[0].0, collected[0].1.value)] + rest.value) else rest
  }

  function EqualityColumns(fields: seq<Column>, ids: set<int>): Result<Named<seq<Cell>>> {
    if HasListOrMap(fields) then Err(FeatureUnsupported) else Finished(Collected(fields, ids))
  }

  lemma {:induction false} CollectedSnoc(front: seq<Column>, last: Column, ids: set<int>)
    ensures Collected(front + [last], ids) == Collected(front, ids) + CollectedAt(last, ids)
    ensures HasListOrMap(front + [last]) <==> HasListOrMap(front) || IsListOrMap(last)
  {
    var all := front + [last];
    if front == [] {
      assert all[0] == last && all[1..] == [];
      assert CollectedAt(last, ids) + [] == [] + CollectedAt(last, ids);
    } else {
      CollectedSnoc(front[1..], last, ids);
      assert all[0] == front[0] && all[1..] == front[1..] + [last];
      ConcatAssociative(CollectedAt(front[0], ids), Collected(front[1..], ids), CollectedAt(last, ids));
    }
  }

  lemma {:induction false} ListOrMapInside(fields: seq<Column>, i: nat)
    requires i < |fields| && IsListOrMap(fields[i])
    ensures HasListOrMap(fields)
  {
    if i > 0 {
      ListOrMapInside(fields[1..], i - 1);
    }
  }

  /** The visitor of the source: it pushes onto `collected` as it meets fields, after what they contain. */
  class EqDelColumnProcessor {
    const equalityIds: set<int>
    var collected: Named<Option<seq<Cell>>>

    constructor (equalityIds: set<int>)
      ensures this.equalityIds == equalityIds && collected == []
    {
      this.equalityIds, collected := equalityIds, [];
    }

    /** Visits a struct; false where a list or a map is met. */
    method VisitStruct(fields: seq<Column>) returns (ok: bool)
      modifies this
      ensures ok <==> !HasListOrMap(fields)
      ensures ok ==> collected == old(collected) + Collected(fields, equalityIds)
      decreases fields
    {
      for i := 0 to |fields|
        invariant !HasListOrMap(fields[..i])
        invariant collected == old(collected) + Collected(fields[..i], equalityIds)
      {
        var field := fields[i];
        assert fields[..i + 1] == fields[..i] + [field];
        CollectedSnoc(fields[..i], field, equalityIds);
        if IsListOrMap(field) {
          ListOrMapInside(fields, i);
        }
        match field.content {
          case Primitive(_) =>
          case Struct(inner) =>
            ok := VisitStruct(inner);
            if !ok {
              return;
            }
          case ListOrMap =>
            return false;
        }
        VisitField(field);
        ConcatAssociative(old(collected), Collected(fields[..i], equalityIds), CollectedAt(field, equalityIds));
      }
      assert fields[..|fields|] == fields;
      ok := true;
    }

    /** Called after the type of a field has been visited. */
    method VisitField(field: Column)
      modifies this
      ensures collected == old(collected) +
                if field.id in equalityIds && field.content.Primitive? then [(field.name, field.content.cells)] else []
    {
      if field.id in equalityIds && field.content.Primitive? {
        collected := collected + [(field.name, field.content.cells)];
      }
    }

    method Finish() returns (r: Result<Named<seq<Cell>>>)
      ensures r == Finished(collected)
    {
      var columns: Named<seq<Cell>> := [];
      FinishedPrefix([], Finished(collected));
      assert collected[0..] == collected;
      for i := 0 to |collected|
        invariant Finished(collected) == PrependColumns(columns, Finished(collected[i..]))
      {
        assert collected[i..][1..] == collected[i + 1..];
        if collected[i].1.None? {
          return Err(Unexpected);
        }
        PrependMore(columns, (collected[i].0, collected[i].1.value), Finished(collected[i + 1..]));
        columns := columns + [(collected[i].0, collected[i].1.value)];
      }
      assert columns + [] == columns;
      r := Ok(columns);
    }
  }

  function PrependColumns(columns: Named<seq<Cell>>, rest: Result<Named<seq<Cell>>>): Result<Named<seq<Cell>>> {
    if rest.Ok? then Ok(columns + rest.value) else rest
  }

  lemma FinishedPrefix(columns: Named<seq<Cell>>, rest: Result<Named<seq<Cell>>>)
    requires columns == []
    ensures PrependColumns(columns, rest) == rest
  {
    if rest.Ok? {
      assert columns + rest.value == rest.value;
    }
  }

  lemma PrependMore(columns: Named<seq<Cell>>, column: (string, seq<Cell>), rest: Result<Named<seq<Cell>>>)
    ensures PrependColumns(columns, PrependColumns([column], rest)) == PrependColumns(columns + [column], rest)
  {
    if rest.Ok? {
      assert columns + ([column] + rest.value) == (columns + [column]) + rest.value;
    }
  }

  /** Visits the batch and finishes. */
  method CollectColumns(fields: seq<Column>, ids: set<int>) returns (r: Result<Named<seq<Cell>>>)
    ensures r == EqualityColumns(fields, ids)
  {
    var processor := new EqDelColumnProcessor(ids);
    var ok := processor.VisitStruct(fields);
    if !ok {
      return Err(FeatureUnsupported);
    }
    assert [] + Collected(fields, ids) == Collected(fields, ids);
    r := processor.Finish();
  }

  // ----- the leaves of a batch -----

  /** A primitive field, whether it is a top-level field, and whether it or a field around it has an equality id. */
  datatype Leaf = Leaf(id: int, name: string, cells: Option<seq<Cell>>, topLevel: bool, marked: bool)

  /** All primitive fields, depth first. */
  function Leaves(fields: seq<Column>, ids: set<int>, topLevel: bool, marked: bool): seq<Leaf>
    decreases fields, 0
  {
    if fields == [] then []
    else LeavesAt(fields[0], ids, topLevel, marked) + Leaves(fields[1..], ids, topLevel, marked)
  }

  function LeavesAt(column: Column, ids: set<int>, topLevel: bool, marked: bool): seq<Leaf>
    decreases column, 1
  {
    var here := marked || column.id in ids;
    match column.content
    case Primitive(cells) => [Leaf(column.id, column.name, cells, topLevel, here)]
    case Struct(fields) => Leaves(fields, ids, false, here)
    case ListOrMap => []
  }

  // ----- fields by their path -----

  /** The field that a path of field numbers leads to, from struct to struct. */
  function At(fields: seq<Column>, path: seq<nat>): Option<Column>
    decreases |path|
  {
    if path == [] || path[0] >= |fields| then None
    else if |path| == 1 then Some(fields[path[0]])
    else
      match fields[path[0]].content
      case Struct(inner) => At(inner, path[1..])
      case _ => None
  }

  ghost predicate ListOrMapAt(fields: seq<Column>, path: seq<nat>) {
    At(fields, path).Some? && At(fields, path).value.content.ListOrMap?
  }

  /** There is a list or a map exactly if some path leads to one. */
  lemma {:induction false} ListOrMapFound(fields: seq<Column>)
    ensures HasListOrMap(fields) <==> exists path :: ListOrMapAt(fields, path)
    decreases fields, 0
  {
    if fields != [] {
      ListOrMapFound(fields[1..]);
      InsideFound(fields[0]);
      if path :| ListOrMapAt(fields[1..], path) {
        Shifted(fields, path);
        assert ListOrMapAt(fields, [path[0] + 1] + path[1..]);
      }
      if path :| ListOrMapAt([fields[0]], path) {
        FirstOnly(fields, path);
        assert ListOrMapAt(fields, path);
      }
      if path :| ListOrMapAt(fields, path) {
        if path[0] > 0 {
          var shorter := [path[0] - 1] + path[1..];
          Shifted(fields, shorter);
          assert [shorter[0] + 1] + shorter[1..] == path;
          assert ListOrMapAt(fields[1..], shorter);
        } else {
          FirstOnly(fields, path);
          assert ListOrMapAt([fields[0]], path);
        }
      }
    }
  }

  lemma {:induction false} InsideFound(column: Column)
    ensures IsListOrMap(column) <==> exists path :: ListOrMapAt([column], path)
    decreases column, 1
  {
    match column.content {
      case Primitive(_) =>
        forall path
          ensures !ListOrMapAt([column], path)
        {
        }
      case Struct(inner) =>
        ListOrMapFound(inner);
        if path :| ListOrMapAt(inner, path) {
          assert ([0] + path)[1..] == path;
          assert ListOrMapAt([column], [0] + path);
        }
        if path :| ListOrMapAt([column], path) {
          assert ListOrMapAt(inner, path[1..]);
        }
      case ListOrMap =>
        assert ListOrMapAt([column], [0]);
    }
  }

  lemma Shifted(fields: seq<Column>, path: seq<nat>)
    requires fields != [] && path != []
    ensures At(fields, [path[0] + 1] + path[1..]) == At(fields[1..], path)
  {
    var longer := [path[0] + 1] + path[1..];
    assert longer[0] == path[0] + 1 && longer[1..] == path[1..] && |longer| == |path|;
    assert path[0] + 1 < |fields| ==> fields[path[0] + 1] == fields[1..][path[0]];
  }

  lemma FirstOnly(fields: seq<Column>, path: seq<nat>)
    requires fields != [] && path != [] && path[0] == 0
    ensures At(fields, path) == At([fields[0]], path)
  {
  }

  /** `path` leads to the primitive field that the leaf stands for. */
  ghost predicate LeadsTo(fields: seq<Column>, ids: set<int>, topLevel: bool, marked: bool, path: seq<nat>, l: Leaf) {
    && At(fields, path) == Some(Column(l.id, l.name, Primitive(l.cells)))
    && (l.topLevel <==> topLevel && |path| == 1)
    && (l.marked <==> marked || MarkedOn(fields, ids, path))
  }

  /** A field on the way has an equality id. */
  ghost predicate MarkedOn(fields: seq<Column>, ids: set<int>, path: seq<nat>) {
    exists n :: 0 < n <= |path| && MarkedAt(fields, ids, path, n)
  }

  ghost predicate MarkedAt(fields: seq<Column>, ids: set<int>, path: seq<nat>, n: nat)
    requires n <= |path|
  {
    At(fields, path[..n]).Some? && At(fields, path[..n]).value.id in ids
  }

  lemma ShiftedMark(fields: seq<Column>, ids: set<int>, path: seq<nat>)
    requires fields != [] && path != []
    ensures MarkedOn(fields, ids, [path[0] + 1] + path[1..]) <==> MarkedOn(fields[1..], ids, path)
  {
    var longer := [path[0] + 1] + path[1..];
    forall n: nat | 0 < n <= |path|
      ensures MarkedAt(fields, ids, longer, n) <==> MarkedAt(fields[1..], ids, path, n)
    {
      assert longer[..n] == [path[..n][0] + 1] + path[..n][1..];
      Shifted(fields, path[..n]);
    }
  }

  lemma FirstMark(fields: seq<Column>, ids: set<int>, path: seq<nat>)
    requires fields != [] && path != [] && path[0] == 0
    ensures MarkedOn(fields, ids, path) <==> MarkedOn([fields[0]], ids, path)
  {
    forall n: nat | 0 < n <= |path|
      ensures MarkedAt(fields, ids, path, n) <==> MarkedAt([fields[0]], ids, path, n)
    {
      FirstOnly(fields, path[..n]);
    }
  }

  lemma InnerMark(column: Column, ids: set<int>, path: seq<nat>)
    requires column.content.Struct? && path != []
    ensures MarkedOn([column], ids, [0] + path) <==> column.id in ids || MarkedOn(column.content.fields, ids, path)
  {
    var longer := [0] + path;
    assert longer[..1] == [0];
    assert MarkedAt([column], ids, longer, 1) <==> column.id in ids;
    forall n: nat | 0 < n <= |path|
      ensures MarkedAt([column], ids, longer, n + 1) <==> MarkedAt(column.content.fields, ids, path, n)
    {
      assert longer[..n + 1] == [0] + path[..n];
      assert longer[..n + 1][1..] == path[..n];
    }
    if n :| 0 < n <= |longer| && MarkedAt([column], ids, longer, n) && n > 1 {
      assert MarkedAt(column.content.fields, ids, path, n - 1);
    }
  }

  /** The leaves are the primitive fields that some path leads to, top-level or not and marked or not as the path
      says. */
  lemma {:induction false} LeavesFound(fields: seq<Column>, ids: set<int>, topLevel: bool, marked: bool, l: Leaf)
    ensures l in Leaves(fields, ids, topLevel, marked) <==> exists path :: LeadsTo(fields, ids, topLevel, marked, path, l)
    decreases fields, 0
  {
    if fields != [] {
      LeavesFound(fields[1..], ids, topLevel, marked, l);
      LeavesInside(fields[0], ids, topLevel, marked, l);
      if path :| LeadsTo(fields[1..], ids, topLevel, marked, path, l) {
        Shifted(fields, path);
        ShiftedMark(fields, ids, path);
        assert LeadsTo(fields, ids, topLevel, marked, [path[0] + 1] + path[1..], l);
      }
      if path :| LeadsTo([fields[0]], ids, topLevel, marked, path, l) {
        FirstOnly(fields, path);
        FirstMark(fields, ids, path);
        assert LeadsTo(fields, ids, topLevel, marked, path, l);
      }
      if path :| LeadsTo(fields, ids, topLevel, marked, path, l) {
        if path[0] > 0 {
          var shorter := [path[0] - 1] + path[1..];
          assert [shorter[0] + 1] + shorter[1..] == path;
          Shifted(fields, shorter);
          ShiftedMark(fields, ids, shorter);
          assert LeadsTo(fields[1..], ids, topLevel, marked, shorter, l);
        } else {
          FirstOnly(fields, path);
          FirstMark(fields, ids, path);
          assert LeadsTo([fields[0]], ids, topLevel, marked, path, l);
        }
      }
    }
  }

  lemma {:induction false} LeavesInside(column: Column, ids: set<int>, topLevel: bool, marked: bool, l: Leaf)
    ensures l in LeavesAt(column, ids, topLevel, marked)
       <==> exists path :: LeadsTo([column], ids, topLevel, marked, path, l)
    decreases column, 1
  {
    match column.content {
      case Primitive(cells) =>
        assert MarkedOn([column], ids, [0]) <==> column.id in ids by {
          assert [0][..1] == [0];
          assert MarkedAt([column], ids, [0], 1) <==> column.id in ids;
        }
        forall path | LeadsTo([column], ids, topLevel, marked, path, l)
          ensures path == [0]
        {
        }
        if l in LeavesAt(column, ids, topLevel, marked) {
          assert LeadsTo([column], ids, topLevel, marked, [0], l);
        }
      case Struct(inner) =>
        var here := marked || column.id in ids;
        LeavesFound(inner, ids, false, here, l);
        if path :| LeadsTo(inner, ids, false, here, path, l) {
          assert ([0] + path)[1..] == path;
          InnerMark(column, ids, path);
          assert LeadsTo([column], ids, topLevel, marked, [0] + path, l);
        }
        if path :| LeadsTo([column], ids, topLevel, marked, path, l) {
          assert path == [0] + path[1..];
          InnerMark(column, ids, path[1..]);
          assert LeadsTo(inner, ids, false, here, path[1..], l);
        }
      case ListOrMap =>
        forall path
          ensures !LeadsTo([column], ids, topLevel, marked, path, l)
        {
        }
    }
  }

  // ----- what is picked -----

  /** The leaves that carry an equality id themselves. */
  function Picked(leaves: seq<Leaf>, ids: set<int>): Named<Option<seq<Cell>>> {
    if leaves == [] then []
    else (if leaves[0].id in ids then [(leaves[0].name, leaves[0].cells)] else []) + Picked(leaves[1..], ids)
  }

  lemma {:induction false} PickedConcat(l: seq<Leaf>, m: seq<Leaf>, ids: set<int>)
    ensures Picked(l + m, ids) == Picked(l, ids) + Picked(m, ids)
  {
    if l == [] {
      assert l + m == m;
    } else {
      PickedConcat(l[1..], m, ids);
      assert (l + m)[0] == l[0] && (l + m)[1..] == l[1..] + m;
      ConcatAssociative(if l[0].id in ids then [(l[0].name, l[0].cells)] else [], Picked(l[1..], ids), Picked(m, ids));
    }
  }

  /** The visitor collects exactly the leaves that carry an equality id themselves, in order. */
  lemma {:induction false} CollectedIsPicked(fields: seq<Column>, ids: set<int>, topLevel: bool, marked: bool)
    ensures Collected(fields, ids) == Picked(Leaves(fields, ids, topLevel, marked), ids)
    decreases fields, 0
  {
    if fields != [] {
      CollectedIsPicked(fields[1..], ids, topLevel, marked);
      CollectedAtIsPicked(fields[0], ids, topLevel, marked);
      PickedConcat(LeavesAt(fields[0], ids, topLevel, marked), Leaves(fields[1..], ids, topLevel, marked), ids);
    }
  }

  lemma {:induction false} CollectedAtIsPicked(column: Column, ids: set<int>, topLevel: bool, marked: bool)
    ensures CollectedAt(column, ids) == Picked(LeavesAt(column, ids, topLevel, marked), ids)
    decreases column, 1
  {
    match column.content
    case Primitive(cells) =>
      assert LeavesAt(column, ids, topLevel, marked)[1..] == [];
    case Struct(fields) =>
      CollectedIsPicked(fields, ids, false, marked || column.id in ids);
    case ListOrMap =>
  }

  lemma {:induction false} PickedMember(leaves: seq<Leaf>, ids: set<int>, column: (string, Option<seq<Cell>>))
    ensures column in Picked(leaves, ids) <==> exists l :: l in leaves && l.id in ids && column == (l.name, l.cells)
  {
    if leaves != [] {
      PickedMember(leaves[1..], ids, column);
      assert leaves == [leaves[0]] + leaves[1..];
    }
  }

  lemma {:induction false} FinishedMeans(collected: Named<Option<seq<Cell>>>)
    ensures Finished(collected).Ok? <==> forall i :: 0 <= i < |collected| ==> collected[i].1.Some?
    ensures Finished(collected).Ok? ==> (Finished(collected).value == [] <==> collected == [])
  {
    if collected != [] {
      FinishedMeans(collected[1..]);
      assert forall i :: 0 <= i < |collected[1..]| ==> collected[1..][i] == collected[i + 1];
    }
  }

  /** The batch is refused if and only if it has a list or a map anywhere, or a collected array that does not convert;
      and nothing is collected if and only if no primitive field, at any depth, carries an equality id. */
  lemma ColumnsCollected(fields: seq<Column>, ids: set<int>)
    ensures EqualityColumns(fields, ids).Err?
       <==> HasListOrMap(fields) || exists l :: l in Leaves(fields, ids, true, false) && l.id in ids && l.cells.None?
    ensures EqualityColumns(fields, ids) == Err(FeatureUnsupported) <==> HasListOrMap(fields)
    ensures EqualityColumns(fields, ids) == Ok([])
       <==> !HasListOrMap(fields) && forall l :: l in Leaves(fields, ids, true, false) ==> l.id !in ids
  {
    var leaves, collected := Leaves(fields, ids, true, false), Collected(fields, ids);
    CollectedIsPicked(fields, ids, true, false);
    FinishedMeans(collected);
    FinishedError(collected);
    if i :| 0 <= i < |collected| && collected[i].1.None? {
      PickedMember(leaves, ids, collected[i]);
      assert collected[i] in collected;
    }
    if l :| l in leaves && l.id in ids {
      PickedMember(leaves, ids, (l.name, l.cells));
    }
    if collected != [] {
      PickedMember(leaves, ids, collected[0]);
    }
    forall l | l in leaves && l.id in ids && l.cells.None?
      ensures exists i :: 0 <= i < |collected| && collected[i].1.None?
    {
      PickedMember(leaves, ids, (l.name, l.cells));
      var i :| 0 <= i < |collected| && collected[i] == (l.name, l.cells);
    }
  }

  lemma {:induction false} FinishedError(collected: Named<Option<seq<Cell>>>)
    ensures Finished(collected).Err? ==> Finished(collected) == Err(Unexpected)
  {
    if collected != [] {
      FinishedError(collected[1..]);
    }
  }
}
