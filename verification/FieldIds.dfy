/** Parquet schemas, their leaf columns, and the maps from field ids to leaf columns. */
module FieldIds {
  import opened Common

  datatype Type = Primitive(id: Option<int>) | Group(fields: seq<Type>)

  /** A leaf column: the root field it descends from, whether it is that field itself, and its id if it carries one. */
  datatype Leaf = Leaf(root: nat, topLevel: bool, id: Option<int>)

  function LeafCount(t: Type): nat {
    match t
    case Primitive(_) => 1
    case Group(fields) => LeafCounts(fields)
  }

  function LeafCounts(fields: seq<Type>): nat {
    if fields == [] then 0 else LeafCount(fields[0]) + LeafCounts(fields[1..])
  }

  /** The leaves below a field, depth first. */
  function LeavesOf(t: Type, root: nat, topLevel: bool): seq<Leaf> {
    match t
    case Primitive(id) => [Leaf(root, topLevel, id)]
    case Group(fields) => NestedLeaves(fields, root)
  }

  function NestedLeaves(fields: seq<Type>, root: nat): seq<Leaf> {
    if fields == [] then [] else LeavesOf(fields[0], root, false) + NestedLeaves(fields[1..], root)
  }

  /** The flattened schema: the columns of the first `k` root fields. */
  function Columns(fields: seq<Type>, k: nat): seq<Leaf>
    requires k <= |fields|
  {
    if k == 0 then [] else Columns(fields, k - 1) + LeavesOf(fields[k - 1], k - 1, true)
  }

  /** `leaf_count` counts the leaves, all of which descend from the field; only a primitive field is its own leaf. */
  lemma {:induction false} LeavesCounted(t: Type, root: nat, topLevel: bool)
    ensures |LeavesOf(t, root, topLevel)| == LeafCount(t)
    ensures forall i :: 0 <= i < LeafCount(t) ==>
              LeavesOf(t, root, topLevel)[i].root == root &&
              (LeavesOf(t, root, topLevel)[i].topLevel <==> topLevel && t.Primitive?)
  {
    match t
    case Primitive(_) =>
    case Group(fields) => NestedCounted(fields, root);
  }

  lemma {:induction false} NestedCounted(fields: seq<Type>, root: nat)
    ensures |NestedLeaves(fields, root)| == LeafCounts(fields)
    ensures forall i :: 0 <= i < LeafCounts(fields) ==>
              NestedLeaves(fields, root)[i].root == root && !NestedLeaves(fields, root)[i].topLevel
  {
    if fields != [] {
      LeavesCounted(fields[0], root, false);
      NestedCounted(fields[1..], root);
    }
  }

  /** Column `i` is root field `p` itself. */
  ghost predicate IsRootColumn(fields: seq<Type>, k: nat, p: nat, i: nat)
    requires k <= |fields|
  {
    i < |Columns(fields, k)| && Columns(fields, k)[i].root == p && Columns(fields, k)[i].topLevel
  }

  lemma {:induction false} RootColumns(fields: seq<Type>, k: nat)
    requires k <= |fields|
    ensures forall i :: 0 <= i < |Columns(fields, k)| ==>
              Columns(fields, k)[i].root < k &&
              (Columns(fields, k)[i].topLevel <==> fields[Columns(fields, k)[i].root].Primitive?)
  {
    if k > 0 {
      RootColumns(fields, k - 1);
      LeavesCounted(fields[k - 1], k - 1, true);
    }
  }

  /** The columns of field `k` come right after those of the fields before it. */
  lemma NextRootColumn(fields: seq<Type>, k: nat, p: nat, i: nat)
    requires k < |fields|
    ensures IsRootColumn(fields, k + 1, p, i)
       <==> IsRootColumn(fields, k, p, i) || (p == k && fields[k].Primitive? && i == |Columns(fields, k)|)
    ensures IsRootColumn(fields, k, p, i) ==> p < k
  {
    RootColumns(fields, k);
    LeavesCounted(fields[k], k, true);
  }

  /** Among the first `k` root fields, id p + 1 maps to column i if and only if field p is that very column. */
  ghost predicate IsFallbackMap(columnMap: map<int, nat>, fields: seq<Type>, k: nat)
    requires k <= |fields|
  {
    && (forall id :: id in columnMap ==> id >= 1 && IsRootColumn(fields, k, id - 1, columnMap[id]))
    && (forall p: nat, i: nat :: IsRootColumn(fields, k, p, i) ==> p + 1 in columnMap && columnMap[p + 1] == i)
  }

  method BuildFallbackFieldIdMap(fields: seq<Type>) returns (columnMap: map<int, nat>)
    ensures IsFallbackMap(columnMap, fields, |fields|)
  {
    columnMap := map[];
    var leafIdx := 0;
    for topPos := 0 to |fields|
      invariant leafIdx == |Columns(fields, topPos)|
      invariant IsFallbackMap(columnMap, fields, topPos)
    {
      LeavesCounted(fields[topPos], topPos, true);
      FallbackStep(columnMap, fields, topPos, topPos + 1);
      var fieldId := topPos + 1;
      if fields[topPos].Primitive? {
        columnMap := columnMap[fieldId := leafIdx];
      }
      leafIdx := leafIdx + LeafCount(fields[topPos]);
    }
  }

  lemma FallbackStep(columnMap: map<int, nat>, fields: seq<Type>, k: nat, j: nat)
    requires j == k + 1 <= |fields| && IsFallbackMap(columnMap, fields, k)
    ensures IsFallbackMap(
              if fields[k].Primitive? then columnMap[j := |Columns(fields, k)|] else columnMap, fields, j)
  {
    hide IsRootColumn;
    var next := if fields[k].Primitive? then columnMap[j := |Columns(fields, k)|] else columnMap;
    forall id | id in next
      ensures id >= 1 && IsRootColumn(fields, j, id - 1, next[id])
    {
      NextRootColumn(fields, k, id - 1, next[id]);
    }
    forall p: nat, i: nat | IsRootColumn(fields, j, p, i)
      ensures p + 1 in next && next[p + 1] == i
    {
      NextRootColumn(fields, k, p, i);
    }
  }

  /** The positional fallback projection: ids outside the schema are dropped, and nothing left means everything. */
  method FallbackRoots(fieldIds: seq<int>, numRoots: nat) returns (roots: Option<seq<nat>>)
    ensures roots.None? <==> forall id :: id in fieldIds ==> !(1 <= id <= numRoots)
    ensures roots.Some? ==> forall root: nat :: root in roots.value <==> root + 1 in fieldIds && root < numRoots
  {
    var indices: seq<nat> := [];
    for k := 0 to |fieldIds|
      invariant forall root: nat :: root in indices <==> root + 1 in fieldIds[..k] && root < numRoots
    {
      assert fieldIds[..k + 1] == fieldIds[..k] + [fieldIds[k]];
      var pos := fieldIds[k] - 1;
      if 0 <= pos < numRoots {
        indices := indices + [pos];
      }
    }
    assert fieldIds[..|fieldIds|] == fieldIds;
    forall id | id in fieldIds && 1 <= id <= numRoots
      ensures indices != []
    {
      var root: nat := id - 1;
      assert root in indices <==> root + 1 in fieldIds;
    }
    if indices == [] {
      return None;
    }
    assert indices[0] in indices;
    roots := Some(indices);
  }

  /** The ids a name mapping gives the top-level fields: the first mapped entry that lists the field's name. */
  function MappedIds(names: seq<string>, mapping: seq<(seq<string>, Option<int>)>): (ids: seq<Option<int>>)
    ensures |ids| == |names|
  {
    seq(|names|, p requires 0 <= p < |names| => MappedId(names[p], mapping))
  }

  function MappedId(name: string, mapping: seq<(seq<string>, Option<int>)>): Option<int> {
    if mapping == [] then None
    else if name in mapping[0].0 then mapping[0].1
    else MappedId(name, mapping[1..])
  }

  /** For a file without ids the row filter goes by position even when a name mapping has given the fields ids: a mapped
      id finds its own field's column if and only if the id happens to be the field's position plus one. */
  lemma NameMappedColumn(fields: seq<Type>, columnMap: map<int, nat>, names: seq<string>,
                         mapping: seq<(seq<string>, Option<int>)>, p: nat, id: int)
    requires IsFallbackMap(columnMap, fields, |fields|)
    requires p < |fields| == |names| && fields[p].Primitive? && MappedIds(names, mapping)[p] == Some(id)
    ensures id in columnMap && IsRootColumn(fields, |fields|, p, columnMap[id]) <==> id == p + 1
  {
    RootColumnExists(fields, |fields|, p);
    var i :| 0 <= i < |Columns(fields, |fields|)| && IsRootColumn(fields, |fields|, p, i);
    assert p + 1 in columnMap && columnMap[p + 1] == i;
  }

  /** Columns a and b, mapped by name to ids 2 and 1: a filter on the field of a reads column b. */
  lemma NameMappingMisreads()
    ensures var fields := [Primitive(None), Primitive(None)];
            && IsFallbackMap(map[1 := 0, 2 := 1], fields, 2)
            && MappedIds(["a", "b"], [(["a"], Some(2)), (["b"], Some(1))]) == [Some(2), Some(1)]
            && !IsRootColumn(fields, 2, 0, map[1 := 0, 2 := 1][2])
  {
    var fields := [Primitive(None), Primitive(None)];
    var none, one := Columns(fields, 0), Columns(fields, 1);
    assert one == none + [Leaf(0, true, None)] == [Leaf(0, true, None)];
    assert Columns(fields, 2) == [Leaf(0, true, None), Leaf(1, true, None)];
    var mapping := [(["a"], Some(2)), (["b"], Some(1))];
    assert "a" in mapping[0].0 && "b" !in mapping[0].0 && "b" in mapping[1].0;
    assert mapping[1..] == [mapping[1]];
  }

  lemma {:induction false} RootColumnExists(fields: seq<Type>, k: nat, p: nat)
    requires p < k <= |fields| && fields[p].Primitive?
    ensures exists i :: 0 <= i < |Columns(fields, k)| && IsRootColumn(fields, k, p, i)
  {
    if p == k - 1 {
      assert IsRootColumn(fields, k, p, |Columns(fields, k - 1)|);
    } else {
      RootColumnExists(fields, k - 1, p);
      var i :| 0 <= i < |Columns(fields, k - 1)| && IsRootColumn(fields, k - 1, p, i);
      assert IsRootColumn(fields, k, p, i);
    }
  }

  /** A field map that sends different ids to different columns. */
  ghost predicate Injective(columnMap: map<int, nat>) {
    forall a, b :: a in columnMap && b in columnMap && columnMap[a] == columnMap[b] ==> a == b
  }

  /** The map agrees with the columns: the column of an id exists. */
  ghost predicate MapsInto(columnMap: map<int, nat>, size: nat) {
    forall id :: id in columnMap ==> columnMap[id] < size
  }

  /** The fallback map is injective, sends each id to the column whose root is the position the fallback projection uses
      for that id, and never to a nested column. */
  lemma FallbackConsistent(fields: seq<Type>, columnMap: map<int, nat>)
    requires IsFallbackMap(columnMap, fields, |fields|)
    ensures Injective(columnMap) && MapsInto(columnMap, |Columns(fields, |fields|)|)
    ensures forall id :: id in columnMap ==>
              && 1 <= id <= |fields|
              && Columns(fields, |fields|)[columnMap[id]].root == id - 1
              && fields[id - 1].Primitive?
  {
    RootColumns(fields, |fields|);
  }

  /** The domain is the ids that occur, and each id is sent to the last leaf that carries it. */
  ghost predicate IsLastLeafMap(m: map<int, nat>, columns: seq<Leaf>) {
    && (forall id :: id in m ==> m[id] < |columns| && columns[m[id]].id == Some(id))
    && (forall i :: 0 <= i < |columns| && columns[i].id.Some? ==> columns[i].id.value in m && i <= m[columns[i].id.value])
  }

  /** Embedded ids: no map at all if any leaf lacks an id; otherwise each id goes to its last leaf. */
  method BuildFieldIdMap(columns: seq<Leaf>) returns (columnMap: Option<map<int, nat>>)
    ensures columnMap.None? <==> exists i :: 0 <= i < |columns| && columns[i].id.None?
    ensures columnMap.Some? ==> IsLastLeafMap(columnMap.value, columns)
    ensures columnMap.Some? ==> Injective(columnMap.value) && MapsInto(columnMap.value, |columns|)
  {
    var m: map<int, nat> := map[];
    for idx := 0 to |columns|
      invariant forall i :: 0 <= i < idx ==> columns[i].id.Some?
      invariant IsLastLeafMap(m, columns[..idx])
    {
      assert columns[..idx + 1] == columns[..idx] + [columns[idx]];
      if columns[idx].id.None? {
        return None;
      }
      m := m[columns[idx].id.value := idx];
    }
    assert columns[..|columns|] == columns;
    columnMap := Some(m);
  }
}
