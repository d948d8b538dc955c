/** The delete state shared by the scan tasks: each method is one lock section, specified on plain values. */
module DeleteFilters {
  import opened Common
  import opened DeleteVectors
  import opened Predicates
  import opened EqualityDeletes

  /** A notifier, named by its index in the list of notifiers created so far. */
  type Notify = nat

  datatype EqDelState = EqLoading(notify: Notify) | EqLoaded(rowFilter: ColumnPredicate)

  datatype PosDelState = PosLoading(notify: Notify) | PosLoaded

  datatype PosDelLoadAction = Load | AlreadyLoaded | WaitFor(notify: Notify)

  /** What a notifier was created for. */
  datatype Purpose = ForPositional(file: string) | ForEquality(file: string)

  /** The state behind the lock, the notifiers created, and those whose waiters have been notified. */
  datatype FilterState = FilterState(
    vectors: map<string, set<nat>>,
    equality: map<string, EqDelState>,
    positional: map<string, PosDelState>,
    notifiers: seq<Purpose>,
    signalled: set<Notify>
  )

  const EMPTY: FilterState := FilterState(map[], map[], map[], [], {})

  // ----- the lock sections as functions -----

  function TryStartEqDelLoad(s: FilterState, file: string): (FilterState, Option<Notify>) {
    if file in s.equality then (s, None)
    else
      var n := |s.notifiers|;
      (s.(equality := s.equality[file := EqLoading(n)], notifiers := s.notifiers + [ForEquality(file)]), Some(n))
  }

  function TryStartPosDelLoad(s: FilterState, file: string): (FilterState, PosDelLoadAction) {
    if file in s.positional then
      match s.positional[file]
      case PosLoaded => (s, AlreadyLoaded)
      case PosLoading(n) => (s, WaitFor(n))
    else
      var n := |s.notifiers|;
      (s.(positional := s.positional[file := PosLoading(n)], notifiers := s.notifiers + [ForPositional(file)]), Load)
  }

  /** Marks the file loaded; the notifier found there is to be signalled outside the lock. */
  function MarkPosDelLoaded(s: FilterState, file: string): (FilterState, Option<Notify>) {
    (s.(positional := s.positional[file := PosLoaded]),
     if file in s.positional && s.positional[file].PosLoading? then Some(s.positional[file].notify) else None)
  }

  function Signal(s: FilterState, n: Notify): FilterState {
    s.(signalled := s.signalled + {n})
  }

  function VectorOf(s: FilterState, dataFile: string): set<nat> {
    if dataFile in s.vectors then s.vectors[dataFile] else {}
  }

  function UpsertDeleteVector(s: FilterState, dataFile: string, positions: set<nat>): FilterState {
    s.(vectors := s.vectors[dataFile := VectorOf(s, dataFile) + positions])
  }

  /** The first lock section of `insert_equality_delete`: a new notifier replaces whatever is there. */
  function InsertEqualityDelete(s: FilterState, file: string): (FilterState, Notify) {
    var n := |s.notifiers|;
    (s.(equality := s.equality[file := EqLoading(n)], notifiers := s.notifiers + [ForEquality(file)]), n)
  }

  /** The second one, once the predicate has arrived. */
  function StoreEqualityPredicate(s: FilterState, file: string, p: ColumnPredicate): FilterState {
    s.(equality := s.equality[file := EqLoaded(p)])
  }

  // ----- the shared object -----

  class DeleteFilter {
    var deleteVectors: map<string, DeleteVector>
    var equalityDeletes: map<string, EqDelState>
    var positionalDeletes: map<string, PosDelState>
    ghost var notifiers: seq<Purpose>
    var created: nat
    ghost var signalled: set<Notify>

    ghost predicate Valid()
      reads this, deleteVectors.Values
    {
      && created == |notifiers|
      && (forall k :: k in deleteVectors ==> deleteVectors[k].Valid())
      && (forall j, k :: j in deleteVectors && k in deleteVectors && j != k ==> deleteVectors[j] != deleteVectors[k])
    }

    /** The lock-protected state as a value. */
    ghost function State(): FilterState
      reads this, deleteVectors.Values
    {
      FilterState(Vectors(), equalityDeletes, positionalDeletes, notifiers, signalled)
    }

    ghost function Vectors(): map<string, set<nat>>
      reads this`deleteVectors, deleteVectors.Values
    {
      map k | k in deleteVectors :: deleteVectors[k].Elements()
    }

    constructor ()
      ensures Valid() && State() == EMPTY
    {
      deleteVectors, equalityDeletes, positionalDeletes := map[], map[], map[];
      notifiers, created, signalled := [], 0, {};
    }

    method TryStartEq(file: string) returns (r: Option<Notify>)
      requires Valid()
      modifies this
      ensures Valid() && deleteVectors == old(deleteVectors)
      ensures (State(), r) == TryStartEqDelLoad(old(State()), file)
    {
      if file in equalityDeletes {
        return None;
      }
      r := Some(created);
      equalityDeletes := equalityDeletes[file := EqLoading(created)];
      notifiers, created := notifiers + [ForEquality(file)], created + 1;
      assert Vectors() == old(Vectors());
    }

    method TryStartPos(file: string) returns (r: PosDelLoadAction)
      requires Valid()
      modifies this
      ensures Valid() && deleteVectors == old(deleteVectors)
      ensures (State(), r) == TryStartPosDelLoad(old(State()), file)
    {
      if file in positionalDeletes {
        match positionalDeletes[file]
        case PosLoaded => return AlreadyLoaded;
        case PosLoading(n) => return WaitFor(n);
      }
      positionalDeletes := positionalDeletes[file := PosLoading(created)];
      notifiers, created := notifiers + [ForPositional(file)], created + 1;
      assert Vectors() == old(Vectors());
      r := Load;
    }

    /** Both halves of `finish_pos_del_load`: the lock section, then the signal outside it. */
    method FinishPosDelLoad(file: string)
      requires Valid()
      modifies this
      ensures Valid() && deleteVectors == old(deleteVectors)
      ensures State() == var (s, n) := MarkPosDelLoaded(old(State()), file); if n.Some? then Signal(s, n.value) else s
    {
      var before := if file in positionalDeletes then Some(positionalDeletes[file]) else None;
      positionalDeletes := positionalDeletes[file := PosLoaded];
      if before.Some? && before.value.PosLoading? {
        signalled := signalled + {before.value.notify};
      }
      assert Vectors() == old(Vectors());
    }

    /** A new vector is stored as it is; an existing one is or-ed in place. */
    method Upsert(dataFile: string, vector: DeleteVector)
      requires Valid() && vector.Valid() && vector !in deleteVectors.Values
      modifies this, deleteVectors.Values
      ensures Valid()
      ensures State() == UpsertDeleteVector(old(State()), dataFile, old(vector.Elements()))
    {
      hide ValidTreemap, ValidBuckets, PositionSet;
      ghost var before, positions := State(), vector.Elements();
      if dataFile !in deleteVectors {
        deleteVectors := deleteVectors[dataFile := vector];
        assert Vectors() == before.vectors[dataFile := positions];
        assert positions == {} + positions;
        return;
      }
      assert deleteVectors[dataFile] in deleteVectors.Values;
      deleteVectors[dataFile].BitOrAssign(vector);
      assert Vectors() == before.vectors[dataFile := before.vectors[dataFile] + positions];
    }

    method InsertEquality(file: string) returns (n: Notify)
      requires Valid()
      modifies this
      ensures Valid() && deleteVectors == old(deleteVectors)
      ensures (State(), n) == InsertEqualityDelete(old(State()), file)
    {
      n := created;
      equalityDeletes := equalityDeletes[file := EqLoading(n)];
      notifiers, created := notifiers + [ForEquality(file)], created + 1;
      assert Vectors() == old(Vectors());
    }

    /** The spawned half of `insert_equality_delete`: store the predicate, then notify the waiters. */
    method CompleteEquality(file: string, p: ColumnPredicate, n: Notify)
      requires Valid()
      modifies this
      ensures Valid() && deleteVectors == old(deleteVectors)
      ensures State() == Signal(StoreEqualityPredicate(old(State()), file, p), n)
    {
      equalityDeletes := equalityDeletes[file := EqLoaded(p)];
      signalled := signalled + {n};
      assert Vectors() == old(Vectors());
    }

    method GetDeleteVector(dataFile: string) returns (r: Option<DeleteVector>)
      requires Valid()
      ensures r.Some? <==> dataFile in State().vectors
      ensures r.Some? ==> r.value.Valid() && r.value.Elements() == VectorOf(State(), dataFile)
    {
      r := if dataFile in deleteVectors then Some(deleteVectors[dataFile]) else None;
    }
  }

  // ----- positional delete files -----

  type Int64 = x: int | -0x8000_0000_0000_0000 <= x < 0x8000_0000_0000_0000

  /** `pos as u64`: a negative position wraps around. */
  function AsU64(pos: Int64): nat {
    pos % 0x1_0000_0000_0000_0000
  }

  type PosRow = (Option<string>, Option<Int64>)

  /** Some row gives position `p` for the data file, as it is or, from 2^63 on, 2^64 less. */
  ghost predicate Names(rows: seq<PosRow>, dataFile: string, p: nat) {
    if p < 0x8000_0000_0000_0000 then (Some(dataFile), Some(p)) in rows
    else p < 0x1_0000_0000_0000_0000 && (Some(dataFile), Some(p - 0x1_0000_0000_0000_0000)) in rows
  }

  ghost predicate NoNullRow(rows: seq<PosRow>) {
    forall i :: 0 <= i < |rows| ==> rows[i].0.Some? && rows[i].1.Some?
  }

  /** One treemap per data file named, holding exactly the positions given for it. */
  ghost predicate Groups(result: map<string, seq<Bucket>>, rows: seq<PosRow>) {
    && (forall f :: f in result ==> HoldsNamed(result[f], rows, f))
    && (forall i :: 0 <= i < |rows| && rows[i].0.Some? ==> rows[i].0.value in result)
    && (forall f :: f in result ==> exists i :: 0 <= i < |rows| && rows[i].0 == Some(f))
  }

  ghost predicate HoldsNamed(bs: seq<Bucket>, rows: seq<PosRow>, f: string) {
    ValidTreemap(bs) && forall p: nat :: p in PositionSet(bs) <==> Names(rows, f, p)
  }

  lemma NamesSnoc(rows: seq<PosRow>, f: string, pos: Int64, g: string, p: nat)
    ensures Names(rows + [(Some(f), Some(pos))], g, p) <==> Names(rows, g, p) || (g == f && p == AsU64(pos))
  {
  }

  lemma NothingNamed(rows: seq<PosRow>, f: string)
    requires forall i :: 0 <= i < |rows| ==> rows[i].0 != Some(f)
    ensures HoldsNamed([], rows, f)
  {
  }

  lemma GroupsSnoc(result: map<string, seq<Bucket>>, rows: seq<PosRow>, f: string, pos: Int64)
    requires Groups(result, rows)
    ensures var bs := if f in result then result[f] else [];
            && ValidTreemap(bs)
            && Groups(result[f := InsertPosition(bs, Hi(AsU64(pos)), Lo(AsU64(pos)))], rows + [(Some(f), Some(pos))])
  {
    hide ValidBuckets, InsertPosition, Positions, PositionSet, AsU64, Names, Hi, Lo;
    var bs := if f in result then result[f] else [];
    var more := rows + [(Some(f), Some(pos))];
    if f !in result {
      NothingNamed(rows, f);
    }
    WrapsAround(pos);
    InsertPositionSet(bs, AsU64(pos));
    forall g, p: nat
      ensures Names(more, g, p) <==> Names(rows, g, p) || (g == f && p == AsU64(pos))
    {
      NamesSnoc(rows, f, pos, g, p);
    }
    forall i | 0 <= i < |more| && more[i].0.Some?
      ensures more[i].0.value in result || more[i].0.value == f
    {
      assert i < |rows| ==> more[i] == rows[i];
    }
    forall g | g in result || g == f
      ensures exists i :: 0 <= i < |more| && more[i].0 == Some(g)
    {
      if g == f {
        assert more[|rows|].0 == Some(f);
      } else {
        var i :| 0 <= i < |rows| && rows[i].0 == Some(g);
        assert more[i] == rows[i];
      }
    }
  }

  lemma WrapsAround(pos: Int64)
    ensures AsU64(pos) < TWO_64
  {
  }

  /** The rows of all batches, one batch after the other. */
  function AllRows(stream: seq<Result<seq<PosRow>>>): seq<PosRow> {
    if stream == [] then []
    else AllRows(stream[..|stream| - 1]) + (if stream[|stream| - 1].Ok? then stream[|stream| - 1].value else [])
  }

  ghost predicate InStream(stream: seq<Result<seq<PosRow>>>, row: PosRow) {
    exists b :: 0 <= b < |stream| && stream[b].Ok? && row in stream[b].value
  }

  lemma {:induction false} AllRowsMember(stream: seq<Result<seq<PosRow>>>, row: PosRow)
    ensures row in AllRows(stream) <==> InStream(stream, row)
  {
    if stream != [] {
      var front, last := stream[..|stream| - 1], stream[|stream| - 1];
      AllRowsMember(front, row);
      assert stream == front + [last];
      if InStream(front, row) {
        var b :| 0 <= b < |front| && front[b].Ok? && row in front[b].value;
        assert stream[b] == front[b];
      }
    }
  }

  /** Batch `b` can be read and holds no null. */
  ghost predicate Clean(batch: Result<seq<PosRow>>) {
    batch.Ok? && NoNullRow(batch.value)
  }

  /** Success means that every batch can be read and holds no null, and then the treemap of a data file holds a position
      if and only if some row of some batch gives it. */
  method ParsePositionalDeletes(stream: seq<Result<seq<PosRow>>>) returns (r: Result<map<string, seq<Bucket>>>)
    ensures r.Ok? <==> forall b :: 0 <= b < |stream| ==> Clean(stream[b])
    ensures r.Ok? ==> Groups(r.value, AllRows(stream))
    ensures forall row :: row in AllRows(stream) <==> InStream(stream, row)
  {
    forall row
      ensures row in AllRows(stream) <==> InStream(stream, row)
    {
      AllRowsMember(stream, row);
    }
    var result: map<string, seq<Bucket>> := map[];
    for b := 0 to |stream|
      invariant Groups(result, AllRows(stream[..b]))
      invariant forall c :: 0 <= c < b ==> Clean(stream[c])
    {
      assert stream[..b + 1][..b] == stream[..b];
      if stream[b].Err? {
        return Err(stream[b].error);
      }
      var batch := stream[b].value;
      var more, ok := ParseBatch(result, batch, AllRows(stream[..b]));
      if !ok {
        return Err(DataInvalid);
      }
      result := more;
    }
    assert stream[..|stream|] == stream;
    r := Ok(result);
  }

  method ParseBatch(soFar: map<string, seq<Bucket>>, batch: seq<PosRow>, ghost rows: seq<PosRow>)
    returns (result: map<string, seq<Bucket>>, ok: bool)
    requires Groups(soFar, rows)
    ensures ok <==> NoNullRow(batch)
    ensures ok ==> Groups(result, rows + batch)
  {
    hide Groups, InsertPosition, ValidTreemap;
    result := soFar;
    assert rows + batch[..0] == rows;
    for i := 0 to |batch|
      invariant forall j :: 0 <= j < i ==> batch[j].0.Some? && batch[j].1.Some?
      invariant Groups(result, rows + batch[..i])
    {
      if batch[i].0.None? || batch[i].1.None? {
        return result, false;
      }
      var f, pos := batch[i].0.value, batch[i].1.value;
      NextRow(rows, batch, i, f, pos);
      GroupsSnoc(result, rows + batch[..i], f, pos);
      result := result[f := InsertPosition(if f in result then result[f] else [], Hi(AsU64(pos)), Lo(AsU64(pos)))];
    }
    assert batch[..|batch|] == batch;
    ok := true;
  }

  lemma NextRow(rows: seq<PosRow>, batch: seq<PosRow>, i: nat, f: string, pos: Int64)
    requires i < |batch| && batch[i] == (Some(f), Some(pos))
    ensures rows + batch[..i + 1] == (rows + batch[..i]) + [(Some(f), Some(pos))]
  {
  }

  // ----- the equality predicate of one task -----

  /** `lookups` are the awaited predicates of a scan task's equality delete files, None for one nobody registered. */
  method BuildEqualityDeletePredicate(lookups: seq<Option<ColumnPredicate>>) returns (r: Result<Option<ColumnPredicate>>)
    ensures r.Err? <==> exists i :: 0 <= i < |lookups| && lookups[i].None?
    ensures r.Ok? ==> forall i :: 0 <= i < |lookups| ==> lookups[i].Some?
    ensures r.Ok? ==> r.value == var p := LeftFold(Values(lookups)); if p.AlwaysTrue? then None else Some(p)
  {
    var combined: ColumnPredicate := AlwaysTrue;
    for i := 0 to |lookups|
      invariant forall j :: 0 <= j < i ==> lookups[j].Some?
      invariant combined == LeftFold(Values(lookups[..i]))
    {
      if lookups[i].None? {
        return Err(Unexpected);
      }
      assert lookups[..i + 1][..i] == lookups[..i];
      assert Values(lookups[..i + 1]) == Values(lookups[..i]) + [lookups[i].value];
      assert Values(lookups[..i + 1])[..i] == Values(lookups[..i]);
      combined := MkAnd(combined, lookups[i].value);
    }
    assert lookups[..|lookups|] == lookups;
    r := Ok(if combined.AlwaysTrue? then None else Some(combined));
  }

  function Values(lookups: seq<Option<ColumnPredicate>>): seq<ColumnPredicate>
    requires forall i :: 0 <= i < |lookups| ==> lookups[i].Some?
  {
    seq(|lookups|, i requires 0 <= i < |lookups| => lookups[i].value)
  }

  /** The delete rows of file `i`. */
  ghost predicate CompiledFiles(preds: seq<ColumnPredicate>, files: seq<seq<DeleteRow>>) {
    |preds| == |files| && forall i :: 0 <= i < |preds| ==> Compiled(preds[i], files[i])
  }

  ghost predicate AnyFileMatches(files: seq<seq<DeleteRow>>, row: string -> Option<Datum>) {
    exists i, d :: 0 <= i < |files| && d in files[i] && Matches(d, row)
  }

  ghost predicate DiffersFromAllFiles(files: seq<seq<DeleteRow>>, row: string -> Option<Datum>) {
    forall i, d :: 0 <= i < |files| && d in files[i] ==> DiffersVisibly(d, row)
  }

  /** Over all its equality delete files, a scan task's predicate is false exactly on rows some file deletes, and true
      exactly on rows that visibly differ from every delete row of every file. No files, or only empty ones, means no
      predicate, and then every row is kept. */
  lemma {:induction false} TaskPredicateMeans(preds: seq<ColumnPredicate>, files: seq<seq<DeleteRow>>,
                                              row: string -> Option<Datum>)
    requires CompiledFiles(preds, files)
    ensures Meaning(LeftFold(preds), row, Kleene) == Some(false) <==> AnyFileMatches(files, row)
    ensures Meaning(LeftFold(preds), row, Kleene) == Some(true) <==> DiffersFromAllFiles(files, row)
  {
    if preds != [] {
      var n := |preds| - 1;
      TaskPredicateMeans(preds[..n], files[..n], row);
      MkAndMeaning(LeftFold(preds[..n]), preds[n], row, Kleene);
      CompiledKleene(preds[n], files[n], row);
      FilesSnoc(files[..n], files[n], row);
      assert files == files[..n] + [files[n]];
      hide Compiled, Matches, DiffersVisibly, AnyFileMatches, DiffersFromAllFiles;
    }
  }

  lemma FilesSnoc(files: seq<seq<DeleteRow>>, last: seq<DeleteRow>, row: string -> Option<Datum>)
    ensures AnyFileMatches(files + [last], row) <==> AnyFileMatches(files, row) || exists d :: d in last && Matches(d, row)
    ensures DiffersFromAllFiles(files + [last], row)
       <==> DiffersFromAllFiles(files, row) && forall d :: d in last ==> DiffersVisibly(d, row)
  {
    hide Matches, DiffersVisibly;
    var all := files + [last];
    assert all[|files|] == last && forall i :: 0 <= i < |files| ==> all[i] == files[i];
    if i, d :| 0 <= i < |files| && d in files[i] && Matches(d, row) {
      assert all[i] == files[i];
    }
  }
}
