/** The index from data files to the delete files that apply to them, as a faster form of a flat scan. */
module DeleteFileIndex {
  import opened Common

  datatype Content = Data | PositionDeletes | EqualityDeletes

  type Partition = seq<int>

  datatype DeleteFile = DeleteFile(
    path: string,
    content: Content,
    partition: Partition,
    specId: int,
    sequence: Option<int>
  )

  datatype DataFile = DataFile(partition: Partition, specId: int)

  /** Where a delete file is kept. */
  datatype Bucket = Global | Equality(partition: Partition) | Positional(partition: Partition)

  function BucketOf(f: DeleteFile): Bucket {
    if f.partition == [] && f.content != PositionDeletes then Global
    else if f.content == PositionDeletes then Positional(f.partition)
    else Equality(f.partition)
  }

  /** There is no bucket for a partitioned file that is neither kind of delete. */
  ghost predicate AllIndexable(files: seq<DeleteFile>) {
    forall f :: f in files && f.content == Data ==> f.partition == []
  }

  // ----- the flat scan -----

  function Keep(files: seq<DeleteFile>, test: DeleteFile -> bool): seq<DeleteFile> {
    if files == [] then []
    else Keep(files[..|files| - 1], test) + Kept(files[|files| - 1], test)
  }

  function Kept(f: DeleteFile, test: DeleteFile -> bool): seq<DeleteFile> {
    if test(f) then [f] else []
  }

  lemma {:induction false} KeepSnoc(files: seq<DeleteFile>, f: DeleteFile, test: DeleteFile -> bool)
    ensures Keep(files + [f], test) == Keep(files, test) + Kept(f, test)
  {
    assert (files + [f])[..|files|] == files;
  }

  /** Filtering is file by file and keeps the order: with `KeepSnoc` and this, it is the subsequence of the files
      kept. */
  lemma {:induction false} KeepConcat(files: seq<DeleteFile>, more: seq<DeleteFile>, test: DeleteFile -> bool)
    ensures Keep(files + more, test) == Keep(files, test) + Keep(more, test)
  {
    KeepNone(test);
    hide Keep, Kept;
    if more == [] {
      assert files + more == files && Keep(files, test) + [] == Keep(files, test);
    } else {
      var front, last := more[..|more| - 1], more[|more| - 1];
      KeepConcat(files, front, test);
      assert files + more == (files + front) + [last] && more == front + [last];
      KeepSnoc(files + front, last, test);
      KeepSnoc(front, last, test);
      ConcatAssociative(Keep(files, test), Keep(front, test), Kept(last, test));
    }
  }

  /** Each file is kept as often as it occurs, or not at all. */
  lemma {:induction false} KeepCount(files: seq<DeleteFile>, test: DeleteFile -> bool, f: DeleteFile)
    ensures multiset(Keep(files, test))[f] == if test(f) then multiset(files)[f] else 0
  {
    if files != [] {
      var front, last := files[..|files| - 1], files[|files| - 1];
      KeepCount(front, test, f);
      assert files == front + [last];
    }
  }

  /** `delete.sequence_number() > Some(seq)`, where an absent number is below every present one. */
  predicate Newer(f: DeleteFile, seqNum: Option<int>) {
    seqNum.Some? ==> f.sequence.Some? && f.sequence.value > seqNum.value
  }

  predicate NotOlder(f: DeleteFile, seqNum: Option<int>) {
    seqNum.Some? ==> f.sequence.Some? && f.sequence.value >= seqNum.value
  }

  /** The rule a scan of all delete files would apply to each. */
  predicate Applies(f: DeleteFile, d: DataFile, seqNum: Option<int>) {
    match f.content
    case PositionDeletes => f.partition == d.partition && f.specId == d.specId && NotOlder(f, seqNum)
    case _ =>
      Newer(f, seqNum) && (f.partition == [] || (f.partition == d.partition && f.specId == d.specId))
  }

  function InBucket(b: Bucket): DeleteFile -> bool {
    f => BucketOf(f) == b
  }

  function Applying(d: DataFile, seqNum: Option<int>): DeleteFile -> bool {
    f => Applies(f, d, seqNum)
  }

  function Both(b: Bucket, d: DataFile, seqNum: Option<int>): DeleteFile -> bool {
    f => BucketOf(f) == b && Applies(f, d, seqNum)
  }

  // ----- the index -----

  datatype Index = Index(
    globalEqualityDeletes: seq<DeleteFile>,
    eqDeletesByPartition: map<Partition, seq<DeleteFile>>,
    posDeletesByPartition: map<Partition, seq<DeleteFile>>
  ) {
    function Contents(b: Bucket): seq<DeleteFile> {
      match b
      case Global => globalEqualityDeletes
      case Equality(p) => if p in eqDeletesByPartition then eqDeletesByPartition[p] else []
      case Positional(p) => if p in posDeletesByPartition then posDeletesByPartition[p] else []
    }
  }

  /** Each bucket holds exactly the input's files that belong there, in input order. */
  ghost predicate Indexes(index: Index, files: seq<DeleteFile>) {
    forall b :: index.Contents(b) == Keep(files, InBucket(b))
  }

  /** Fails exactly on a file that has no bucket. */
  method New(files: seq<DeleteFile>) returns (index: Option<Index>)
    ensures index.Some? <==> AllIndexable(files)
    ensures index.Some? ==> Indexes(index.value, files)
  {
    var eqDeletes: map<Partition, seq<DeleteFile>> := map[];
    var posDeletes: map<Partition, seq<DeleteFile>> := map[];
    var global: seq<DeleteFile> := [];
    for i := 0 to |files|
      invariant Indexes(Index(global, eqDeletes, posDeletes), files[..i]) && AllIndexable(files[..i])
    {
      var f := files[i];
      ghost var before := Index(global, eqDeletes, posDeletes);
      assert files[..i + 1] == files[..i] + [f];
      var partition := f.partition;
      if partition == [] && f.content != PositionDeletes {
        global := global + [f];
      } else if f.content == PositionDeletes {
        posDeletes := posDeletes[partition := (if partition in posDeletes then posDeletes[partition] else []) + [f]];
      } else if f.content == EqualityDeletes {
        eqDeletes := eqDeletes[partition := (if partition in eqDeletes then eqDeletes[partition] else []) + [f]];
      } else {
        assert f in files;
        return None;
      }
      IndexesSnoc(before, Index(global, eqDeletes, posDeletes), files[..i], f);
    }
    assert files[..|files|] == files;
    index := Some(Index(global, eqDeletes, posDeletes));
  }

  lemma IndexesSnoc(before: Index, after: Index, files: seq<DeleteFile>, f: DeleteFile)
    requires Indexes(before, files)
    requires forall b :: after.Contents(b) == before.Contents(b) + if b == BucketOf(f) then [f] else []
    ensures Indexes(after, files + [f])
  {
    forall b
      ensures after.Contents(b) == Keep(files + [f], InBucket(b))
    {
      KeepSnoc(files, f, InBucket(b));
    }
  }

  function AddTo(index: Index, f: DeleteFile): Index {
    var b := BucketOf(f);
    var here := index.Contents(b) + [f];
    match b
    case Global => index.(globalEqualityDeletes := here)
    case Equality(p) => index.(eqDeletesByPartition := index.eqDeletesByPartition[p := here])
    case Positional(p) => index.(posDeletesByPartition := index.posDeletesByPartition[p := here])
  }

  lemma AddToContents(index: Index, f: DeleteFile, b: Bucket)
    ensures AddTo(index, f).Contents(b) == index.Contents(b) + if b == BucketOf(f) then [f] else []
  {
    if b != BucketOf(f) {
      assert index.Contents(b) + [] == index.Contents(b);
    }
  }

  lemma {:induction false} IndexExists(files: seq<DeleteFile>) returns (index: Index)
    ensures Indexes(index, files)
  {
    if files == [] {
      index := Index([], map[], map[]);
    } else {
      var front, last := files[..|files| - 1], files[|files| - 1];
      var before := IndexExists(front);
      assert files == front + [last];
      index := AddTo(before, last);
      hide AddTo, Indexes, BucketOf, Index.Contents;
      forall b
        ensures index.Contents(b) == before.Contents(b) + if b == BucketOf(last) then [last] else []
      {
        AddToContents(before, last, b);
      }
      IndexesSnoc(before, index, front, last);
    }
  }

  /** Every input file is in exactly one bucket, its own. */
  lemma {:induction false} InOneBucket(files: seq<DeleteFile>, index: Index, f: DeleteFile, b: Bucket)
    requires Indexes(index, files)
    ensures f in index.Contents(b) <==> f in files && b == BucketOf(f)
  {
    KeepMember(files, InBucket(b), f);
  }

  lemma {:induction false} KeepMember(files: seq<DeleteFile>, test: DeleteFile -> bool, f: DeleteFile)
    ensures f in Keep(files, test) <==> f in files && test(f)
  {
    if files != [] {
      KeepMember(files[..|files| - 1], test, f);
      assert files == files[..|files| - 1] + [files[|files| - 1]];
    }
  }

  /** One of the three filtering loops: strict sequence order for equality deletes, and the spec id checked everywhere
      but in the global bucket. */
  method PushApplicable(results: seq<DeleteFile>, bucket: seq<DeleteFile>, d: DataFile, seqNum: Option<int>,
                        strict: bool, checkSpec: bool)
    returns (more: seq<DeleteFile>)
    ensures more == results + Keep(bucket, Passes(d, seqNum, strict, checkSpec))
    ensures forall f :: multiset(more)[f] == multiset(results)[f] +
              if && (seqNum.Some? && strict ==> f.sequence.Some? && f.sequence.value > seqNum.value)
                 && (seqNum.Some? && !strict ==> f.sequence.Some? && f.sequence.value >= seqNum.value)
                 && (checkSpec ==> f.specId == d.specId)
              then multiset(bucket)[f] else 0
  {
    forall f {
      KeepCount(bucket, Passes(d, seqNum, strict, checkSpec), f);
    }
    hide Keep;
    KeepNone(Passes(d, seqNum, strict, checkSpec));
    more := results;
    for i := 0 to |bucket|
      invariant more == results + Keep(bucket[..i], Passes(d, seqNum, strict, checkSpec))
    {
      assert bucket[..i + 1] == bucket[..i] + [bucket[i]];
      KeepSnoc(bucket[..i], bucket[i], Passes(d, seqNum, strict, checkSpec));
      var f := bucket[i];
      if (if strict then Newer(f, seqNum) else NotOlder(f, seqNum)) && (checkSpec ==> d.specId == f.specId) {
        more := more + [f];
      }
    }
    assert bucket[..|bucket|] == bucket;
  }

  function Passes(d: DataFile, seqNum: Option<int>, strict: bool, checkSpec: bool): DeleteFile -> bool {
    f => (if strict then Newer(f, seqNum) else NotOlder(f, seqNum)) && (checkSpec ==> d.specId == f.specId)
  }

  lemma AppliedCount(files: seq<DeleteFile>, d: DataFile, seqNum: Option<int>, f: DeleteFile)
    ensures multiset(Keep(files, Applying(d, seqNum)))[f] ==
              if f.content.PositionDeletes? then
                if && f.partition == d.partition && f.specId == d.specId
                   && (seqNum.Some? ==> f.sequence.Some? && f.sequence.value >= seqNum.value)
                then multiset(files)[f] else 0
              else
                if && (f.partition == [] || (f.partition == d.partition && f.specId == d.specId))
                   && (seqNum.Some? ==> f.sequence.Some? && f.sequence.value > seqNum.value)
                then multiset(files)[f] else 0
  {
    KeepCount(files, Applying(d, seqNum), f);
  }

  /** The lookup: global, then equality, then positional, each in input order; together the files that the flat scan
      keeps. */
  method DeletesForDataFile(index: Index, d: DataFile, seqNum: Option<int>, ghost files: seq<DeleteFile>)
    returns (results: seq<DeleteFile>)
    requires Indexes(index, files)
    ensures results == Keep(files, Both(Global, d, seqNum))
                     + Keep(files, Both(Equality(d.partition), d, seqNum))
                     + Keep(files, Both(Positional(d.partition), d, seqNum))
    ensures multiset(results) == multiset(Keep(files, Applying(d, seqNum)))
    ensures forall f :: multiset(results)[f] ==
              if f.content.PositionDeletes? then
                if && f.partition == d.partition && f.specId == d.specId
                   && (seqNum.Some? ==> f.sequence.Some? && f.sequence.value >= seqNum.value)
                then multiset(files)[f] else 0
              else
                if && (f.partition == [] || (f.partition == d.partition && f.specId == d.specId))
                   && (seqNum.Some? ==> f.sequence.Some? && f.sequence.value > seqNum.value)
                then multiset(files)[f] else 0
  {
    forall f {
      AppliedCount(files, d, seqNum, f);
    }
    LookupIsFlatScan(files, d, seqNum);
    BucketLookups(index, d, seqNum, files);
    hide Keep, InBucket, Both, Passes, Indexes, Applying;
    results := PushApplicable([], index.globalEqualityDeletes, d, seqNum, true, false);
    ghost var first := Keep(files, Both(Global, d, seqNum));
    assert results == first;
    if d.partition in index.eqDeletesByPartition {
      results := PushApplicable(results, index.eqDeletesByPartition[d.partition], d, seqNum, true, true);
    }
    ghost var second := Keep(files, Both(Equality(d.partition), d, seqNum));
    assert results == first + second;
    if d.partition in index.posDeletesByPartition {
      results := PushApplicable(results, index.posDeletesByPartition[d.partition], d, seqNum, false, true);
    }
    assert results == (first + second) + Keep(files, Both(Positional(d.partition), d, seqNum));
  }

  /** What each of the three loops contributes. */
  lemma BucketLookups(index: Index, d: DataFile, seqNum: Option<int>, files: seq<DeleteFile>)
    requires Indexes(index, files)
    ensures Keep(index.globalEqualityDeletes, Passes(d, seqNum, true, false)) == Keep(files, Both(Global, d, seqNum))
    ensures (if d.partition in index.eqDeletesByPartition
             then Keep(index.eqDeletesByPartition[d.partition], Passes(d, seqNum, true, true)) else [])
         == Keep(files, Both(Equality(d.partition), d, seqNum))
    ensures (if d.partition in index.posDeletesByPartition
             then Keep(index.posDeletesByPartition[d.partition], Passes(d, seqNum, false, true)) else [])
         == Keep(files, Both(Positional(d.partition), d, seqNum))
  {
    assert index.Contents(Global) == Keep(files, InBucket(Global));
    assert index.Contents(Equality(d.partition)) == Keep(files, InBucket(Equality(d.partition)));
    assert index.Contents(Positional(d.partition)) == Keep(files, InBucket(Positional(d.partition)));
    KeepKeep(files, Global, d, seqNum, true, false);
    KeepKeep(files, Equality(d.partition), d, seqNum, true, true);
    KeepKeep(files, Positional(d.partition), d, seqNum, false, true);
    KeepNone(Passes(d, seqNum, true, true));
    KeepNone(Passes(d, seqNum, false, true));
  }

  lemma KeepNone(test: DeleteFile -> bool)
    ensures Keep([], test) == []
  {
  }

  /** Filtering twice is filtering by both tests. */
  lemma {:induction false} KeepTwice(files: seq<DeleteFile>, first: DeleteFile -> bool, second: DeleteFile -> bool,
                                     both: DeleteFile -> bool)
    requires forall f :: both(f) <==> first(f) && second(f)
    ensures Keep(Keep(files, first), second) == Keep(files, both)
  {
    if files != [] {
      var front, last := files[..|files| - 1], files[|files| - 1];
      KeepTwice(front, first, second, both);
      assert files == front + [last];
      assert Kept(last, first) == if first(last) then [last] else [];
      assert Kept(last, both) == if first(last) then Kept(last, second) else [];
      var kept := Keep(front, first);
      hide Keep, Kept;
      KeepSnoc(front, last, first);
      KeepSnoc(front, last, both);
      if first(last) {
        KeepSnoc(kept, last, second);
      } else {
        assert kept + [] == kept && Keep(front, both) + [] == Keep(front, both);
      }
    }
  }

  /** Filtering a bucket by the loop's test is filtering all files by bucket and rule. */
  lemma KeepKeep(files: seq<DeleteFile>, b: Bucket, d: DataFile, seqNum: Option<int>, strict: bool, checkSpec: bool)
    requires match b
             case Global => strict && !checkSpec
             case Equality(p) => strict && checkSpec && p == d.partition
             case Positional(p) => !strict && checkSpec && p == d.partition
    ensures Keep(Keep(files, InBucket(b)), Passes(d, seqNum, strict, checkSpec)) == Keep(files, Both(b, d, seqNum))
  {
    KeepTwice(files, InBucket(b), Passes(d, seqNum, strict, checkSpec), Both(b, d, seqNum));
  }

  /** Only the three buckets looked up can hold an applicable file. */
  lemma OnlyThreeBuckets(f: DeleteFile, d: DataFile, seqNum: Option<int>)
    requires Applies(f, d, seqNum)
    ensures BucketOf(f) == Global || BucketOf(f) == Equality(d.partition) || BucketOf(f) == Positional(d.partition)
  {
  }

  /** The lookup returns the applicable files of the flat scan, with no loss and no duplication. */
  lemma LookupIsFlatScan(files: seq<DeleteFile>, d: DataFile, seqNum: Option<int>)
    ensures multiset(Keep(files, Both(Global, d, seqNum))
                   + Keep(files, Both(Equality(d.partition), d, seqNum))
                   + Keep(files, Both(Positional(d.partition), d, seqNum)))
         == multiset(Keep(files, Applying(d, seqNum)))
  {
    forall f
      ensures multiset(Keep(files, Both(Global, d, seqNum)))[f]
            + multiset(Keep(files, Both(Equality(d.partition), d, seqNum)))[f]
            + multiset(Keep(files, Both(Positional(d.partition), d, seqNum)))[f]
           == multiset(Keep(files, Applying(d, seqNum)))[f]
    {
      KeepCount(files, Both(Global, d, seqNum), f);
      KeepCount(files, Both(Equality(d.partition), d, seqNum), f);
      KeepCount(files, Both(Positional(d.partition), d, seqNum), f);
      KeepCount(files, Applying(d, seqNum), f);
      if Applies(f, d, seqNum) {
        OnlyThreeBuckets(f, d, seqNum);
      }
    }
    hide *;
  }

  // ----- populating the index while lookups wait -----

  datatype IndexState = Populating | Populated(index: Index)

  /** A lookup that finds the index populating picks up the notifier, and then waits on it. */
  datatype Lookup = Asking | Picked | Waiting(late: bool) | Answered(index: Index) | Unreachable

  /** The job that collects the files: it stores the index under the lock, then notifies. */
  datatype Populator = Collecting | Stored | Notified

  datatype World = World(state: IndexState, populator: Populator, lookups: seq<Lookup>)

  ghost predicate Init(w: World) {
    w.state.Populating? && w.populator.Collecting? && forall i :: 0 <= i < |w.lookups| ==> w.lookups[i].Asking?
  }

  /** The job dies on a file that has no bucket. */
  ghost predicate Populates(files: seq<DeleteFile>, w: World, w': World) {
    && w'.lookups == w.lookups
    && match w.populator
       case Collecting =>
         AllIndexable(files) && w'.populator == Stored && w'.state.Populated? && Indexes(w'.state.index, files)
       case Stored => w'.populator == Notified && w'.state == w.state
       case Notified => false
  }

  function Answer(state: IndexState, otherwise: Lookup): Lookup {
    if state.Populated? then Answered(state.index) else otherwise
  }

  /** A lookup reads the state, and if it must wait, reads it again once notified; a signal is not remembered for it. */
  ghost predicate LooksUp(w: World, w': World, k: nat) {
    && k < |w.lookups| && w'.state == w.state && w'.populator == w.populator
    && match w.lookups[k]
       case Asking => w'.lookups == w.lookups[k := Answer(w.state, Picked)]
       case Picked => w'.lookups == w.lookups[k := Waiting(w.populator.Notified?)]
       case Waiting(late) =>
         w.populator.Notified? && !late && w'.lookups == w.lookups[k := Answer(w.state, Unreachable)]
       case _ => false
  }

  ghost predicate Step(files: seq<DeleteFile>, w: World, w': World) {
    Populates(files, w, w') || exists k: nat :: LooksUp(w, w', k)
  }

  ghost predicate Run(files: seq<DeleteFile>, run: seq<World>) {
    run != [] && Init(run[0]) && Continues(files, run[0], run)
  }

  /** A finite interleaving from `w` on. */
  ghost predicate Continues(files: seq<DeleteFile>, w: World, more: seq<World>) {
    && more != [] && more[0] == w
    && forall i, j :: 0 <= i < |more| - 1 && j == i + 1 ==> Step(files, more[i], more[j])
  }

  ghost predicate Inv(files: seq<DeleteFile>, w: World) {
    && (w.populator.Collecting? <==> w.state.Populating?)
    && (w.state.Populated? ==> Indexes(w.state.index, files))
    && forall i :: 0 <= i < |w.lookups| ==>
         !w.lookups[i].Unreachable? && (w.lookups[i].Answered? ==> w.state == Populated(w.lookups[i].index))
  }

  lemma StepInv(files: seq<DeleteFile>, w: World, w': World)
    requires Inv(files, w) && Step(files, w, w')
    ensures Inv(files, w')
  {
    hide Indexes;
    if !Populates(files, w, w') {
      var k: nat :| LooksUp(w, w', k);
    }
  }

  /** In every interleaving a lookup that wakes finds the index populated, and all answers come from one index, the
      index of the collected files. */
  lemma {:induction false} LookupsAgree(files: seq<DeleteFile>, run: seq<World>, i: nat)
    requires Run(files, run) && i < |run|
    ensures Inv(files, run[i])
    ensures forall k :: 0 <= k < |run[i].lookups| ==> !run[i].lookups[k].Unreachable?
    ensures forall j, k :: 0 <= j < |run[i].lookups| && 0 <= k < |run[i].lookups|
              && run[i].lookups[j].Answered? && run[i].lookups[k].Answered?
              ==> run[i].lookups[j] == run[i].lookups[k] && Indexes(run[i].lookups[j].index, files)
  {
    hide Indexes;
    if i > 0 {
      LookupsAgree(files, run, i - 1);
      StepInv(files, run[i - 1], run[i]);
    }
  }

  // ----- when a lookup is still answered -----

  /** The signal has been given and the lookup was not waiting, or the job has died. */
  ghost predicate Lost(files: seq<DeleteFile>, w: World, l: Lookup) {
    || (l.Picked? && w.populator.Notified?)
    || (l.Waiting? && l.late)
    || (w.populator.Collecting? && !AllIndexable(files))
  }

  ghost predicate AnsweredIn(files: seq<DeleteFile>, w: World, more: seq<World>, k: nat) {
    Continues(files, w, more) && k < |more[|more| - 1].lookups| && more[|more| - 1].lookups[k].Answered?
  }

  lemma LostStays(files: seq<DeleteFile>, w: World, w': World, k: nat)
    requires Inv(files, w) && Step(files, w, w') && k < |w.lookups|
    requires !w.lookups[k].Answered? && Lost(files, w, w.lookups[k])
    ensures k < |w'.lookups| && !w'.lookups[k].Answered? && Lost(files, w', w'.lookups[k])
  {
    hide Indexes, AllIndexable;
    if !Populates(files, w, w') {
      var j: nat :| LooksUp(w, w', j);
    }
  }

  lemma {:induction false} LostForever(files: seq<DeleteFile>, w: World, more: seq<World>, k: nat, j: nat)
    requires Inv(files, w) && Continues(files, w, more) && j < |more|
    requires k < |w.lookups| && !w.lookups[k].Answered? && Lost(files, w, w.lookups[k])
    ensures Inv(files, more[j])
    ensures k < |more[j].lookups| && !more[j].lookups[k].Answered? && Lost(files, more[j], more[j].lookups[k])
  {
    hide Inv, Lost, Step;
    if j > 0 {
      LostForever(files, w, more, k, j - 1);
      assert Step(files, more[j - 1], more[j]);
      LostStays(files, more[j - 1], more[j], k);
      StepInv(files, more[j - 1], more[j]);
    }
  }

  /** What is still to be done before lookup `l` has its answer. */
  function Remaining(w: World, l: Lookup): nat {
    (match w.populator
     case Collecting => 2
     case Stored => 1
     case Notified => 0)
    + if l.Picked? then 2 else 1
  }

  /** A step that brings the lookup nearer to its answer. */
  lemma NextStep(files: seq<DeleteFile>, w: World, k: nat) returns (w': World)
    requires Inv(files, w) && k < |w.lookups| && !w.lookups[k].Answered? && !Lost(files, w, w.lookups[k])
    ensures Step(files, w, w') && k < |w'.lookups|
    ensures w'.lookups[k].Answered? || (!Lost(files, w', w'.lookups[k])
              && Remaining(w', w'.lookups[k]) < Remaining(w, w.lookups[k]))
  {
    var l := w.lookups[k];
    if l.Picked? {
      w' := w.(lookups := w.lookups[k := Waiting(false)]);
      assert LooksUp(w, w', k);
    } else if w.state.Populated? && (l.Asking? || w.populator.Notified?) {
      w' := w.(lookups := w.lookups[k := Answered(w.state.index)]);
      assert LooksUp(w, w', k);
    } else if w.populator.Collecting? {
      var index := IndexExists(files);
      w' := w.(state := Populated(index), populator := Stored);
    } else {
      w' := w.(populator := Notified);
    }
  }

  lemma {:induction false} Answerable(files: seq<DeleteFile>, w: World, k: nat) returns (more: seq<World>)
    requires Inv(files, w) && k < |w.lookups| && !w.lookups[k].Answered? && !Lost(files, w, w.lookups[k])
    ensures AnsweredIn(files, w, more, k)
    decreases Remaining(w, w.lookups[k])
  {
    hide Inv, Lost, Step, Remaining;
    var w' := NextStep(files, w, k);
    if w'.lookups[k].Answered? {
      more := [w, w'];
    } else {
      StepInv(files, w, w');
      var rest := Answerable(files, w', k);
      more := [w] + rest;
      forall i, j | 0 <= i < |more| - 1 && j == i + 1
        ensures Step(files, more[i], more[j])
      {
        if i > 0 {
          assert more[i] == rest[i - 1] && more[j] == rest[i];
        }
      }
    }
  }

  /** At any moment of any run, a lookup without an answer gets one in some continuation if and only if it is not late,
      and every file has a bucket unless the index is there already. */
  lemma AnsweredIffNotLost(files: seq<DeleteFile>, run: seq<World>, i: nat, k: nat)
    requires Run(files, run) && i < |run| && k < |run[i].lookups| && !run[i].lookups[k].Answered?
    ensures (exists more :: AnsweredIn(files, run[i], more, k)) <==> !Lost(files, run[i], run[i].lookups[k])
  {
    LookupsAgree(files, run, i);
    var w := run[i];
    hide Inv, Lost, Step, Run;
    if Lost(files, w, w.lookups[k]) {
      forall more
        ensures !AnsweredIn(files, w, more, k)
      {
        if Continues(files, w, more) {
          LostForever(files, w, more, k, |more| - 1);
        }
      }
    } else {
      var more := Answerable(files, w, k);
    }
  }

  /** A lookup is late when the index is stored and signalled between its two steps. */
  lemma LateLookupReachable(files: seq<DeleteFile>) returns (run: seq<World>)
    requires AllIndexable(files)
    ensures Run(files, run) && |run| == 5 && run[4].lookups == [Waiting(true)]
  {
    var index := IndexExists(files);
    hide Indexes;
    var start := World(Populating, Collecting, [Asking]);
    var picked := World(Populating, Collecting, [Picked]);
    var stored := World(Populated(index), Stored, [Picked]);
    var signalled := World(Populated(index), Notified, [Picked]);
    var late := World(Populated(index), Notified, [Waiting(true)]);
    assert LooksUp(start, picked, 0) && LooksUp(signalled, late, 0);
    run := [start, picked, stored, signalled, late];
  }
}
