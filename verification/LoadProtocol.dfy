/**
 The delete loading protocol: scan tasks that share one delete filter, interleaved one lock section
 (or one notification) at a time.
 */
module LoadProtocol {
  import opened Common
  import opened EqualityDeletes
  import opened DeleteFilters

  /** What the immutable delete files hold once parsed. */
  datatype Files = Files(positional: string -> map<string, set<nat>>, equality: string -> ColumnPredicate)

  /** One delete file being taken care of by one task, or one task asking for an equality predicate. */
  datatype Process =
    // positional delete file of a task
    | PosNew(file: string)
    | PosParsing(file: string)                      // granted Load
    | PosMerging(file: string, todo: set<string>)   // data files whose vectors are still to be upserted
    | PosNotifying(file: string, found: Option<Notify>)
    | PosOwnerDone(file: string, found: Option<Notify>)
    | PosOwnerFailed(file: string)
    | PosPicked(file: string, notify: Notify)       // holds the notifier, does not wait on it yet
    | PosWaiting(file: string, notify: Notify, late: bool)
    | PosDone(file: string)
    // equality delete file of a task
    | EqNew(file: string)
    | EqWon(file: string)
    | EqParsing(file: string, notify: Notify)       // a second notifier has been put in place
    | EqNotifying(file: string, notify: Notify)
    | EqOwnerDone(file: string)
    | EqOwnerFailed(file: string)
    | EqSkipped(file: string)
    // reader of an equality predicate
    | ReadNew(file: string)
    | ReadPicked(file: string, notify: Notify)
    | ReadWaiting(file: string, notify: Notify, late: bool)
    | ReadGot(file: string, result: ColumnPredicate)
    | ReadMissing(file: string)
    | ReadUnreachable(file: string)
  {
    /** Was granted the positional load of its file. */
    predicate OwnsPos() {
      PosParsing? || PosMerging? || PosNotifying? || PosOwnerDone? || PosOwnerFailed?
    }

    /** Won the equality load of its file. */
    predicate OwnsEq() {
      EqWon? || EqParsing? || EqNotifying? || EqOwnerDone? || EqOwnerFailed?
    }

    predicate New() {
      PosNew? || EqNew? || ReadNew?
    }

    /** Takes care of a positional delete file. */
    predicate Positional() {
      OwnsPos() || PosNew? || PosPicked? || PosWaiting? || PosDone?
    }

    /** Must be notified to go on. */
    predicate Waits() {
      PosPicked? || PosWaiting? || ReadPicked? || ReadWaiting?
    }
  }

  datatype World = World(filter: FilterState, processes: seq<Process>)

  ghost predicate Init(w: World) {
    w.filter == EMPTY && forall i :: 0 <= i < |w.processes| ==> w.processes[i].New()
  }

  /** The atomic steps of a process. A signal is not remembered: whoever comes to wait on the notifier after it is
      late. */
  ghost predicate Moves(files: Files, s: FilterState, p: Process, s': FilterState, p': Process) {
    match p
    case PosNew(f) =>
      var (next, action) := TryStartPosDelLoad(s, f);
      s' == next && p' == (match action
                           case Load => PosParsing(f)
                           case AlreadyLoaded => PosDone(f)
                           case WaitFor(n) => PosPicked(f, n))
    case PosParsing(f) =>
      s' == s && (p' == PosMerging(f, files.positional(f).Keys) || p' == PosOwnerFailed(f))
    case PosMerging(f, todo) =>
      if todo != {} then
        exists d :: d in todo && d in files.positional(f) &&
          s' == UpsertDeleteVector(s, d, files.positional(f)[d]) && p' == PosMerging(f, todo - {d})
      else
        var (next, notify) := MarkPosDelLoaded(s, f);
        s' == next && p' == PosNotifying(f, notify)
    case PosNotifying(f, notify) =>
      s' == (if notify.Some? then Signal(s, notify.value) else s) && p' == PosOwnerDone(f, notify)
    case PosPicked(f, n) =>
      s' == s && p' == PosWaiting(f, n, n in s.signalled)
    case PosWaiting(f, n, late) =>
      n in s.signalled && !late && s' == s && p' == PosDone(f)
    case EqNew(f) =>
      var (next, won) := TryStartEqDelLoad(s, f);
      s' == next && p' == if won.Some? then EqWon(f) else EqSkipped(f)
    case EqWon(f) =>
      var (next, n) := InsertEqualityDelete(s, f);
      s' == next && p' == EqParsing(f, n)
    case EqParsing(f, n) =>
      || (s' == StoreEqualityPredicate(s, f, files.equality(f)) && p' == EqNotifying(f, n))
      || (s' == s && p' == EqOwnerFailed(f))
    case EqNotifying(f, n) =>
      s' == Signal(s, n) && p' == EqOwnerDone(f)
    case ReadNew(f) =>
      s' == s && p' == (if f !in s.equality then ReadMissing(f)
                        else match s.equality[f]
                             case EqLoading(n) => ReadPicked(f, n)
                             case EqLoaded(q) => ReadGot(f, q))
    case ReadPicked(f, n) =>
      s' == s && p' == ReadWaiting(f, n, n in s.signalled)
    case ReadWaiting(f, n, late) =>
      n in s.signalled && !late && s' == s &&
      p' == if f in s.equality && s.equality[f].EqLoaded? then ReadGot(f, s.equality[f].rowFilter) else ReadUnreachable(f)
    case _ => false
  }

  ghost predicate StepBy(files: Files, w: World, w': World, k: nat, p': Process) {
    && k < |w.processes|
    && w'.processes == w.processes[k := p']
    && Moves(files, w.filter, w.processes[k], w'.filter, p')
  }

  ghost predicate Step(files: Files, w: World, w': World) {
    exists k: nat, p' :: StepBy(files, w, w', k, p')
  }

  /** A finite interleaving. */
  ghost predicate Run(files: Files, run: seq<World>) {
    && run != [] && Init(run[0])
    && forall i, j :: 0 <= i < |run| - 1 && j == i + 1 ==> Step(files, run[i], run[j])
  }

  // ----- the invariant -----

  /** The file's result for data file `d` has been merged by process `p`. */
  ghost predicate MergedBy(files: Files, p: Process, f: string, d: string) {
    && d in files.positional(f) && p.OwnsPos() && p.file == f
    && (p.PosNotifying? || p.PosOwnerDone? || (p.PosMerging? && d !in p.todo))
  }

  ghost predicate Merged(files: Files, w: World, f: string, d: string) {
    exists k :: 0 <= k < |w.processes| && MergedBy(files, w.processes[k], f, d)
  }

  /** What the shared state looks like while a process is where it is. */
  ghost predicate Fits(files: Files, s: FilterState, p: Process) {
    match p
    case PosParsing(f) => f in s.positional && s.positional[f].PosLoading?
    case PosMerging(f, todo) => f in s.positional && s.positional[f].PosLoading? && todo <= files.positional(f).Keys
    case PosNotifying(f, notify) =>
      f in s.positional && s.positional[f].PosLoaded? &&
      notify.Some? && notify.value < |s.notifiers| && s.notifiers[notify.value] == ForPositional(f)
    case PosOwnerDone(f, notify) =>
      f in s.positional && s.positional[f].PosLoaded? && notify.Some? && notify.value in s.signalled &&
      notify.value < |s.notifiers| && s.notifiers[notify.value] == ForPositional(f)
    case PosOwnerFailed(f) => f in s.positional && s.positional[f].PosLoading?
    case PosDone(f) => f in s.positional && s.positional[f].PosLoaded?
    case PosPicked(f, n) => n < |s.notifiers| && s.notifiers[n] == ForPositional(f)
    case PosWaiting(f, n, late) => n < |s.notifiers| && s.notifiers[n] == ForPositional(f) && (late ==> n in s.signalled)
    case EqWon(f) => f in s.equality && s.equality[f].EqLoading?
    case EqParsing(f, n) => f in s.equality && s.equality[f] == EqLoading(n)
    case EqNotifying(f, n) =>
      f in s.equality && s.equality[f].EqLoaded? && n < |s.notifiers| && s.notifiers[n] == ForEquality(f)
    case EqOwnerDone(f) => f in s.equality && s.equality[f].EqLoaded?
    case EqOwnerFailed(f) => f in s.equality && s.equality[f].EqLoading?
    case EqSkipped(f) => f in s.equality
    case ReadPicked(f, n) => n < |s.notifiers| && s.notifiers[n] == ForEquality(f)
    case ReadWaiting(f, n, late) => n < |s.notifiers| && s.notifiers[n] == ForEquality(f) && (late ==> n in s.signalled)
    case ReadGot(f, q) => f in s.equality && s.equality[f] == EqLoaded(q)
    case ReadUnreachable(_) => false
    case _ => true
  }

  /** The notifier an entry is loading under was created for that very file. */
  ghost predicate PosNotifiersSound(s: FilterState) {
    forall f :: f in s.positional && s.positional[f].PosLoading? ==>
      s.positional[f].notify < |s.notifiers| && s.notifiers[s.positional[f].notify] == ForPositional(f)
  }

  ghost predicate EqNotifiersSound(s: FilterState) {
    forall f :: f in s.equality && s.equality[f].EqLoading? ==>
      s.equality[f].notify < |s.notifiers| && s.notifiers[s.equality[f].notify] == ForEquality(f)
  }

  /** A positional delete file is given a notifier once, along with its entry. */
  ghost predicate PosNotifiersUnique(s: FilterState) {
    && (forall n :: 0 <= n < |s.notifiers| && s.notifiers[n].ForPositional? ==> s.notifiers[n].file in s.positional)
    && forall m, n :: 0 <= m < n < |s.notifiers| && s.notifiers[m].ForPositional? ==> s.notifiers[m] != s.notifiers[n]
  }

  /** Only notifiers of loaded files are signalled. */
  ghost predicate SignalsSound(s: FilterState) {
    forall n :: n in s.signalled ==> n < |s.notifiers| && SignalledSound(s, s.notifiers[n])
  }

  ghost predicate NotifiersSound(s: FilterState) {
    PosNotifiersSound(s) && EqNotifiersSound(s) && PosNotifiersUnique(s) && SignalsSound(s)
  }

  ghost predicate SignalledSound(s: FilterState, purpose: Purpose) {
    match purpose
    case ForPositional(f) => f in s.positional && s.positional[f].PosLoaded?
    case ForEquality(f) => f in s.equality && s.equality[f].EqLoaded?
  }

  ghost predicate SameLoad(p: Process, q: Process) {
    p.file == q.file && ((p.OwnsPos() && q.OwnsPos()) || (p.OwnsEq() && q.OwnsEq()))
  }

  /** No two processes own the load of the same file. */
  ghost predicate OwnersUnique(ps: seq<Process>) {
    forall i, j :: 0 <= i < |ps| && 0 <= j < |ps| && SameLoad(ps[i], ps[j]) ==> i == j
  }

  /** A file that has an entry has an owner. */
  ghost predicate OwnersExist(w: World) {
    && (forall f :: f in w.filter.positional ==>
          exists k :: 0 <= k < |w.processes| && w.processes[k].OwnsPos() && w.processes[k].file == f)
    && (forall f :: f in w.filter.equality ==>
          exists k :: 0 <= k < |w.processes| && w.processes[k].OwnsEq() && w.processes[k].file == f)
  }

  /** Each delete vector is the union of the results merged into it so far. */
  ghost predicate VectorsExact(files: Files, w: World) {
    forall d, x :: x in VectorOf(w.filter, d) <==> exists f :: Contributes(files, w, f, d, x)
  }

  ghost predicate Contributes(files: Files, w: World, f: string, d: string, x: nat) {
    Merged(files, w, f, d) && x in files.positional(f)[d]
  }

  ghost predicate PredicatesExact(files: Files, s: FilterState) {
    forall f :: f in s.equality && s.equality[f].EqLoaded? ==> s.equality[f].rowFilter == files.equality(f)
  }

  ghost predicate ProcessesFit(files: Files, w: World) {
    forall k :: 0 <= k < |w.processes| ==> Fits(files, w.filter, w.processes[k])
  }

  ghost predicate Inv(files: Files, w: World) {
    && ProcessesFit(files, w)
    && NotifiersSound(w.filter)
    && OwnersUnique(w.processes)
    && OwnersExist(w)
    && PredicatesExact(files, w.filter)
    && VectorsExact(files, w)
  }

  ghost predicate PosGrows(s: FilterState, t: FilterState) {
    forall f :: f in s.positional ==> f in t.positional && (s.positional[f].PosLoaded? ==> t.positional[f].PosLoaded?)
  }

  ghost predicate EqGrows(s: FilterState, t: FilterState) {
    forall f :: f in s.equality ==> f in t.equality && (s.equality[f].EqLoaded? ==> t.equality[f] == s.equality[f])
  }

  ghost predicate VectorsGrow(s: FilterState, t: FilterState) {
    forall d :: VectorOf(s, d) <= VectorOf(t, d)
  }

  /** What no step undoes. */
  ghost predicate Grows(s: FilterState, t: FilterState) {
    PosGrows(s, t) && EqGrows(s, t) && VectorsGrow(s, t)
  }

  // ----- preservation, conjunct by conjunct -----

  lemma InitInv(files: Files, w: World)
    requires Init(w)
    ensures Inv(files, w)
  {
    assert forall k :: 0 <= k < |w.processes| ==> w.processes[k].New();
    assert forall f, d :: !Merged(files, w, f, d);
  }

  /** The step changes at most the entry of the mover's own file, and never takes a loaded entry back. */
  lemma MoverPosGrows(files: Files, s: FilterState, p: Process, s': FilterState, p': Process)
    requires Moves(files, s, p, s', p')
    ensures PosGrows(s, s')
  {
  }

  lemma MoverEqGrows(files: Files, s: FilterState, p: Process, s': FilterState, p': Process)
    requires Fits(files, s, p) && Moves(files, s, p, s', p')
    ensures EqGrows(s, s')
  {
  }

  lemma MoverVectorsGrow(files: Files, s: FilterState, p: Process, s': FilterState, p': Process)
    requires Moves(files, s, p, s', p')
    ensures VectorsGrow(s, s')
  {
  }

  lemma GrowsReflexive(s: FilterState)
    ensures Grows(s, s)
  {
  }

  lemma GrowsTransitive(s: FilterState, t: FilterState, u: FilterState)
    requires Grows(s, t) && Grows(t, u)
    ensures Grows(s, u)
  {
    forall d
      ensures VectorOf(s, d) <= VectorOf(u, d)
    {
      assert VectorOf(s, d) <= VectorOf(t, d) <= VectorOf(u, d);
    }
  }

  /** The process that moved fits, and so does the owner of any entry the step rewrote. */
  lemma StepFits(files: Files, w: World, w': World, k: nat, p': Process)
    requires Inv(files, w) && StepBy(files, w, w', k, p')
    ensures ProcessesFit(files, w')
  {
    var p := w.processes[k];
    assert Fits(files, w.filter, p);
    MoverFits(files, w.filter, p, w'.filter, p');
    forall i | 0 <= i < |w.processes| && i != k
      ensures Fits(files, w'.filter, w.processes[i])
    {
      var q := w.processes[i];
      assert Fits(files, w.filter, q);
      assert !SameLoad(q, p);
      OtherFits(files, w.filter, p, w'.filter, p', q);
    }
  }

  lemma MoverFits(files: Files, s: FilterState, p: Process, s': FilterState, p': Process)
    requires Fits(files, s, p) && Moves(files, s, p, s', p')
    requires NotifiersSound(s) && PredicatesExact(files, s)
    ensures Fits(files, s', p')
  {
    hide Fits, Moves, PredicatesExact, PosNotifiersSound, EqNotifiersSound, PosNotifiersUnique, SignalsSound;
    if p.Positional() {
      MoverFitsPos(files, s, p, s', p');
    } else {
      MoverFitsEq(files, s, p, s', p');
    }
  }

  lemma MoverFitsPos(files: Files, s: FilterState, p: Process, s': FilterState, p': Process)
    requires p.Positional() && Fits(files, s, p) && Moves(files, s, p, s', p')
    requires PosNotifiersSound(s) && SignalsSound(s)
    ensures Fits(files, s', p')
  {
  }

  lemma MoverFitsEq(files: Files, s: FilterState, p: Process, s': FilterState, p': Process)
    requires !p.Positional() && Fits(files, s, p) && Moves(files, s, p, s', p')
    requires EqNotifiersSound(s) && SignalsSound(s)
    ensures Fits(files, s', p')
  {
  }

  lemma OtherFits(files: Files, s: FilterState, p: Process, s': FilterState, p': Process, q: Process)
    requires Fits(files, s, p) && Moves(files, s, p, s', p') && Fits(files, s, q)
    requires !SameLoad(q, p)
    ensures Fits(files, s', q)
  {
    hide Fits, Moves;
    if p.Positional() {
      OtherFitsPos(files, s, p, s', p', q);
    } else {
      OtherFitsEq(files, s, p, s', p', q);
    }
  }

  lemma OtherFitsPos(files: Files, s: FilterState, p: Process, s': FilterState, p': Process, q: Process)
    requires p.Positional() && Fits(files, s, p) && Moves(files, s, p, s', p') && Fits(files, s, q)
    requires !SameLoad(q, p)
    ensures Fits(files, s', q)
  {
  }

  lemma OtherFitsEq(files: Files, s: FilterState, p: Process, s': FilterState, p': Process, q: Process)
    requires !p.Positional() && Fits(files, s, p) && Moves(files, s, p, s', p') && Fits(files, s, q)
    requires !SameLoad(q, p)
    ensures Fits(files, s', q)
  {
  }

  lemma StepPosNotifiers(files: Files, s: FilterState, p: Process, s': FilterState, p': Process)
    requires Moves(files, s, p, s', p') && PosNotifiersSound(s)
    ensures PosNotifiersSound(s')
  {
  }

  lemma StepEqNotifiers(files: Files, s: FilterState, p: Process, s': FilterState, p': Process)
    requires Fits(files, s, p) && Moves(files, s, p, s', p') && EqNotifiersSound(s)
    ensures EqNotifiersSound(s')
  {
  }

  lemma StepPosUnique(files: Files, s: FilterState, p: Process, s': FilterState, p': Process)
    requires Moves(files, s, p, s', p') && PosNotifiersUnique(s)
    ensures PosNotifiersUnique(s')
  {
    MoverPosGrows(files, s, p, s', p');
    MoverNotifiers(files, s, p, s', p');
    MoverCreates(files, s, p, s', p');
    hide Moves;
    forall m, n | 0 <= m < n < |s'.notifiers| && s'.notifiers[m].ForPositional?
      ensures s'.notifiers[m] != s'.notifiers[n]
    {
      assert s'.notifiers[m] == s.notifiers[m];
    }
  }

  /** At most one notifier is created, for the mover's file, and a positional one only where there was no entry. */
  lemma MoverCreates(files: Files, s: FilterState, p: Process, s': FilterState, p': Process)
    requires Moves(files, s, p, s', p')
    ensures |s'.notifiers| <= |s.notifiers| + 1
    ensures |s'.notifiers| > |s.notifiers| && s'.notifiers[|s.notifiers|].ForPositional? ==>
              s'.notifiers[|s.notifiers|].file !in s.positional && s'.notifiers[|s.notifiers|].file in s'.positional
  {
  }

  lemma StepSignals(files: Files, s: FilterState, p: Process, s': FilterState, p': Process)
    requires Fits(files, s, p) && Moves(files, s, p, s', p')
    requires PosGrows(s, s') && EqGrows(s, s') && SignalsSound(s)
    ensures SignalsSound(s')
  {
    forall n | n in s'.signalled
      ensures n < |s'.notifiers| && SignalledSound(s', s'.notifiers[n])
    {
      if n in s.signalled {
        assert s'.notifiers[n] == s.notifiers[n];
      }
    }
  }

  lemma StepPredicates(files: Files, s: FilterState, p: Process, s': FilterState, p': Process)
    requires Moves(files, s, p, s', p') && PredicatesExact(files, s)
    ensures PredicatesExact(files, s')
  {
  }

  lemma MoverFile(files: Files, s: FilterState, p: Process, s': FilterState, p': Process)
    requires Moves(files, s, p, s', p')
    ensures p'.file == p.file
  {
  }

  /** A process becomes an owner only where there was no entry, hence no owner; owners stay owners. */
  lemma MoverOwnsPos(files: Files, s: FilterState, p: Process, s': FilterState, p': Process)
    requires Moves(files, s, p, s', p')
    ensures p'.OwnsPos() <==> p.OwnsPos() || (p.PosNew? && p.file !in s.positional)
  {
  }

  lemma MoverOwnsEq(files: Files, s: FilterState, p: Process, s': FilterState, p': Process)
    requires Moves(files, s, p, s', p')
    ensures p'.OwnsEq() <==> p.OwnsEq() || (p.EqNew? && p.file !in s.equality)
  {
  }

  /** Either kind of load leaves the entries of the other alone. */
  lemma MoverKind(files: Files, s: FilterState, p: Process, s': FilterState, p': Process)
    requires Moves(files, s, p, s', p')
    ensures if p.Positional() then s'.equality == s.equality && !p'.OwnsEq() else s'.positional == s.positional && !p'.OwnsPos()
  {
  }

  lemma MoverEntries(files: Files, s: FilterState, p: Process, s': FilterState, p': Process)
    requires Fits(files, s, p) && Moves(files, s, p, s', p')
    ensures forall f :: f in s'.positional <==> f in s.positional || (p'.OwnsPos() && f == p.file)
  {
    MoverKind(files, s, p, s', p');
    if !p.Positional() {
      hide Moves, Fits;
    }
  }

  lemma MoverEqEntries(files: Files, s: FilterState, p: Process, s': FilterState, p': Process)
    requires Fits(files, s, p) && Moves(files, s, p, s', p')
    ensures forall f :: f in s'.equality <==> f in s.equality || (p'.OwnsEq() && f == p.file)
  {
    MoverKind(files, s, p, s', p');
    if p.Positional() {
      hide Moves, Fits;
    }
  }

  lemma StepOwners(files: Files, w: World, w': World, k: nat, p': Process)
    requires Inv(files, w) && StepBy(files, w, w', k, p')
    ensures OwnersUnique(w'.processes) && OwnersExist(w')
  {
    var p := w.processes[k];
    assert Fits(files, w.filter, p);
    MoverFile(files, w.filter, p, w'.filter, p');
    MoverOwnsPos(files, w.filter, p, w'.filter, p');
    MoverOwnsEq(files, w.filter, p, w'.filter, p');
    MoverEntries(files, w.filter, p, w'.filter, p');
    MoverEqEntries(files, w.filter, p, w'.filter, p');
    forall i | 0 <= i < |w.processes| && i != k
      ensures w'.processes[i] == w.processes[i] && !SameLoad(w.processes[i], p')
    {
      var q := w.processes[i];
      assert Fits(files, w.filter, q);
      OwnerHasEntry(files, w.filter, q);
      assert !SameLoad(q, p);
    }
    hide Moves, Fits;
    OwnersStay(w, w', k, p');
  }

  lemma OwnerHasEntry(files: Files, s: FilterState, q: Process)
    requires Fits(files, s, q)
    ensures q.OwnsPos() ==> q.file in s.positional
    ensures q.OwnsEq() ==> q.file in s.equality
  {
  }

  lemma OwnersStay(w: World, w': World, k: nat, p': Process)
    requires k < |w.processes| && w'.processes == w.processes[k := p'] && OwnersExist(w)
    requires p'.file == w.processes[k].file
    requires w.processes[k].OwnsPos() ==> p'.OwnsPos()
    requires w.processes[k].OwnsEq() ==> p'.OwnsEq()
    requires forall f :: f in w'.filter.positional <==> f in w.filter.positional || (p'.OwnsPos() && f == p'.file)
    requires forall f :: f in w'.filter.equality <==> f in w.filter.equality || (p'.OwnsEq() && f == p'.file)
    ensures OwnersExist(w')
  {
    assert w'.processes[k] == p';
    forall f | f in w'.filter.positional
      ensures exists i :: 0 <= i < |w'.processes| && w'.processes[i].OwnsPos() && w'.processes[i].file == f
    {
      if f in w.filter.positional {
        var i :| 0 <= i < |w.processes| && w.processes[i].OwnsPos() && w.processes[i].file == f;
        assert w'.processes[i].OwnsPos() && w'.processes[i].file == f;
      }
    }
    forall f | f in w'.filter.equality
      ensures exists i :: 0 <= i < |w'.processes| && w'.processes[i].OwnsEq() && w'.processes[i].file == f
    {
      if f in w.filter.equality {
        var i :| 0 <= i < |w.processes| && w.processes[i].OwnsEq() && w.processes[i].file == f;
        assert w'.processes[i].OwnsEq() && w'.processes[i].file == f;
      }
    }
  }

  // ----- delete vectors -----

  /** Only a merging process changes what has been merged, and it adds exactly the result it upserts. */
  lemma StepVectors(files: Files, w: World, w': World, k: nat, p': Process)
    requires Inv(files, w) && StepBy(files, w, w', k, p')
    ensures VectorsExact(files, w')
  {
    var p := w.processes[k];
    assert Fits(files, w.filter, p);
    forall d, x
      ensures x in VectorOf(w'.filter, d) <==> exists f :: Contributes(files, w', f, d, x)
    {
      MoverVectors(files, w.filter, p, w'.filter, p', d, x);
      forall f
        ensures Contributes(files, w', f, d, x)
           <==> Contributes(files, w, f, d, x) || (MergedBy(files, p', f, d) && x in files.positional(f)[d])
      {
        MergedAfter(files, w, w', k, p', f, d);
      }
    }
  }

  /** Across one step of `p`, the vector of `d` gains exactly what `p` has newly merged. */
  lemma MoverVectors(files: Files, s: FilterState, p: Process, s': FilterState, p': Process, d: string, x: nat)
    requires Fits(files, s, p) && Moves(files, s, p, s', p')
    ensures forall f :: MergedBy(files, p, f, d) ==> MergedBy(files, p', f, d)
    ensures x in VectorOf(s', d) <==>
              x in VectorOf(s, d) ||
              exists f :: MergedBy(files, p', f, d) && !MergedBy(files, p, f, d) && x in files.positional(f)[d]
  {
    if !p.PosMerging? || p.todo == {} {
      NothingMerged(files, s, p, s', p', d);
    }
  }

  lemma NothingMerged(files: Files, s: FilterState, p: Process, s': FilterState, p': Process, d: string)
    requires Moves(files, s, p, s', p')
    requires !p.PosMerging? || p.todo == {}
    ensures s'.vectors == s.vectors
    ensures forall f :: MergedBy(files, p', f, d) <==> MergedBy(files, p, f, d)
  {
  }

  lemma MergedAfter(files: Files, w: World, w': World, k: nat, p': Process, f: string, d: string)
    requires k < |w.processes| && w'.processes == w.processes[k := p']
    requires MergedBy(files, w.processes[k], f, d) ==> MergedBy(files, p', f, d)
    ensures Merged(files, w', f, d) <==> Merged(files, w, f, d) || MergedBy(files, p', f, d)
  {
    if Merged(files, w, f, d) {
      var i :| 0 <= i < |w.processes| && MergedBy(files, w.processes[i], f, d);
      assert MergedBy(files, w'.processes[i], f, d);
    }
    if MergedBy(files, p', f, d) {
      assert MergedBy(files, w'.processes[k], f, d);
    }
    if Merged(files, w', f, d) {
      var i :| 0 <= i < |w'.processes| && MergedBy(files, w'.processes[i], f, d);
      assert i != k ==> w'.processes[i] == w.processes[i];
    }
  }

  lemma StepInv(files: Files, w: World, w': World)
    requires Inv(files, w) && Step(files, w, w')
    ensures Inv(files, w') && Grows(w.filter, w'.filter)
  {
    hide Fits, Moves, PosNotifiersSound, EqNotifiersSound, PosNotifiersUnique, SignalsSound, OwnersUnique, OwnersExist;
    hide VectorsExact, PredicatesExact, PosGrows, EqGrows, VectorsGrow;
    var k: nat, p' :| StepBy(files, w, w', k, p');
    var p := w.processes[k];
    assert Fits(files, w.filter, p);
    MoverPosGrows(files, w.filter, p, w'.filter, p');
    MoverEqGrows(files, w.filter, p, w'.filter, p');
    MoverVectorsGrow(files, w.filter, p, w'.filter, p');
    StepFits(files, w, w', k, p');
    StepOwners(files, w, w', k, p');
    StepVectors(files, w, w', k, p');
    StepPosNotifiers(files, w.filter, p, w'.filter, p');
    StepEqNotifiers(files, w.filter, p, w'.filter, p');
    StepPosUnique(files, w.filter, p, w'.filter, p');
    StepSignals(files, w.filter, p, w'.filter, p');
    StepPredicates(files, w.filter, p, w'.filter, p');
  }

  // ----- whole runs -----

  lemma {:induction false} RunInv(files: Files, run: seq<World>, i: nat)
    requires Run(files, run) && i < |run|
    ensures Inv(files, run[i])
  {
    if i == 0 {
      InitInv(files, run[0]);
    } else {
      RunInv(files, run, i - 1);
      StepInv(files, run[i - 1], run[i]);
    }
  }

  lemma RunStep(files: Files, run: seq<World>, j: nat)
    requires Run(files, run) && 0 < j < |run|
    ensures Grows(run[j - 1].filter, run[j].filter)
  {
    RunInv(files, run, j - 1);
    StepInv(files, run[j - 1], run[j]);
  }

  lemma {:induction false} RunGrows(files: Files, run: seq<World>, i: nat, j: nat)
    requires Run(files, run) && i <= j < |run|
    ensures Grows(run[i].filter, run[j].filter)
  {
    hide Grows, Run;
    if i == j {
      GrowsReflexive(run[i].filter);
    } else {
      RunGrows(files, run, i, j - 1);
      RunStep(files, run, j);
      GrowsTransitive(run[i].filter, run[j - 1].filter, run[j].filter);
    }
  }

  /** In every interleaving the load of a positional delete file is granted to one process at most, and so is the load
      of an equality delete file. */
  lemma GrantedOnce(files: Files, run: seq<World>, i: nat, j: nat, k: nat)
    requires Run(files, run) && i < |run| && j < |run[i].processes| && k < |run[i].processes|
    requires SameLoad(run[i].processes[j], run[i].processes[k])
    ensures j == k
  {
    RunInv(files, run, i);
  }

  /** Loaded, once reached, is never left, and from then on every position of the file is in its delete vectors. */
  lemma LoadedMeansMerged(files: Files, run: seq<World>, i: nat, j: nat, f: string)
    requires Run(files, run) && i <= j < |run|
    requires f in run[i].filter.positional && run[i].filter.positional[f].PosLoaded?
    ensures f in run[j].filter.positional && run[j].filter.positional[f].PosLoaded?
    ensures forall d :: d in files.positional(f) ==> files.positional(f)[d] <= VectorOf(run[j].filter, d)
  {
    RunGrows(files, run, i, j);
    RunInv(files, run, j);
    LoadedInv(files, run[j], f);
  }

  lemma LoadedInv(files: Files, w: World, f: string)
    requires Inv(files, w) && f in w.filter.positional && w.filter.positional[f].PosLoaded?
    ensures forall d :: d in files.positional(f) ==> files.positional(f)[d] <= VectorOf(w.filter, d)
  {
    var k :| 0 <= k < |w.processes| && w.processes[k].OwnsPos() && w.processes[k].file == f;
    assert Fits(files, w.filter, w.processes[k]);
    forall d, x | d in files.positional(f) && x in files.positional(f)[d]
      ensures x in VectorOf(w.filter, d)
    {
      assert MergedBy(files, w.processes[k], f, d);
      assert Contributes(files, w, f, d, x);
    }
  }

  /** At any moment each delete vector is the union of what has been merged, in whatever order that happened. */
  lemma VectorIsUnion(files: Files, run: seq<World>, i: nat, d: string, x: nat)
    requires Run(files, run) && i < |run|
    ensures x in VectorOf(run[i].filter, d) <==> exists f :: Contributes(files, run[i], f, d, x)
  {
    RunInv(files, run, i);
  }

  /** A task whose positional delete file is done, loaded by itself or awaited, sees all of its positions, now and at
      every later moment. */
  lemma FinishedTaskSeesDeletes(files: Files, run: seq<World>, i: nat, j: nat, k: nat, d: string)
    requires Run(files, run) && i <= j < |run| && k < |run[i].processes|
    requires run[i].processes[k].PosDone? || run[i].processes[k].PosOwnerDone?
    requires d in files.positional(run[i].processes[k].file)
    ensures files.positional(run[i].processes[k].file)[d] <= VectorOf(run[j].filter, d)
  {
    RunInv(files, run, i);
    assert Fits(files, run[i].filter, run[i].processes[k]);
    LoadedMeansMerged(files, run, i, j, run[i].processes[k].file);
  }

  /** A reader that wakes always finds the predicate: the unreachable branch is never taken. Whatever it reads, then or
      later, is the predicate of that file. */
  lemma ReadersAgree(files: Files, run: seq<World>, i: nat, k: nat)
    requires Run(files, run) && i < |run| && k < |run[i].processes|
    ensures !run[i].processes[k].ReadUnreachable?
    ensures run[i].processes[k].ReadGot? ==> run[i].processes[k].result == files.equality(run[i].processes[k].file)
  {
    RunInv(files, run, i);
    assert Fits(files, run[i].filter, run[i].processes[k]);
  }

  /** A predicate that has been stored is never replaced. */
  lemma PredicateStays(files: Files, run: seq<World>, i: nat, j: nat, f: string)
    requires Run(files, run) && i <= j < |run|
    requires f in run[i].filter.equality && run[i].filter.equality[f].EqLoaded?
    ensures f in run[j].filter.equality && run[j].filter.equality[f] == EqLoaded(files.equality(f))
  {
    RunGrows(files, run, i, j);
    RunInv(files, run, j);
  }

  // ----- lost wake-ups -----

  /** The signal this process needs has been given, and it was not waiting at the time. */
  ghost predicate Late(s: FilterState, p: Process) {
    match p
    case PosPicked(_, n) => n in s.signalled
    case ReadPicked(_, n) => n in s.signalled
    case PosWaiting(_, _, late) => late
    case ReadWaiting(_, _, late) => late
    case _ => false
  }

  /** The load of the file has failed, so that it stays in loading. */
  ghost predicate OwnerFailed(w: World, f: string) {
    exists k :: 0 <= k < |w.processes| && w.processes[k] == PosOwnerFailed(f)
  }

  /** An equality notifier that nobody is going to signal. */
  ghost predicate Forgotten(w: World, n: Notify) {
    && n < |w.filter.notifiers| && w.filter.notifiers[n].ForEquality? && n !in w.filter.signalled
    && forall k :: 0 <= k < |w.processes| ==> !WillSignal(w.processes[k], n)
  }

  predicate WillSignal(p: Process, n: Notify) {
    (p.EqParsing? || p.EqNotifying?) && p.notify == n
  }

  /** Whoever waits is late, or nobody is going to signal its notifier. */
  ghost predicate Lost(w: World, p: Process)
    requires p.Waits()
  {
    Late(w.filter, p) || if p.Positional() then OwnerFailed(w, p.file) else Forgotten(w, p.notify)
  }

  /** It may have gone from picking up its notifier to waiting on it, no further. */
  predicate StillWaits(p: Process, p': Process) {
    p.Waits() && p'.Waits() && p'.file == p.file && p'.notify == p.notify && (p'.Positional() <==> p.Positional())
  }

  lemma MoverNotifiers(files: Files, s: FilterState, p: Process, s': FilterState, p': Process)
    requires Moves(files, s, p, s', p')
    ensures s.notifiers <= s'.notifiers && s.signalled <= s'.signalled
  {
  }

  lemma MoverLate(files: Files, s: FilterState, p: Process, s': FilterState, p': Process)
    requires Moves(files, s, p, s', p') && Late(s, p)
    ensures Late(s', p') && StillWaits(p, p')
  {
  }

  /** A waiting process does not get past a notifier that is not signalled. */
  lemma MoverBlocked(files: Files, s: FilterState, p: Process, s': FilterState, p': Process)
    requires Moves(files, s, p, s', p') && p.Waits() && p.notify !in s.signalled
    ensures StillWaits(p, p') && s' == s
  {
  }

  lemma MoverForgets(files: Files, s: FilterState, p: Process, s': FilterState, p': Process, n: Notify)
    requires Fits(files, s, p) && Moves(files, s, p, s', p') && !WillSignal(p, n)
    requires n < |s.notifiers| && s.notifiers[n].ForEquality? && n !in s.signalled
    ensures n < |s'.notifiers| && s'.notifiers[n] == s.notifiers[n] && n !in s'.signalled
    ensures !WillSignal(p', n)
  {
    MoverSignals(files, s, p, s', p', n);
    MoverNotifiers(files, s, p, s', p');
    MoverWillSignal(files, s, p, s', p', n);
    hide Fits, Moves;
  }

  lemma MoverSignals(files: Files, s: FilterState, p: Process, s': FilterState, p': Process, n: Notify)
    requires Fits(files, s, p) && Moves(files, s, p, s', p') && !WillSignal(p, n)
    requires n < |s.notifiers| && s.notifiers[n].ForEquality?
    ensures n in s'.signalled ==> n in s.signalled
  {
    if !p.PosNotifying? {
      hide Fits;
    }
  }

  lemma MoverWillSignal(files: Files, s: FilterState, p: Process, s': FilterState, p': Process, n: Notify)
    requires Moves(files, s, p, s', p') && n < |s.notifiers| && !WillSignal(p, n)
    ensures !WillSignal(p', n)
  {
  }

  /** While the owner has failed, no notifier of its file is signalled. */
  lemma FailedUnsignalled(files: Files, w: World, r: nat)
    requires Inv(files, w) && r < |w.processes| && w.processes[r].Waits() && w.processes[r].Positional()
    requires OwnerFailed(w, w.processes[r].file)
    ensures w.processes[r].notify !in w.filter.signalled
  {
    var k :| 0 <= k < |w.processes| && w.processes[k] == PosOwnerFailed(w.processes[r].file);
    assert Fits(files, w.filter, w.processes[k]) && Fits(files, w.filter, w.processes[r]);
  }

  lemma FailedStays(files: Files, w: World, w': World, f: string)
    requires Step(files, w, w') && OwnerFailed(w, f)
    ensures OwnerFailed(w', f)
  {
    var k :| 0 <= k < |w.processes| && w.processes[k] == PosOwnerFailed(f);
    var m: nat, p' :| StepBy(files, w, w', m, p');
    assert m != k;
    assert w'.processes[k] == PosOwnerFailed(f);
  }

  lemma ForgottenStays(files: Files, w: World, w': World, n: Notify)
    requires Inv(files, w) && Step(files, w, w') && Forgotten(w, n)
    ensures Forgotten(w', n)
  {
    var k: nat, p' :| StepBy(files, w, w', k, p');
    assert Fits(files, w.filter, w.processes[k]) && !WillSignal(w.processes[k], n);
    MoverForgets(files, w.filter, w.processes[k], w'.filter, p', n);
    hide Moves, Fits;
    assert forall i :: 0 <= i < |w.processes| ==> w'.processes[i] == if i == k then p' else w.processes[i];
  }

  /** Whoever is lost stays where it is, and stays lost. */
  lemma LostStays(files: Files, w: World, w': World, r: nat)
    requires Inv(files, w) && Step(files, w, w') && r < |w.processes| && w.processes[r].Waits() && Lost(w, w.processes[r])
    ensures r < |w'.processes| && StillWaits(w.processes[r], w'.processes[r]) && Lost(w', w'.processes[r])
  {
    var k: nat, p' :| StepBy(files, w, w', k, p');
    var p := w.processes[r];
    MoverNotifiers(files, w.filter, w.processes[k], w'.filter, p');
    if Late(w.filter, p) {
      if k == r {
        MoverLate(files, w.filter, p, w'.filter, p');
      }
      hide Moves;
    } else {
      if p.Positional() {
        FailedUnsignalled(files, w, r);
        FailedStays(files, w, w', p.file);
      } else {
        ForgottenStays(files, w, w', p.notify);
      }
      if k == r {
        MoverBlocked(files, w.filter, p, w'.filter, p');
      }
      hide Moves, OwnerFailed, Forgotten, Inv;
    }
  }

  // ----- when whoever waits can still be woken -----

  /** A finite interleaving from `w` on. */
  ghost predicate Continues(files: Files, w: World, more: seq<World>) {
    && more != [] && more[0] == w
    && forall i, j :: 0 <= i < |more| - 1 && j == i + 1 ==> Step(files, more[i], more[j])
  }

  /** What it waits for: the positional file is done, or it has the predicate. */
  function Woken(files: Files, p: Process): Process
    requires p.Waits()
  {
    if p.Positional() then PosDone(p.file) else ReadGot(p.file, files.equality(p.file))
  }

  /** At the end of `more` process `r` has been woken. */
  ghost predicate WakesIn(files: Files, w: World, more: seq<World>, r: nat)
    requires r < |w.processes| && w.processes[r].Waits()
  {
    && Continues(files, w, more) && r < |more[|more| - 1].processes|
    && more[|more| - 1].processes[r] == Woken(files, w.processes[r])
  }

  lemma PrependStep(files: Files, w: World, w': World, more: seq<World>)
    requires Step(files, w, w') && Continues(files, w', more)
    ensures Continues(files, w, [w] + more)
  {
    var all := [w] + more;
    forall i, j | 0 <= i < |all| - 1 && j == i + 1
      ensures Step(files, all[i], all[j])
    {
      if i > 0 {
        assert all[i] == more[i - 1] && all[j] == more[i];
      }
    }
  }

  lemma AppendStep(files: Files, w: World, more: seq<World>, w': World)
    requires Continues(files, w, more) && Step(files, more[|more| - 1], w')
    ensures Continues(files, w, more + [w'])
  {
    var all := more + [w'];
    forall i, j | 0 <= i < |all| - 1 && j == i + 1
      ensures Step(files, all[i], all[j])
    {
      assert all[i] == more[i];
    }
  }

  /** Only process `k` has moved between `w` and `v`. */
  ghost predicate Alone(w: World, v: World, k: nat) {
    |v.processes| == |w.processes| && forall i :: 0 <= i < |w.processes| && i != k ==> v.processes[i] == w.processes[i]
  }

  lemma FitsAt(files: Files, w: World, k: nat)
    requires Inv(files, w) && k < |w.processes|
    ensures Fits(files, w.filter, w.processes[k])
  {
  }

  /** Process `k` makes one move. */
  lemma MoveOn(files: Files, w: World, k: nat, s': FilterState, p': Process) returns (w': World)
    requires Inv(files, w) && k < |w.processes| && Moves(files, w.filter, w.processes[k], s', p')
    ensures w' == World(s', w.processes[k := p']) && Step(files, w, w') && Inv(files, w')
  {
    w' := World(s', w.processes[k := p']);
    assert StepBy(files, w, w', k, p');
    StepInv(files, w, w');
  }

  /** What the owner of a positional load does next when nothing fails. */
  lemma OwnerMoves(files: Files, s: FilterState, p: Process) returns (s': FilterState, p': Process)
    requires Fits(files, s, p) && (p.PosParsing? || p.PosMerging? || p.PosNotifying?)
    ensures Moves(files, s, p, s', p') && p'.OwnsPos() && !p'.PosOwnerFailed? && p'.file == p.file
    ensures Rank(files, p') < Rank(files, p)
  {
    match p {
      case PosParsing(f) =>
        s', p' := s, PosMerging(f, files.positional(f).Keys);
      case PosMerging(f, todo) =>
        if todo == {} {
          var (next, notify) := MarkPosDelLoaded(s, f);
          s', p' := next, PosNotifying(f, notify);
        } else {
          var d :| d in todo;
          assert |todo - {d}| < |todo|;
          s', p' := UpsertDeleteVector(s, d, files.positional(f)[d]), PosMerging(f, todo - {d});
        }
      case PosNotifying(f, found) =>
        s', p' := if found.Some? then Signal(s, found.value) else s, PosOwnerDone(f, found);
    }
  }

  /** How many steps the owner of a positional load still needs. */
  function Rank(files: Files, p: Process): nat {
    match p
    case PosParsing(f) => 3 + |files.positional(f).Keys|
    case PosMerging(f, todo) => 2 + |todo|
    case PosNotifying(_, _) => 1
    case _ => 0
  }

  /** The owner of a positional load that has not failed can go on alone until it is done. */
  lemma {:induction false} FinishPos(files: Files, w: World, k: nat) returns (more: seq<World>)
    requires Inv(files, w) && k < |w.processes| && w.processes[k].OwnsPos() && !w.processes[k].PosOwnerFailed?
    ensures Continues(files, w, more) && Inv(files, more[|more| - 1]) && Alone(w, more[|more| - 1], k)
    ensures more[|more| - 1].processes[k].PosOwnerDone? && more[|more| - 1].processes[k].file == w.processes[k].file
    decreases Rank(files, w.processes[k])
  {
    if w.processes[k].PosOwnerDone? {
      more := [w];
    } else {
      hide Inv, Moves, Step, Fits, Rank, Alone, Continues;
      FitsAt(files, w, k);
      var s', p' := OwnerMoves(files, w.filter, w.processes[k]);
      var w' := MoveOn(files, w, k, s', p');
      var rest := FinishPos(files, w', k);
      FirstMove(files, w, w', rest, k);
      more := [w] + rest;
    }
  }

  /** It stores the predicate, and signals its notifier next. */
  lemma EqOwnerMoves(files: Files, s: FilterState, p: Process) returns (s': FilterState, p': Process)
    requires p.EqParsing? || p.EqNotifying?
    ensures Moves(files, s, p, s', p')
    ensures if p.EqParsing? then p' == EqNotifying(p.file, p.notify) else p'.EqOwnerDone? && p.notify in s'.signalled
  {
    if p.EqParsing? {
      s', p' := StoreEqualityPredicate(s, p.file, files.equality(p.file)), EqNotifying(p.file, p.notify);
    } else {
      s', p' := Signal(s, p.notify), EqOwnerDone(p.file);
    }
  }

  lemma FirstMove(files: Files, w: World, w': World, rest: seq<World>, k: nat)
    requires Step(files, w, w') && k < |w.processes| && k < |w'.processes| && w'.processes == w.processes[k := w'.processes[k]]
    requires Continues(files, w', rest) && Alone(w', rest[|rest| - 1], k)
    ensures Continues(files, w, [w] + rest) && Alone(w, rest[|rest| - 1], k)
  {
    hide Step;
    PrependStep(files, w, w', rest);
  }

  /** So can a process that is going to signal an equality notifier. */
  lemma FinishEq(files: Files, w: World, k: nat) returns (more: seq<World>)
    requires Inv(files, w) && k < |w.processes| && (w.processes[k].EqParsing? || w.processes[k].EqNotifying?)
    ensures Continues(files, w, more) && Inv(files, more[|more| - 1]) && Alone(w, more[|more| - 1], k)
    ensures w.processes[k].notify in more[|more| - 1].filter.signalled
    decreases w.processes[k].EqParsing?
  {
    hide Inv, Moves, Step;
    var s', p' := EqOwnerMoves(files, w.filter, w.processes[k]);
    var w' := MoveOn(files, w, k, s', p');
    if p'.EqNotifying? {
      more := FinishEq(files, w', k);
    } else {
      more := [w'];
    }
    PrependStep(files, w, w', more);
    more := [w] + more;
  }

  /** At the end of `more` the notifier is signalled, and the process has been waiting on it. */
  lemma WakeAtEnd(files: Files, w: World, more: seq<World>, r: nat) returns (all: seq<World>)
    requires Continues(files, w, more) && Inv(files, more[|more| - 1])
    requires r < |w.processes| && r < |more[|more| - 1].processes| && more[|more| - 1].processes[r] == w.processes[r]
    requires (w.processes[r].PosWaiting? || w.processes[r].ReadWaiting?) && !w.processes[r].late
    requires w.processes[r].notify in more[|more| - 1].filter.signalled
    ensures WakesIn(files, w, all, r)
  {
    var last := more[|more| - 1];
    SignalledWakes(files, last, r);
    var next := MoveOn(files, last, r, last.filter, Woken(files, w.processes[r]));
    hide Inv, Moves, Step;
    AppendStep(files, w, more, next);
    all := more + [next];
  }

  lemma SignalledWakes(files: Files, w: World, r: nat)
    requires Inv(files, w) && r < |w.processes| && (w.processes[r].PosWaiting? || w.processes[r].ReadWaiting?)
    requires !w.processes[r].late && w.processes[r].notify in w.filter.signalled
    ensures Moves(files, w.filter, w.processes[r], w.filter, Woken(files, w.processes[r]))
  {
    assert Fits(files, w.filter, w.processes[r]);
    assert SignalledSound(w.filter, w.filter.notifiers[w.processes[r].notify]);
  }

  /** A file in loading has an owner; once the owner is done, the one notifier of the file is signalled. */
  lemma WaitedFor(files: Files, w: World, r: nat) returns (k: nat)
    requires Inv(files, w) && r < |w.processes| && w.processes[r].Waits() && w.processes[r].Positional()
    ensures k < |w.processes| && w.processes[k].OwnsPos() && w.processes[k].file == w.processes[r].file
  {
    assert Fits(files, w.filter, w.processes[r]);
    k :| 0 <= k < |w.processes| && w.processes[k].OwnsPos() && w.processes[k].file == w.processes[r].file;
  }

  lemma DoneSignalled(files: Files, w: World, k: nat, r: nat)
    requires Inv(files, w) && r < |w.processes| && w.processes[r].Waits() && w.processes[r].Positional()
    requires k < |w.processes| && w.processes[k].PosOwnerDone? && w.processes[k].file == w.processes[r].file
    ensures w.processes[r].notify in w.filter.signalled
  {
    assert Fits(files, w.filter, w.processes[k]) && Fits(files, w.filter, w.processes[r]);
    var m, n := w.processes[k].found.value, w.processes[r].notify;
    assert w.filter.notifiers[m] == w.filter.notifiers[n];
  }

  /** A process that already waits, and is not lost, wakes after its notifier has been signalled. */
  lemma WaitingWakes(files: Files, w: World, r: nat) returns (more: seq<World>)
    requires Inv(files, w) && r < |w.processes| && (w.processes[r].PosWaiting? || w.processes[r].ReadWaiting?)
    requires !Lost(w, w.processes[r])
    ensures WakesIn(files, w, more, r)
  {
    var p := w.processes[r];
    hide Inv, Step, Fits;
    if p.notify in w.filter.signalled {
      more := WakeAtEnd(files, w, [w], r);
    } else if p.PosWaiting? {
      var k := WaitedFor(files, w, r);
      assert !w.processes[k].PosOwnerFailed?;
      more := FinishPos(files, w, k);
      DoneSignalled(files, more[|more| - 1], k, r);
      more := WakeAtEnd(files, w, more, r);
    } else {
      WaitsForEquality(files, w, r);
      var k :| 0 <= k < |w.processes| && WillSignal(w.processes[k], p.notify);
      more := FinishEq(files, w, k);
      more := WakeAtEnd(files, w, more, r);
    }
  }

  lemma WaitsForEquality(files: Files, w: World, r: nat)
    requires Inv(files, w) && r < |w.processes| && w.processes[r].Waits() && !w.processes[r].Positional()
    ensures w.processes[r].notify < |w.filter.notifiers|
    ensures w.filter.notifiers[w.processes[r].notify] == ForEquality(w.processes[r].file)
  {
    assert Fits(files, w.filter, w.processes[r]);
  }

  lemma InTime(files: Files, s: FilterState, p: Process) returns (p': Process)
    requires (p.PosPicked? || p.ReadPicked?) && p.notify !in s.signalled
    ensures Moves(files, s, p, s, p') && (p'.PosWaiting? || p'.ReadWaiting?) && !p'.late && StillWaits(p, p')
  {
    p' := if p.PosPicked? then PosWaiting(p.file, p.notify, false) else ReadWaiting(p.file, p.notify, false);
  }

  /** A process that has picked up its notifier, and is not lost, comes to wait on it in time. */
  lemma Settle(files: Files, w: World, r: nat) returns (w': World)
    requires Inv(files, w) && r < |w.processes| && (w.processes[r].PosPicked? || w.processes[r].ReadPicked?)
    requires !Lost(w, w.processes[r])
    ensures Inv(files, w') && Step(files, w, w') && r < |w'.processes| && !Lost(w', w'.processes[r])
    ensures (w'.processes[r].PosWaiting? || w'.processes[r].ReadWaiting?) && StillWaits(w.processes[r], w'.processes[r])
  {
    var p := w.processes[r];
    var p' := InTime(files, w.filter, p);
    hide Inv, Step, Moves;
    w' := MoveOn(files, w, r, w.filter, p');
    assert forall k :: 0 <= k < |w.processes| && k != r ==> w'.processes[k] == w.processes[k];
    if p.PosPicked? {
      assert !OwnerFailed(w', p.file);
    } else {
      WaitsForEquality(files, w, r);
      var k :| 0 <= k < |w.processes| && WillSignal(w.processes[k], p.notify);
      assert w'.processes[k] == w.processes[k];
    }
  }

  lemma {:induction false} LostForever(files: Files, w: World, more: seq<World>, j: nat, r: nat)
    requires Inv(files, w) && Continues(files, w, more) && j < |more|
    requires r < |w.processes| && w.processes[r].Waits() && Lost(w, w.processes[r])
    ensures Inv(files, more[j]) && r < |more[j].processes|
    ensures StillWaits(w.processes[r], more[j].processes[r]) && Lost(more[j], more[j].processes[r])
  {
    hide Inv, Lost, Step;
    if j > 0 {
      LostForever(files, w, more, j - 1, r);
      assert Step(files, more[j - 1], more[j]);
      LostStays(files, more[j - 1], more[j], r);
      StepInv(files, more[j - 1], more[j]);
    }
  }

  /** At any moment of any run, whoever holds or awaits a notifier is woken in some continuation if and only if it is
      not late and the signal can still come: a positional load has not failed, or somebody is to signal the equality
      notifier. */
  lemma WakesIffNotLost(files: Files, run: seq<World>, i: nat, r: nat)
    requires Run(files, run) && i < |run| && r < |run[i].processes| && run[i].processes[r].Waits()
    ensures (exists more :: WakesIn(files, run[i], more, r)) <==> !Lost(run[i], run[i].processes[r])
  {
    RunInv(files, run, i);
    var w := run[i];
    hide Inv, Step, Run, Lost;
    if Lost(w, w.processes[r]) {
      forall more
        ensures !WakesIn(files, w, more, r)
      {
        if Continues(files, w, more) {
          LostForever(files, w, more, |more| - 1, r);
        }
      }
    } else {
      var more: seq<World>;
      if w.processes[r].PosWaiting? || w.processes[r].ReadWaiting? {
        more := WaitingWakes(files, w, r);
      } else {
        var w' := Settle(files, w, r);
        more := WaitingWakes(files, w', r);
        PrependStep(files, w, w', more);
        more := [w] + more;
      }
      assert WakesIn(files, w, more, r);
    }
  }

  // ----- who gets lost -----

  /** Owns the load of its file and is not going to signal anyone as things stand. */
  predicate StuckOwner(p: Process) {
    p.EqWon? || p.EqOwnerFailed?
  }

  lemma NobodySignals(files: Files, w: World, k: nat, n: Notify)
    requires Inv(files, w) && k < |w.processes| && StuckOwner(w.processes[k])
    requires n < |w.filter.notifiers| && w.filter.notifiers[n] == ForEquality(w.processes[k].file)
    ensures Forgotten(w, n)
  {
    var f := w.processes[k].file;
    assert Fits(files, w.filter, w.processes[k]);
    assert n in w.filter.signalled ==> SignalledSound(w.filter, w.filter.notifiers[n]);
    forall q | 0 <= q < |w.processes|
      ensures !WillSignal(w.processes[q], n)
    {
      assert Fits(files, w.filter, w.processes[q]);
      assert SameLoad(w.processes[q], w.processes[k]) ==> q == k;
    }
  }

  lemma UnsignalledWhileLoading(files: Files, w: World, r: nat)
    requires Inv(files, w) && r < |w.processes| && w.processes[r].ReadPicked?
    requires w.processes[r].file in w.filter.equality && w.filter.equality[w.processes[r].file].EqLoading?
    ensures w.processes[r].notify < |w.filter.notifiers| && w.processes[r].notify !in w.filter.signalled
    ensures w.filter.notifiers[w.processes[r].notify] == ForEquality(w.processes[r].file)
  {
    assert Fits(files, w.filter, w.processes[r]);
    assert !SignalledSound(w.filter, ForEquality(w.processes[r].file));
  }

  /** The one owner of a file in loading. */
  lemma LoadingOwner(files: Files, w: World, f: string) returns (k: nat)
    requires Inv(files, w) && f in w.filter.equality && w.filter.equality[f].EqLoading?
    ensures k < |w.processes| && w.processes[k].file == f && w.processes[k].OwnsEq()
    ensures StuckOwner(w.processes[k]) || WillSignal(w.processes[k], w.filter.equality[f].notify)
    ensures forall j :: 0 <= j < |w.processes| && w.processes[j].file == f && StuckOwner(w.processes[j]) ==> j == k
  {
    k :| 0 <= k < |w.processes| && w.processes[k].OwnsEq() && w.processes[k].file == f;
    assert Fits(files, w.filter, w.processes[k]);
    hide Fits, NotifiersSound, ProcessesFit, PredicatesExact, VectorsExact, OwnersExist;
    forall j | 0 <= j < |w.processes| && w.processes[j].file == f && StuckOwner(w.processes[j])
      ensures j == k
    {
      assert SameLoad(w.processes[j], w.processes[k]);
    }
  }

  /** A reader that has just picked up its notifier is lost at once if and only if the winner of the load has yet to
      replace that notifier, or has failed. */
  lemma LostAtPickUp(files: Files, w: World, r: nat)
    requires Inv(files, w) && r < |w.processes| && w.processes[r].ReadPicked?
    requires w.processes[r].file in w.filter.equality
    requires w.filter.equality[w.processes[r].file] == EqLoading(w.processes[r].notify)
    ensures Lost(w, w.processes[r])
       <==> exists k :: 0 <= k < |w.processes| && w.processes[k].file == w.processes[r].file && StuckOwner(w.processes[k])
  {
    hide Inv;
    UnsignalledWhileLoading(files, w, r);
    var k := LoadingOwner(files, w, w.processes[r].file);
    if StuckOwner(w.processes[k]) {
      NobodySignals(files, w, k, w.processes[r].notify);
    }
  }

  /** A reader that holds the notifier of the first lock section, before the winner replaces it in the second, never
      gets the predicate: it holds or awaits that notifier in every continuation of the run, and nobody signals it. */
  lemma {:induction false} ReaderIsLost(files: Files, run: seq<World>, i: nat, j: nat, k: nat, r: nat)
    requires Run(files, run) && i <= j < |run| && k < |run[i].processes| && r < |run[i].processes|
    requires run[i].processes[k].EqWon? && run[i].processes[r].Waits() && !run[i].processes[r].Positional()
    requires run[i].processes[r].file == run[i].processes[k].file
    ensures r < |run[j].processes| && StillWaits(run[i].processes[r], run[j].processes[r])
    ensures Forgotten(run[j], run[i].processes[r].notify)
  {
    hide Fits, Moves, Forgotten, Step, Init, Inv, Late;
    if i == j {
      RunInv(files, run, i);
      WaitsForEquality(files, run[i], r);
      NobodySignals(files, run[i], k, run[i].processes[r].notify);
    } else {
      ReaderIsLost(files, run, i, j - 1, k, r);
      RunInv(files, run, j - 1);
      assert Step(files, run[j - 1], run[j]);
      ForgottenStays(files, run[j - 1], run[j], run[i].processes[r].notify);
      LostStays(files, run[j - 1], run[j], r);
    }
  }

  /** Such a reader is only two steps away: one task wins the load, and a reader asks right then. */
  lemma LostReaderReachable(files: Files, f: string) returns (run: seq<World>)
    ensures Run(files, run) && |run| == 3
    ensures run[2].processes == [EqWon(f), ReadPicked(f, 0)]
  {
    var start := World(EMPTY, [EqNew(f), ReadNew(f)]);
    var won := World(TryStartEqDelLoad(EMPTY, f).0, [EqWon(f), ReadNew(f)]);
    var asked := World(won.filter, [EqWon(f), ReadPicked(f, 0)]);
    assert StepBy(files, start, won, 0, EqWon(f));
    assert StepBy(files, won, asked, 1, ReadPicked(f, 0));
    run := [start, won, asked];
  }

  /** One task has put the second notifier in place, and a reader has picked that one up. */
  lemma AskedInTime(files: Files, f: string) returns (run: seq<World>)
    ensures Run(files, run) && |run| == 4
    ensures run[3].processes == [EqParsing(f, 1), ReadPicked(f, 1)] && 1 !in run[3].filter.signalled
    ensures f in run[3].filter.equality
  {
    var start := World(EMPTY, [EqNew(f), ReadNew(f)]);
    var won := World(TryStartEqDelLoad(EMPTY, f).0, [EqWon(f), ReadNew(f)]);
    var parsing := World(InsertEqualityDelete(won.filter, f).0, [EqParsing(f, 1), ReadNew(f)]);
    var asked := World(parsing.filter, [EqParsing(f, 1), ReadPicked(f, 1)]);
    assert Step(files, start, won) by { assert StepBy(files, start, won, 0, EqWon(f)); }
    assert Step(files, won, parsing) by { assert StepBy(files, won, parsing, 0, EqParsing(f, 1)); }
    assert Step(files, parsing, asked) by { assert StepBy(files, parsing, asked, 1, ReadPicked(f, 1)); }
    hide Step;
    run := [start, won, parsing, asked];
  }

  lemma RunOn(files: Files, run: seq<World>, k: nat, s': FilterState, p': Process) returns (longer: seq<World>)
    requires Run(files, run) && k < |run[|run| - 1].processes|
    requires Moves(files, run[|run| - 1].filter, run[|run| - 1].processes[k], s', p')
    ensures Run(files, longer) && longer == run + [World(s', run[|run| - 1].processes[k := p'])]
  {
    var w' := World(s', run[|run| - 1].processes[k := p']);
    assert StepBy(files, run[|run| - 1], w', k, p');
    hide Moves, StepBy;
    AppendStep(files, run[0], run, w');
    longer := run + [w'];
  }

  /** A failed load strands a reader as well, here one that waits in time. */
  lemma StrandedReaderReachable(files: Files, f: string) returns (run: seq<World>)
    ensures Run(files, run) && |run| == 6
    ensures run[5].processes == [EqOwnerFailed(f), ReadWaiting(f, 1, false)]
  {
    run := AskedInTime(files, f);
    hide Run;
    run := RunOn(files, run, 1, run[3].filter, ReadWaiting(f, 1, false));
    run := RunOn(files, run, 0, run[4].filter, EqOwnerFailed(f));
  }

  /** And a reader is late when the predicate is stored and signalled between its two steps. */
  lemma LateReaderReachable(files: Files, f: string) returns (run: seq<World>)
    ensures Run(files, run) && |run| == 7
    ensures run[6].processes == [EqOwnerDone(f), ReadWaiting(f, 1, true)]
    ensures Lost(run[6], run[6].processes[1])
  {
    run := AskedInTime(files, f);
    hide Run;
    run := RunOn(files, run, 0, StoreEqualityPredicate(run[3].filter, f, files.equality(f)), EqNotifying(f, 1));
    run := RunOn(files, run, 0, Signal(run[4].filter, 1), EqOwnerDone(f));
    run := RunOn(files, run, 1, run[5].filter, ReadWaiting(f, 1, true));
  }

  lemma RunsOn(files: Files, run: seq<World>, more: seq<World>) returns (longer: seq<World>)
    requires Run(files, run) && Continues(files, run[|run| - 1], more)
    ensures Run(files, longer) && longer[|longer| - 1] == more[|more| - 1]
  {
    hide Step, Init;
    longer := run + more[1..];
    forall i, j | 0 <= i < |longer| - 1 && j == i + 1
      ensures Step(files, longer[i], longer[j])
    {
      if i >= |run| - 1 {
        assert longer[i] == more[i - (|run| - 1)] && longer[j] == more[j - (|run| - 1)];
      }
    }
  }

  /** One task loads a positional delete file, another has picked up its notifier. */
  lemma ToldToWait(files: Files, f: string) returns (run: seq<World>)
    ensures Run(files, run) && |run| == 3
    ensures run[2].processes == [PosParsing(f), PosPicked(f, 0)]
  {
    var start := World(EMPTY, [PosNew(f), PosNew(f)]);
    assert Run(files, [start]);
    hide Run;
    run := RunOn(files, [start], 0, TryStartPosDelLoad(EMPTY, f).0, PosParsing(f));
    run := RunOn(files, run, 1, run[1].filter, PosPicked(f, 0));
  }

  /** The same happens to a task that is told to wait for a positional delete file, whatever the file holds. */
  lemma LateWaiterReachable(files: Files, f: string) returns (run: seq<World>)
    ensures Run(files, run) && |run[|run| - 1].processes| == 2
    ensures run[|run| - 1].processes[0].PosOwnerDone?
    ensures run[|run| - 1].processes[1] == PosWaiting(f, 0, true)
    ensures Lost(run[|run| - 1], run[|run| - 1].processes[1])
  {
    hide Run, Moves, Inv, Step, Init;
    run := ToldToWait(files, f);
    RunInv(files, run, 2);
    var more := FinishPos(files, run[2], 0);
    var last := more[|more| - 1];
    DoneSignalled(files, last, 0, 1);
    run := RunsOn(files, run, more);
    PickedLate(files, last.filter, f, 0);
    run := RunOn(files, run, 1, last.filter, PosWaiting(f, 0, true));
  }

  lemma PickedLate(files: Files, s: FilterState, f: string, n: Notify)
    requires n in s.signalled
    ensures Moves(files, s, PosPicked(f, n), s, PosWaiting(f, n, true))
  {
  }
}
