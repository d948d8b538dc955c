/**
 One file scan task: the row groups left by the byte range and by the predicate statistics, the
 page-level selection, the positional deletes, and the rows the Parquet reader finally yields.
 */
module ScanTask {
  import opened Common
  import opened DeleteVectors
  import opened RowSelections
  import opened ByteSplits

  /** The row groups whose statistics may match: `may[g]` is the metrics evaluator's verdict. */
  method SelectedRowGroupIndices(may: seq<bool>) returns (results: seq<nat>)
    ensures Ascending(results)
    ensures forall g: nat :: g in results <==> g < |may| && may[g]
  {
    results := [];
    for idx := 0 to |may|
      invariant Ascending(results)
      invariant forall g: nat :: g in results <==> g < idx && may[g]
    {
      if may[idx] {
        SnocAscends(results, idx);
        results := results + [idx];
      }
    }
  }

  /** `left` filtered by membership in `right`, in the order of `left`. */
  method Intersect(left: seq<nat>, right: seq<nat>) returns (both: seq<nat>)
    requires Ascending(left)
    ensures Ascending(both)
    ensures forall g: nat :: g in both <==> g in left && g in right
  {
    both := [];
    for i := 0 to |left|
      invariant Ascending(both)
      invariant forall g: nat :: g in both <==> g in left[..i] && g in right
    {
      assert left[..i + 1] == left[..i] + [left[i]];
      if left[i] in right {
        forall g | g in both
          ensures g < left[i]
        {
          var j :| 0 <= j < i && left[j] == g;
        }
        SnocAscends(both, left[i]);
        both := both + [left[i]];
      }
    }
    assert left[..|left|] == left;
  }

  // ----- page selection -----

  /** One bit per row of every group. */
  ghost predicate Covers(bits: seq<seq<bool>>, sizes: seq<nat>) {
    |bits| == |sizes| && forall g :: 0 <= g < |sizes| ==> |bits[g]| == sizes[g]
  }

  /** What the page evaluator answers for each group, as bits. */
  function PageBits(pages: seq<seq<RowSelector>>): (bits: seq<seq<bool>>)
    ensures |bits| == |pages|
  {
    seq(|pages|, g requires 0 <= g < |pages| => Expand(pages[g]))
  }

  lemma {:induction false} GroupBitsDone(bits: seq<seq<bool>>, selected: Option<seq<nat>>, j: nat, k: nat)
    requires j <= k <= |bits| && selected.Some? && Consumed(selected.value, |selected.value|, j)
    ensures GroupBits(bits, selected, k) == GroupBits(bits, selected, j)
  {
    if j < k {
      GroupBitsDone(bits, selected, j, k - 1);
    }
  }

  /** No page index is the recoverable error; otherwise one cursor walks the ascending selected groups, never past their
      end, and the flattened selectors are the page bits of exactly those groups. */
  method RowSelectionForFilterPredicate(pages: Option<seq<seq<RowSelector>>>, selected: Option<seq<nat>>)
    returns (r: Result<seq<RowSelector>>)
    requires selected.Some? ==> Ascending(selected.value)
    ensures pages.None? <==> r == Err(Unexpected)
    ensures pages.Some? ==> r.Ok? && Expand(r.value) == GroupBits(PageBits(pages.value), selected, |pages.value|)
  {
    if pages.None? {
      return Err(Unexpected);
    }
    ghost var bits := PageBits(pages.value);
    if selected.Some? && selected.value == [] {
      GroupBitsDone(bits, selected, 0, |pages.value|);
      return Ok([]);
    }
    var results, selectedIdx := [], 0;
    for idx := 0 to |pages.value|
      invariant selected.Some? ==> Consumed(selected.value, selectedIdx, idx) && selectedIdx < |selected.value|
      invariant Expand(results) == GroupBits(bits, selected, idx)
    {
      if selected.Some? {
        ConsumeGroup(selected.value, selectedIdx, idx);
        if idx == selected.value[selectedIdx] {
          selectedIdx := selectedIdx + 1;
        } else {
          continue;
        }
      }
      ExpandConcat(results, pages.value[idx]);
      results := results + pages.value[idx];
      if selected.Some? && selectedIdx == |selected.value| {
        GroupBitsDone(bits, selected, idx + 1, |pages.value|);
        break;
      }
    }
    r := Ok(results);
  }

  // ----- the rows finally read -----

  /** Intersection of two row selections over the same rows. */
  function And(a: seq<bool>, b: seq<bool>): seq<bool>
    requires |a| == |b|
  {
    seq(|a|, i requires 0 <= i < |a| => a[i] && b[i])
  }

  /** The rows at the positions whose bit is set. */
  function Pick(rows: seq<nat>, bits: seq<bool>): seq<nat>
    requires |rows| == |bits|
  {
    if rows == [] then []
    else (if bits[0] then [rows[0]] else []) + Pick(rows[1..], bits[1..])
  }

  lemma {:induction false} PickMember(rows: seq<nat>, bits: seq<bool>)
    requires |rows| == |bits| && Ascending(rows)
    ensures Ascending(Pick(rows, bits))
    ensures forall r :: r in Pick(rows, bits) <==> exists i :: 0 <= i < |rows| && rows[i] == r && bits[i]
  {
    if rows != [] {
      PickMember(rows[1..], bits[1..]);
      var rest := Pick(rows[1..], bits[1..]);
      forall r | r in rest
        ensures r > rows[0]
      {
        var i :| 0 <= i < |rows[1..]| && rows[1..][i] == r;
        assert rows[i + 1] == r;
      }
      ConsAscends(rows[0], rest);
      forall r
        ensures r in Pick(rows, bits) <==> exists i :: 0 <= i < |rows| && rows[i] == r && bits[i]
      {
        if i :| 0 <= i < |rows| && rows[i] == r && bits[i] {
          assert i > 0 ==> rows[1..][i - 1] == r && bits[1..][i - 1];
        }
        if r in rest {
          var i :| 0 <= i < |rows[1..]| && rows[1..][i] == r && bits[1..][i];
          assert rows[i + 1] == r && bits[i + 1];
        }
      }
    }
  }

  /** Row `r` is row `r - Base(sizes, g)` of group `g`. */
  predicate InGroup(sizes: seq<nat>, g: nat, r: nat) {
    g < |sizes| && Base(sizes, g) <= r < Base(sizes, g + 1)
  }

  /** Every row carries the bit of its own place in its own selected group. */
  ghost predicate LinedUp(sizes: seq<nat>, perGroup: seq<seq<bool>>, selected: Option<seq<nat>>,
                          rows: seq<nat>, bits: seq<bool>)
    requires Covers(perGroup, sizes)
  {
    && |rows| == |bits|
    && forall i :: 0 <= i < |rows| ==> Placed(sizes, perGroup, selected, rows[i], bits[i])
  }

  ghost predicate Placed(sizes: seq<nat>, perGroup: seq<seq<bool>>, selected: Option<seq<nat>>, r: nat, bit: bool)
    requires Covers(perGroup, sizes)
  {
    exists g :: BitAt(sizes, perGroup, selected, g, r, bit)
  }

  ghost predicate BitAt(sizes: seq<nat>, perGroup: seq<seq<bool>>, selected: Option<seq<nat>>, g: nat, r: nat,
                        bit: bool)
    requires Covers(perGroup, sizes)
  {
    InGroup(sizes, g, r) && IsSelected(selected, g) && bit == perGroup[g][r - Base(sizes, g)]
  }

  lemma LinedUpConcat(sizes: seq<nat>, perGroup: seq<seq<bool>>, selected: Option<seq<nat>>,
                      rows: seq<nat>, bits: seq<bool>, moreRows: seq<nat>, moreBits: seq<bool>)
    requires Covers(perGroup, sizes)
    requires LinedUp(sizes, perGroup, selected, rows, bits) && LinedUp(sizes, perGroup, selected, moreRows, moreBits)
    ensures LinedUp(sizes, perGroup, selected, rows + moreRows, bits + moreBits)
  {
  }

  lemma GroupLinesUp(sizes: seq<nat>, perGroup: seq<seq<bool>>, selected: Option<seq<nat>>, g: nat)
    requires Covers(perGroup, sizes) && g < |sizes| && IsSelected(selected, g)
    ensures LinedUp(sizes, perGroup, selected, Span(Base(sizes, g), Base(sizes, g + 1)), perGroup[g])
  {
    var here := Span(Base(sizes, g), Base(sizes, g + 1));
    forall i | 0 <= i < |here|
      ensures Placed(sizes, perGroup, selected, here[i], perGroup[g][i])
    {
      assert BitAt(sizes, perGroup, selected, g, here[i], perGroup[g][i]);
    }
  }

  /** Any list of bits per group, flattened over the selected groups, lines up with their rows. */
  lemma {:induction false} RowsLineUp(sizes: seq<nat>, perGroup: seq<seq<bool>>, selected: Option<seq<nat>>, k: nat)
    requires k <= |sizes| && Covers(perGroup, sizes)
    ensures LinedUp(sizes, perGroup, selected, RowsOf(sizes, selected, k), GroupBits(perGroup, selected, k))
  {
    hide LinedUp;
    if k == 0 {
      NothingLinesUp(sizes, perGroup, selected);
    } else {
      RowsLineUp(sizes, perGroup, selected, k - 1);
      if IsSelected(selected, k - 1) {
        GroupLinesUp(sizes, perGroup, selected, k - 1);
      } else {
        NothingLinesUp(sizes, perGroup, selected);
      }
      LinedUpConcat(sizes, perGroup, selected, RowsOf(sizes, selected, k - 1), GroupBits(perGroup, selected, k - 1),
        if IsSelected(selected, k - 1) then Span(Base(sizes, k - 1), Base(sizes, k)) else [],
        if IsSelected(selected, k - 1) then perGroup[k - 1] else []);
    }
  }

  lemma NothingLinesUp(sizes: seq<nat>, perGroup: seq<seq<bool>>, selected: Option<seq<nat>>)
    requires Covers(perGroup, sizes)
    ensures LinedUp(sizes, perGroup, selected, [], [])
  {
  }

  /** The bit at a position is the bit of the row's place in its group. */
  lemma BitOfRow(sizes: seq<nat>, perGroup: seq<seq<bool>>, selected: Option<seq<nat>>, i: nat, g: nat)
    requires Covers(perGroup, sizes) && i < |RowsOf(sizes, selected, |sizes|)|
    requires InGroup(sizes, g, RowsOf(sizes, selected, |sizes|)[i])
    ensures |GroupBits(perGroup, selected, |sizes|)| == |RowsOf(sizes, selected, |sizes|)|
    ensures GroupBits(perGroup, selected, |sizes|)[i]
         == perGroup[g][RowsOf(sizes, selected, |sizes|)[i] - Base(sizes, g)]
  {
    RowsLineUp(sizes, perGroup, selected, |sizes|);
    var r, bit := RowsOf(sizes, selected, |sizes|)[i], GroupBits(perGroup, selected, |sizes|)[i];
    assert Placed(sizes, perGroup, selected, r, bit);
    var h :| BitAt(sizes, perGroup, selected, h, r, bit);
    GroupUnique(sizes, g, h, r);
  }

  lemma {:induction false} RowsOfMember(sizes: seq<nat>, selected: Option<seq<nat>>, k: nat)
    requires k <= |sizes|
    ensures Ascending(RowsOf(sizes, selected, k))
    ensures forall r: nat :: r in RowsOf(sizes, selected, k)
                   <==> exists g :: 0 <= g < k && InGroup(sizes, g, r) && IsSelected(selected, g)
  {
    if k > 0 {
      RowsOfMember(sizes, selected, k - 1);
      var before, here := RowsOf(sizes, selected, k - 1), Span(Base(sizes, k - 1), Base(sizes, k));
      forall r: nat | r in before
        ensures r < Base(sizes, k - 1)
      {
        var g :| 0 <= g < k - 1 && InGroup(sizes, g, r);
        BaseMonotone(sizes, g + 1, k - 1);
      }
      forall r: nat
        ensures r in here <==> InGroup(sizes, k - 1, r)
      {
        if InGroup(sizes, k - 1, r) {
          assert here[r - Base(sizes, k - 1)] == r;
        }
      }
      forall i, j | 0 <= i < j < |before + here|
        ensures (before + here)[i] < (before + here)[j]
      {
        if i < |before| <= j {
          assert before[i] in before;
        }
      }
    }
  }

  lemma GroupUnique(sizes: seq<nat>, g: nat, h: nat, r: nat)
    requires InGroup(sizes, g, r) && InGroup(sizes, h, r)
    ensures g == h
  {
    if g < h {
      BaseMonotone(sizes, g + 1, h);
    } else if h < g {
      BaseMonotone(sizes, h + 1, g);
    }
  }

  // ----- one scan task -----

  /** What a task brings to the file: its byte range, the pruning verdicts and the scan options. */
  datatype Task = Task(
    start: nat,
    length: nat,
    hasPredicate: bool,
    groupFiltering: bool,
    rowSelection: bool
  )

  /** What the Parquet footer says: rows and bytes per group, statistics verdicts, page selections if indexed. */
  datatype File = File(
    sizes: seq<nat>,
    bytes: seq<nat>,
    may: seq<bool>,
    pages: Option<seq<seq<RowSelector>>>
  ) {
    ghost predicate Valid() {
      && |bytes| == |may| == |sizes|
      && (pages.Some? ==> Covers(PageBits(pages.value), sizes))
      && Base(sizes, |sizes|) < TWO_64
    }
  }

  /** The group survives the byte range and, when that filter is on, the statistics. */
  predicate WantsGroup(task: Task, file: File, g: nat)
    requires g < |file.bytes| && g < |file.may|
  {
    && ((task.start == 0 && task.length == 0) || Overlaps(file.bytes, g, task.start, task.start + task.length))
    && (task.hasPredicate && task.groupFiltering ==> file.may[g])
  }

  function WantedGroups(task: Task, file: File, k: nat): seq<nat>
    requires k <= |file.bytes| && k <= |file.may|
  {
    if k == 0 then []
    else WantedGroups(task, file, k - 1) + if WantsGroup(task, file, k - 1) then [k - 1] else []
  }

  /** The group list handed to the reader; None reads every group. */
  function GroupList(task: Task, file: File): Option<seq<nat>>
    requires |file.bytes| == |file.may|
  {
    if task.start == 0 && task.length == 0 && !(task.hasPredicate && task.groupFiltering) then None
    else Some(WantedGroups(task, file, |file.bytes|))
  }

  lemma {:induction false} WantedGroupsMember(task: Task, file: File, k: nat)
    requires k <= |file.bytes| && k <= |file.may|
    ensures Ascending(WantedGroups(task, file, k))
    ensures forall g: nat :: g in WantedGroups(task, file, k) <==> g < k && WantsGroup(task, file, g)
  {
    if k > 0 {
      WantedGroupsMember(task, file, k - 1);
      if WantsGroup(task, file, k - 1) {
        SnocAscends(WantedGroups(task, file, k - 1), k - 1);
      }
    }
  }

  lemma GroupListMeans(task: Task, file: File)
    requires |file.bytes| == |file.may|
    ensures GroupList(task, file).Some? ==> Ascending(GroupList(task, file).value)
    ensures forall g :: 0 <= g < |file.bytes| ==> (IsSelected(GroupList(task, file), g) <==> WantsGroup(task, file, g))
    ensures forall g :: 0 <= g < |file.bytes| ==>
              (IsSelected(GroupList(task, file), g)
          <==> && ((task.start == 0 && task.length == 0) || Overlaps(file.bytes, g, task.start, task.start + task.length))
               && (task.hasPredicate && task.groupFiltering ==> file.may[g]))
  {
    WantedGroupsMember(task, file, |file.bytes|);
  }

  /** The group list: byte range, statistics, or both intersected. */
  method SelectGroups(task: Task, file: File) returns (selected: Option<seq<nat>>)
    requires file.Valid()
    ensures selected == GroupList(task, file)
  {
    WantedGroupsMember(task, file, |file.bytes|);
    ghost var wanted := WantedGroups(task, file, |file.bytes|);
    selected := None;
    if task.start != 0 || task.length != 0 {
      var byRange := FilterRowGroupsByByteRange(file.bytes, task.start, task.length);
      selected := Some(byRange);
    }
    if task.hasPredicate && task.groupFiltering {
      var byStats := SelectedRowGroupIndices(file.may);
      match selected
      case Some(byRange) =>
        var both := Intersect(byRange, byStats);
        selected := Some(both);
      case None =>
        selected := Some(byStats);
    }
    if selected.Some? {
      AscendingUnique(selected.value, wanted);
    }
  }

  /** The page selection, when it is applied, keeps row `r` of group `g`. */
  ghost predicate PageKeeps(task: Task, file: File, g: nat, r: nat)
    requires file.Valid() && InGroup(file.sizes, g, r)
  {
    task.hasPredicate && task.rowSelection && file.pages.Some? ==>
      PageBits(file.pages.value)[g][r - Base(file.sizes, g)]
  }

  /** Delete `r` has been applied: it is still owed when its group is reached. */
  ghost predicate Applied(task: Task, file: File, deleted: set<nat>, g: nat, r: nat)
    requires file.Valid() && g < |file.sizes|
  {
    r in Owed(file.sizes, GroupList(task, file), deleted, g)
  }

  /** The task reads row `r` of group `g`. */
  ghost predicate Reads(task: Task, file: File, deleted: set<nat>, g: nat, r: nat)
    requires file.Valid()
  {
    && InGroup(file.sizes, g, r) && WantsGroup(task, file, g)
    && PageKeeps(task, file, g, r) && !Applied(task, file, deleted, g, r)
  }

  ghost predicate ReadsRow(task: Task, file: File, deleted: set<nat>, r: nat)
    requires file.Valid()
  {
    exists g :: Reads(task, file, deleted, g, r)
  }

  ghost function DeletedBy(deletes: Option<DeleteVector>): (deleted: set<nat>)
    reads if deletes.Some? then {deletes.value} else {}
  {
    if deletes.Some? then deletes.value.Elements() else {}
  }

  /** The reader returns, and applies exactly the deletes of the rows it comes across. */
  ghost predicate ReadsIntact(task: Task, file: File, deleted: set<nat>)
    requires file.Valid()
  {
    Intact(file.sizes, GroupList(task, file), deleted, |file.sizes|)
  }

  /** Files of fewer than 2^32 rows are always read intact, whatever is deleted. */
  lemma SmallFileReadsIntact(task: Task, file: File, deleted: set<nat>)
    requires file.Valid() && Base(file.sizes, |file.sizes|) < TWO_32
    ensures ReadsIntact(task, file, deleted)
  {
    SmallFileIsSafe(file.sizes, GroupList(task, file), deleted);
    SafeIsIntact(file.sizes, GroupList(task, file), deleted);
  }

  /** A read that is intact returns. */
  lemma IntactEnds(task: Task, file: File, buckets: seq<Bucket>)
    requires file.Valid() && ValidTreemap(buckets) && ReadsIntact(task, file, PositionSet(buckets))
    ensures Ends(file.sizes, GroupList(task, file), buckets)
  {
    BuildHolds(file.sizes, GroupList(task, file), buckets, |file.sizes|);
  }

  /** Where the read is intact, a delete has been applied exactly if it is there. */
  lemma AppliedMeans(task: Task, file: File, deleted: set<nat>, g: nat, r: nat)
    requires file.Valid() && ReadsIntact(task, file, deleted)
    requires InGroup(file.sizes, g, r) && WantsGroup(task, file, g)
    ensures Applied(task, file, deleted, g, r) <==> r in deleted
  {
    GroupListMeans(task, file);
    IntactOwed(file.sizes, GroupList(task, file), deleted, g, r);
  }

  /** The whole composition, whenever the positional deletes can be walked to the end at all. The rows read are, in
      order and once each, exactly the rows of wanted groups that the page selection keeps and to which no delete has
      been applied. */
  method RowsRead(task: Task, file: File, deletes: Option<DeleteVector>) returns (rows: seq<nat>)
    requires file.Valid()
    requires deletes.Some? ==> deletes.value.Valid()
    requires deletes.Some? ==> Ends(file.sizes, GroupList(task, file), deletes.value.inner)
    ensures Ascending(rows)
    ensures forall r: nat :: r in rows <==> ReadsRow(task, file, DeletedBy(deletes), r)
  {
    hide Base, RowsOf, GroupBits, KeptBits, PageBits, Ascending, Expand, Intact, Reads, Yield, ValidTreemap, PositionSet;
    ghost var n, deleted := |file.sizes|, DeletedBy(deletes);
    var selected := SelectGroups(task, file);
    GroupListMeans(task, file);
    ghost var pageBits, keptBits := None, None;
    var selection := None;
    if task.hasPredicate && task.rowSelection {
      var pageSelection := RowSelectionForFilterPredicate(file.pages, selected);
      if pageSelection.Ok? {
        pageBits := Some(PageBits(file.pages.value));
        RowsLineUp(file.sizes, pageBits.value, selected, n);
        selection := Some(Expand(pageSelection.value));
      }
    }
    var all := RowsOf(file.sizes, selected, |file.sizes|);
    if deletes.Some? {
      var deleteSelection := BuildDeletesRowSelection(file.sizes, selected, deletes.value);
      KeptCovers(file.sizes, selected, deleted);
      keptBits := Some(KeptBits(file.sizes, selected, deleted));
      RowsLineUp(file.sizes, keptBits.value, selected, n);
      match selection
      case None => selection := Some(Expand(deleteSelection));
      case Some(filter) => selection := Some(And(filter, Expand(deleteSelection)));
    }
    assert DeletedBy(deletes) == deleted;
    RowsOfMember(file.sizes, selected, n);
    rows := Yield(all, selection);
    YieldMember(all, selection);
    forall r: nat
      ensures r in rows <==> ReadsRow(task, file, deleted, r)
    {
      RowIsRead(task, file, deleted, pageBits, keptBits, selection, r);
    }
  }

  lemma KeptCovers(sizes: seq<nat>, selected: Option<seq<nat>>, deleted: set<nat>)
    ensures Covers(KeptBits(sizes, selected, deleted), sizes)
  {
  }

  /** What the Parquet reader yields for a row selection over the rows of the selected groups. */
  function Yield(all: seq<nat>, selection: Option<seq<bool>>): seq<nat>
    requires selection.Some? ==> |selection.value| == |all|
  {
    if selection.Some? then Pick(all, selection.value) else all
  }

  lemma YieldMember(all: seq<nat>, selection: Option<seq<bool>>)
    requires selection.Some? ==> |selection.value| == |all|
    requires Ascending(all)
    ensures Ascending(Yield(all, selection))
    ensures forall r: nat :: r in Yield(all, selection) <==> ReadAt(all, selection, r)
  {
    if selection.Some? {
      PickMember(all, selection.value);
    }
  }

  ghost predicate ReadAt(all: seq<nat>, selection: Option<seq<bool>>, r: nat)
    requires selection.Some? ==> |selection.value| == |all|
  {
    exists i :: 0 <= i < |all| && all[i] == r && (selection.Some? ==> selection.value[i])
  }

  /** `selection` is the page bits and the delete bits taken together, position by position. */
  ghost predicate Merged(pages: Option<seq<bool>>, kept: Option<seq<bool>>, selection: Option<seq<bool>>, size: nat) {
    && (pages.Some? ==> |pages.value| == size)
    && (kept.Some? ==> |kept.value| == size)
    && (selection.Some? ==> |selection.value| == size)
    && (selection.None? ==> pages.None? && kept.None?)
    && (selection.Some? ==> forall i :: 0 <= i < size ==>
         (selection.value[i] <==> (pages.Some? ==> pages.value[i]) && (kept.Some? ==> kept.value[i])))
  }

  ghost function Flat(bits: Option<seq<seq<bool>>>, selected: Option<seq<nat>>): Option<seq<bool>> {
    if bits.Some? then Some(GroupBits(bits.value, selected, |bits.value|)) else None
  }

  lemma RowIsRead(task: Task, file: File, deleted: set<nat>, pageBits: Option<seq<seq<bool>>>,
                  keptBits: Option<seq<seq<bool>>>, selection: Option<seq<bool>>, r: nat)
    requires file.Valid()
    requires pageBits == if task.hasPredicate && task.rowSelection && file.pages.Some?
                        then Some(PageBits(file.pages.value)) else None
    requires keptBits == Some(KeptBits(file.sizes, GroupList(task, file), deleted)) || (keptBits.None? && deleted == {})
    requires var selected := GroupList(task, file);
             Merged(Flat(pageBits, selected), Flat(keptBits, selected), selection,
                    |RowsOf(file.sizes, selected, |file.sizes|)|)
    ensures ReadAt(RowsOf(file.sizes, GroupList(task, file), |file.sizes|), selection, r)
       <==> ReadsRow(task, file, deleted, r)
  {
    var selected, n := GroupList(task, file), |file.sizes|;
    var all := RowsOf(file.sizes, selected, n);
    GroupListMeans(task, file);
    RowsOfMember(file.sizes, selected, n);
    hide RowsOf, GroupBits, Ascending, Reads, Overlaps, GroupList;
    if ReadAt(all, selection, r) {
      var i :| 0 <= i < |all| && all[i] == r && (selection.Some? ==> selection.value[i]);
      assert r in all;
      var g :| 0 <= g < n && InGroup(file.sizes, g, r) && IsSelected(selected, g);
      PositionReads(task, file, deleted, pageBits, keptBits, selection, i, g);
    }
    if g :| Reads(task, file, deleted, g, r) {
      ReadsGroup(task, file, deleted, g, r);
      assert r in all;
      var i :| 0 <= i < |all| && all[i] == r;
      PositionReads(task, file, deleted, pageBits, keptBits, selection, i, g);
    }
  }

  lemma ReadsGroup(task: Task, file: File, deleted: set<nat>, g: nat, r: nat)
    requires file.Valid() && Reads(task, file, deleted, g, r)
    ensures InGroup(file.sizes, g, r) && IsSelected(GroupList(task, file), g)
  {
    GroupListMeans(task, file);
  }

  /** The delete bit at a position. */
  lemma KeptBitMeans(task: Task, file: File, deleted: set<nat>, i: nat, g: nat)
    requires file.Valid() && i < |RowsOf(file.sizes, GroupList(task, file), |file.sizes|)|
    requires InGroup(file.sizes, g, RowsOf(file.sizes, GroupList(task, file), |file.sizes|)[i])
    ensures var kept := GroupBits(KeptBits(file.sizes, GroupList(task, file), deleted), GroupList(task, file), |file.sizes|);
            && i < |kept|
            && (kept[i] <==> !Applied(task, file, deleted, g, RowsOf(file.sizes, GroupList(task, file), |file.sizes|)[i]))
  {
    hide RowsOf, GroupBits, Owed, GroupList, Covers, KeptBits, Base, PageBits;
    var selected := GroupList(task, file);
    KeptCovers(file.sizes, selected, deleted);
    BitOfRow(file.sizes, KeptBits(file.sizes, selected, deleted), selected, i, g);
    KeptAt(file.sizes, selected, deleted, g, RowsOf(file.sizes, selected, |file.sizes|)[i]);
  }

  lemma KeptAt(sizes: seq<nat>, selected: Option<seq<nat>>, deleted: set<nat>, g: nat, r: nat)
    requires InGroup(sizes, g, r)
    ensures |KeptBits(sizes, selected, deleted)[g]| == Base(sizes, g + 1) - Base(sizes, g)
    ensures KeptBits(sizes, selected, deleted)[g][r - Base(sizes, g)] <==> r !in Owed(sizes, selected, deleted, g)
  {
    hide Owed;
    var here := Span(Base(sizes, g), Base(sizes, g + 1));
    assert here[r - Base(sizes, g)] == r;
  }

  lemma NothingApplied(task: Task, file: File, g: nat, r: nat)
    requires file.Valid() && g < |file.sizes|
    ensures !Applied(task, file, {}, g, r)
  {
    OwedSubset(file.sizes, GroupList(task, file), {}, g);
  }

  /** The bit at a position says whether the task reads that row. */
  lemma PositionReads(task: Task, file: File, deleted: set<nat>, pageBits: Option<seq<seq<bool>>>,
                      keptBits: Option<seq<seq<bool>>>, selection: Option<seq<bool>>, i: nat, g: nat)
    requires file.Valid()
    requires pageBits == if task.hasPredicate && task.rowSelection && file.pages.Some?
                        then Some(PageBits(file.pages.value)) else None
    requires keptBits == Some(KeptBits(file.sizes, GroupList(task, file), deleted)) || (keptBits.None? && deleted == {})
    requires var selected := GroupList(task, file);
             Merged(Flat(pageBits, selected), Flat(keptBits, selected), selection,
                    |RowsOf(file.sizes, selected, |file.sizes|)|)
    requires i < |RowsOf(file.sizes, GroupList(task, file), |file.sizes|)|
    requires InGroup(file.sizes, g, RowsOf(file.sizes, GroupList(task, file), |file.sizes|)[i])
    requires IsSelected(GroupList(task, file), g)
    ensures (selection.Some? ==> selection.value[i])
       <==> Reads(task, file, deleted, g, RowsOf(file.sizes, GroupList(task, file), |file.sizes|)[i])
  {
    hide RowsOf, GroupBits, KeptBits, Overlaps, Applied, Base, GroupList, PageBits, WantsGroup, IsSelected;
    GroupListMeans(task, file);
    var r := RowsOf(file.sizes, GroupList(task, file), |file.sizes|)[i];
    assert WantsGroup(task, file, g);
    if pageBits.Some? {
      BitOfRow(file.sizes, pageBits.value, GroupList(task, file), i, g);
    }
    if keptBits.Some? {
      KeptBitMeans(task, file, deleted, i, g);
    } else {
      NothingApplied(task, file, g, r);
    }
  }

  // ----- pruning and splitting together -----

  /** The evaluators only rule out rows on which the predicate is not true. */
  ghost predicate SoundPruning(file: File, matching: set<nat>)
    requires file.Valid()
  {
    forall g: nat, r: nat {:trigger InGroup(file.sizes, g, r)} :: InGroup(file.sizes, g, r) && r in matching ==>
      file.may[g] && (file.pages.Some? ==> PageBits(file.pages.value)[g][r - Base(file.sizes, g)])
  }

  /** The scan task of split `k`. */
  function SplitTask(options: Task, edges: seq<nat>, k: nat): Task
    requires k + 1 < |edges| && edges[k] <= edges[k + 1]
  {
    options.(start := edges[k], length := edges[k + 1] - edges[k])
  }

  /** The scan task of split `k` reads row `r` and the row filter lets it through. */
  ghost predicate Delivers(options: Task, file: File, edges: seq<nat>, k: nat,
                           deleted: set<nat>, matching: set<nat>, r: nat)
    requires file.Valid() && Ascending(edges) && k + 1 < |edges|
  {
    r in matching && ReadsRow(SplitTask(options, edges, k), file, deleted, r)
  }

  /** The scan tasks of all splits read intact. */
  ghost predicate SplitsIntact(options: Task, file: File, edges: seq<nat>, deleted: set<nat>)
    requires file.Valid() && Ascending(edges)
  {
    forall k :: 0 <= k && k + 1 < |edges| ==> ReadsIntact(SplitTask(options, edges, k), file, deleted)
  }

  lemma SmallSplitsIntact(options: Task, file: File, edges: seq<nat>, deleted: set<nat>)
    requires file.Valid() && Ascending(edges) && Base(file.sizes, |file.sizes|) < TWO_32
    ensures SplitsIntact(options, file, edges, deleted)
  {
    forall k | 0 <= k && k + 1 < |edges|
      ensures ReadsIntact(SplitTask(options, edges, k), file, deleted)
    {
      SmallFileReadsIntact(SplitTask(options, edges, k), file, deleted);
    }
  }

  lemma DeliversMeans(options: Task, file: File, edges: seq<nat>, k: nat,
                      deleted: set<nat>, matching: set<nat>, g: nat, r: nat)
    requires file.Valid() && Ascending(edges) && k + 1 < |edges|
    requires SoundPruning(file, matching) && InGroup(file.sizes, g, r)
    requires ReadsIntact(SplitTask(options, edges, k), file, deleted)
    ensures Delivers(options, file, edges, k, deleted, matching, r)
       <==> r in matching && r !in deleted && SplitReads(edges, file.bytes, k, g)
  {
    hide Base, Expand, Overlaps, PageBits, Applied, ReadsIntact;
    var task := SplitTask(options, edges, k);
    if h :| Reads(task, file, deleted, h, r) {
      GroupUnique(file.sizes, g, h, r);
      AppliedMeans(task, file, deleted, g, r);
    }
    if r in matching && r !in deleted && SplitReads(edges, file.bytes, k, g) {
      AppliedMeans(task, file, deleted, g, r);
      assert Reads(task, file, deleted, g, r);
    }
  }

  /** Whatever pruning is switched on, the splits of a file together deliver each matching, undeleted row of a non-empty
      group at least once, and no other row; they deliver it once only exactly when no split edge falls strictly inside
      the row group. */
  lemma SplitsDeliver(options: Task, file: File, edges: seq<nat>, deleted: set<nat>, matching: set<nat>, g: nat, r: nat)
    requires file.Valid() && Tiles(edges, file.bytes) && SoundPruning(file, matching)
    requires SplitsIntact(options, file, edges, deleted)
    requires InGroup(file.sizes, g, r) && file.bytes[g] > 0
    ensures (exists k :: 0 <= k && k + 1 < |edges| && Delivers(options, file, edges, k, deleted, matching, r))
       <==> r in matching && r !in deleted
    ensures r in matching && r !in deleted ==>
              ((forall j, k :: 0 <= j < k && k + 1 < |edges| ==>
                 !(Delivers(options, file, edges, j, deleted, matching, r) &&
                   Delivers(options, file, edges, k, deleted, matching, r)))
          <==> (forall e :: e in edges ==> !(Offset(file.bytes, g) < e < Offset(file.bytes, g + 1))))
  {
    hide Delivers, SplitReads, SoundPruning, ReadsIntact;
    forall k | 0 <= k && k + 1 < |edges|
      ensures Delivers(options, file, edges, k, deleted, matching, r)
         <==> r in matching && r !in deleted && SplitReads(edges, file.bytes, k, g)
    {
      DeliversMeans(options, file, edges, k, deleted, matching, g, r);
    }
    SomeSplitReads(edges, file.bytes, g);
    OneSplitReads(edges, file.bytes, g);
  }
}
