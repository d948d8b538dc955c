/** File splitting: which row groups a scan task reads when it covers only a byte range of the file. */
module ByteSplits {
  import opened Common
  import opened RowSelections

  /** Row groups are laid out one after the other behind the 4-byte magic header. */
  function Offset(bytes: seq<nat>, group: nat): nat
    requires group <= |bytes|
  {
    4 + Base(bytes, group)
  }

  /** The overlap test of the source. */
  predicate Overlaps(bytes: seq<nat>, group: nat, start: nat, end: nat)
    requires group < |bytes|
  {
    Offset(bytes, group) < end && start < Offset(bytes, group + 1)
  }

  method FilterRowGroupsByByteRange(bytes: seq<nat>, start: nat, length: nat) returns (selected: seq<nat>)
    ensures Ascending(selected)
    ensures forall g: nat :: g in selected <==> g < |bytes| && Overlaps(bytes, g, start, start + length)
  {
    selected := [];
    var end := start + length;
    var offset := 4;
    for idx := 0 to |bytes|
      invariant offset == Offset(bytes, idx)
      invariant Ascending(selected)
      invariant forall g: nat :: g in selected <==> g < idx && Overlaps(bytes, g, start, end)
    {
      var groupEnd := offset + bytes[idx];
      if offset < end && start < groupEnd {
        SnocAscends(selected, idx);
        selected := selected + [idx];
      }
      offset := groupEnd;
    }
  }

  /** For a non-empty group and a non-empty split the test means: some byte lies in both. */
  lemma OverlapMeansSharedByte(bytes: seq<nat>, group: nat, start: nat, end: nat)
    requires group < |bytes| && bytes[group] > 0 && start < end
    ensures Overlaps(bytes, group, start, end)
       <==> exists x :: SharedByte(bytes, group, start, end, x)
  {
    if Overlaps(bytes, group, start, end) {
      assert SharedByte(bytes, group, start, end, Max(start, Offset(bytes, group)));
    }
  }

  ghost predicate SharedByte(bytes: seq<nat>, group: nat, start: nat, end: nat, x: nat)
    requires group < |bytes|
  {
    start <= x < end && Offset(bytes, group) <= x < Offset(bytes, group + 1)
  }

  /** An empty split strictly inside a group shares no byte with it, and is nevertheless given it. */
  lemma EmptySplitStillSelects()
    ensures Overlaps([10], 0, 7, 7)
    ensures !exists x :: SharedByte([10], 0, 7, 7, x)
  {
    assert Base([10], 1) == Base([10], 0) + 10;
  }

  /** Split edges that tile a file: split `k` is [edges[k], edges[k + 1]). */
  ghost predicate Tiles(edges: seq<nat>, bytes: seq<nat>) {
    && |edges| >= 2 && Ascending(edges)
    && edges[0] <= 4 && edges[|edges| - 1] >= Offset(bytes, |bytes|)
  }

  ghost predicate SplitReads(edges: seq<nat>, bytes: seq<nat>, k: nat, group: nat)
    requires k + 1 < |edges| && group < |bytes|
  {
    Overlaps(bytes, group, edges[k], edges[k + 1])
  }

  /** The last edge at or before `x`. */
  lemma {:induction false} EdgeBefore(edges: seq<nat>, x: nat) returns (k: nat)
    requires |edges| >= 2 && Ascending(edges) && edges[0] <= x
    ensures k < |edges| && edges[k] <= x
    ensures k + 1 < |edges| ==> x < edges[k + 1]
  {
    k := 0;
    while k + 1 < |edges| && edges[k + 1] <= x
      invariant k < |edges| && edges[k] <= x
    {
      k := k + 1;
    }
  }

  lemma EdgeOrder(edges: seq<nat>, j: nat, k: nat)
    requires Ascending(edges) && j <= k < |edges|
    ensures edges[j] <= edges[k]
  {
  }

  /** No split of a tiling reads the group exactly when the group is empty and starts on a split edge. */
  lemma SomeSplitReads(edges: seq<nat>, bytes: seq<nat>, group: nat)
    requires Tiles(edges, bytes) && group < |bytes|
    ensures (exists k :: 0 <= k && k + 1 < |edges| && SplitReads(edges, bytes, k, group))
       <==> bytes[group] > 0 || Offset(bytes, group) !in edges
  {
    var here, next := Offset(bytes, group), Offset(bytes, group + 1);
    BaseMonotone(bytes, group + 1, |bytes|);
    var k := EdgeBefore(edges, here);
    if bytes[group] > 0 || here !in edges {
      assert edges[k] in edges;
      assert k + 1 < |edges| && SplitReads(edges, bytes, k, group);
    } else {
      var i :| 0 <= i < |edges| && edges[i] == here;
      forall j | 0 <= j && j + 1 < |edges|
        ensures !SplitReads(edges, bytes, j, group)
      {
        if j < i {
          EdgeOrder(edges, j + 1, i);
        } else {
          EdgeOrder(edges, i, j);
        }
      }
    }
  }

  /** Split edges laid out group by group behind the magic header. */
  ghost predicate GroupByGroup(edges: seq<nat>, bytes: seq<nat>) {
    |edges| == |bytes| + 1 && edges[0] == 4 && forall k :: 0 <= k < |bytes| ==> edges[k] + bytes[k] == edges[k + 1]
  }

  lemma {:induction false} EdgeIsOffset(edges: seq<nat>, bytes: seq<nat>, k: nat)
    requires GroupByGroup(edges, bytes) && k <= |bytes|
    ensures edges[k] == Offset(bytes, k)
  {
    if k > 0 {
      EdgeIsOffset(edges, bytes, k - 1);
    }
  }

  /** With one split for each group, split `k` is given group `k`, unless that is empty, and no other. */
  lemma OwnSplit(edges: seq<nat>, bytes: seq<nat>, k: nat, group: nat)
    requires GroupByGroup(edges, bytes) && k < |bytes| && group < |bytes|
    ensures SplitReads(edges, bytes, k, group) <==> k == group && bytes[group] > 0
  {
    EdgeIsOffset(edges, bytes, k);
    EdgeIsOffset(edges, bytes, k + 1);
    if group < k {
      BaseMonotone(bytes, group + 1, k);
    } else if group > k {
      BaseMonotone(bytes, k + 1, group);
    }
  }

  /** A group of bytes 4 to 14 is read by both splits of a file cut at byte 7. */
  lemma StraddlingGroupReadTwice()
    ensures Tiles([0, 7, 20], [10])
    ensures SplitReads([0, 7, 20], [10], 0, 0) && SplitReads([0, 7, 20], [10], 1, 0)
  {
    assert Base([10], 1) == Base([10], 0) + 10;
  }

  /** At most one split reads the group exactly when no split edge falls strictly inside it. */
  lemma OneSplitReads(edges: seq<nat>, bytes: seq<nat>, group: nat)
    requires Tiles(edges, bytes) && group < |bytes|
    ensures (forall j, k :: 0 <= j < k && k + 1 < |edges| ==>
               !(SplitReads(edges, bytes, j, group) && SplitReads(edges, bytes, k, group)))
       <==> (forall e :: e in edges ==> !(Offset(bytes, group) < e < Offset(bytes, group + 1)))
  {
    var here, next := Offset(bytes, group), Offset(bytes, group + 1);
    BaseMonotone(bytes, group + 1, |bytes|);
    if e :| e in edges && here < e < next {
      var i :| 0 <= i < |edges| && edges[i] == e;
      assert SplitReads(edges, bytes, i - 1, group) && SplitReads(edges, bytes, i, group);
    } else {
      forall j, k | 0 <= j < k && k + 1 < |edges| && SplitReads(edges, bytes, j, group)
        ensures !SplitReads(edges, bytes, k, group)
      {
        EdgeOrder(edges, j + 1, k);
        assert edges[j + 1] in edges;
      }
    }
  }
}
