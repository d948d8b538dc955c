/** Coalescing byte ranges before they are fetched, and why the outcome is canonical. */
module RangeMerge {
  import opened Common

  datatype Range = Range(start: nat, end: nat) {
    ghost predicate WellFormed() {
      start <= end
    }
  }

  /** The gap between the two ranges is at most `gap`; overlapping ranges have no gap at all. */
  ghost predicate Near(r: Range, s: Range, gap: nat) {
    r.start <= s.end + gap && s.start <= r.end + gap
  }

  ghost predicate AllWellFormed(rs: seq<Range>) {
    forall i :: 0 <= i < |rs| ==> rs[i].WellFormed()
  }

  /** Strictly ordered, with more than `gap` bytes between one range and any later one. */
  ghost predicate Separated(ms: seq<Range>, gap: nat) {
    forall j, k :: 0 <= j < k < |ms| ==> ms[j].end + gap < ms[k].start
  }

  /** Half-byte `x` lies in the range extended by `gap` at its end. Half-bytes tell ranges that touch after the
      extension from ranges that are merely adjacent. */
  ghost predicate Reaches(r: Range, gap: nat, x: int) {
    2 * r.start <= x <= 2 * (r.end + gap)
  }

  ghost predicate Covered(rs: seq<Range>, gap: nat, x: int) {
    exists i :: 0 <= i < |rs| && Reaches(rs[i], gap, x)
  }

  /** `ms` is the canonical coalesced form of `rs`: separated, and covering the same extended bytes. */
  ghost predicate Canonical(ms: seq<Range>, rs: seq<Range>, gap: nat) {
    && AllWellFormed(ms)
    && Separated(ms, gap)
    && SameCover(ms, rs, gap)
  }

  ghost predicate SameCover(ms: seq<Range>, rs: seq<Range>, gap: nat) {
    forall x :: Covered(ms, gap, x) <==> Covered(rs, gap, x)
  }

  // ----- the algorithm -----

  ghost predicate Sorted(rs: seq<Range>) {
    forall i, j :: 0 <= i < j < |rs| ==> rs[i].start <= rs[j].start
  }

  /** `sort_unstable_by_key(start)`: some ordering by start; ties come out in any order. */
  method SortByStart(rs: seq<Range>) returns (sorted: seq<Range>)
    ensures Sorted(sorted) && multiset(sorted) == multiset(rs)
  {
    sorted := [];
    for i := 0 to |rs|
      invariant Sorted(sorted) && multiset(sorted) == multiset(rs[..i])
    {
      hide Sorted;
      assert rs[..i + 1] == rs[..i] + [rs[i]];
      sorted := InsertSorted(sorted, rs[i]);
    }
    assert rs[..|rs|] == rs;
  }

  method InsertSorted(rs: seq<Range>, r: Range) returns (sorted: seq<Range>)
    requires Sorted(rs)
    ensures Sorted(sorted) && multiset(sorted) == multiset(rs) + multiset{r}
  {
    var k := 0;
    while k < |rs| && rs[k].start <= r.start
      invariant k <= |rs|
      invariant forall j :: 0 <= j < k ==> rs[j].start <= r.start
    {
      k := k + 1;
    }
    InsertAt(rs, k, r);
    sorted := rs[..k] + [r] + rs[k..];
  }

  lemma InsertAt(sorted: seq<Range>, k: nat, r: Range)
    requires Sorted(sorted) && k <= |sorted|
    requires forall j :: 0 <= j < k ==> sorted[j].start <= r.start
    requires k < |sorted| ==> r.start < sorted[k].start
    ensures Sorted(sorted[..k] + [r] + sorted[k..])
    ensures multiset(sorted[..k] + [r] + sorted[k..]) == multiset(sorted) + multiset{r}
  {
    assert sorted == sorted[..k] + sorted[k..];
  }

  lemma SameMembers(rs: seq<Range>, ss: seq<Range>, gap: nat)
    requires forall r :: r in rs <==> r in ss
    ensures AllWellFormed(rs) ==> AllWellFormed(ss)
    ensures SameCover(rs, ss, gap)
  {
    forall i | 0 <= i < |ss|
      ensures exists j :: 0 <= j < |rs| && rs[j] == ss[i]
    {
      assert ss[i] in rs;
    }
    forall i | 0 <= i < |rs|
      ensures exists j :: 0 <= j < |ss| && ss[j] == rs[i]
    {
      assert rs[i] in ss;
    }
  }

  lemma CoveredSnoc(rs: seq<Range>, r: Range, gap: nat)
    ensures forall x :: Covered(rs + [r], gap, x) <==> Covered(rs, gap, x) || Reaches(r, gap, x)
  {
    forall x
      ensures Covered(rs + [r], gap, x) <==> Covered(rs, gap, x) || Reaches(r, gap, x)
    {
      if Covered(rs, gap, x) {
        var i :| 0 <= i < |rs| && Reaches(rs[i], gap, x);
        assert (rs + [r])[i] == rs[i];
      }
      if Reaches(r, gap, x) {
        assert (rs + [r])[|rs|] == r;
      }
    }
  }

  /** Opening a new merged range. */
  lemma StartCover(merged: seq<Range>, seen: seq<Range>, first: Range, gap: nat)
    requires SameCover(merged, seen, gap)
    ensures SameCover(merged + [first], seen + [first], gap)
  {
    CoveredSnoc(merged, first, gap);
    CoveredSnoc(seen, first, gap);
  }

  /** Growing the open range by the next input range that starts within `gap` of its end. */
  lemma GrowCover(merged: seq<Range>, open: Range, seen: seq<Range>, next: Range, gap: nat)
    requires SameCover(merged + [open], seen, gap)
    requires open.WellFormed() && next.WellFormed() && open.start <= next.start <= open.end + gap
    ensures SameCover(merged + [Range(open.start, Max(open.end, next.end))], seen + [next], gap)
  {
    var grown := Range(open.start, Max(open.end, next.end));
    CoveredSnoc(merged, open, gap);
    CoveredSnoc(merged, grown, gap);
    CoveredSnoc(seen, next, gap);
    assert forall x :: Reaches(grown, gap, x) <==> Reaches(open, gap, x) || Reaches(next, gap, x);
  }

  /** The two-index loop returns the canonical form, for every list of well-formed ranges. */
  method MergeRanges(ranges: seq<Range>, coalesce: nat) returns (merged: seq<Range>)
    requires AllWellFormed(ranges)
    ensures Canonical(merged, ranges, coalesce)
  {
    if ranges == [] {
      return [];
    }
    var sorted := SortByStart(ranges);
    assert forall r :: r in ranges <==> r in multiset(ranges);
    assert forall r :: r in sorted <==> r in multiset(sorted);
    SameMembers(ranges, sorted, coalesce);
    merged := [];
    assert sorted[..0] == [];
    hide Covered, Reaches, SameCover;
    assert SameCover([], [], coalesce) by { NothingCovered(coalesce); }
    var startIdx, endIdx := 0, 1;
    while startIdx != |sorted|
      invariant startIdx <= |sorted| && endIdx == startIdx + 1
      invariant AllWellFormed(merged) && Separated(merged, coalesce)
      invariant merged != [] && startIdx < |sorted| ==> merged[|merged| - 1].end + coalesce < sorted[startIdx].start
      invariant SameCover(merged, sorted[..startIdx], coalesce)
      decreases |sorted| - startIdx
    {
      var first := sorted[startIdx];
      var rangeEnd := first.end;
      assert first.WellFormed();
      assert sorted[..startIdx + 1] == sorted[..startIdx] + [first];
      StartCover(merged, sorted[..startIdx], first, coalesce);
      while endIdx != |sorted| && (sorted[endIdx].start < rangeEnd || sorted[endIdx].start - rangeEnd <= coalesce)
        invariant startIdx < endIdx <= |sorted| && first.start <= rangeEnd
        invariant SameCover(merged + [Range(first.start, rangeEnd)], sorted[..endIdx], coalesce)
        decreases |sorted| - endIdx
      {
        assert sorted[..endIdx + 1] == sorted[..endIdx] + [sorted[endIdx]];
        GrowCover(merged, Range(first.start, rangeEnd), sorted[..endIdx], sorted[endIdx], coalesce);
        rangeEnd := Max(rangeEnd, sorted[endIdx].end);
        endIdx := endIdx + 1;
      }
      PushSeparated(merged, Range(first.start, rangeEnd), coalesce);
      merged := merged + [Range(first.start, rangeEnd)];
      startIdx := endIdx;
      endIdx := endIdx + 1;
    }
    assert sorted[..|sorted|] == sorted;
    SameCoverTrans(merged, sorted, ranges, coalesce);
  }

  lemma NothingCovered(gap: nat)
    ensures SameCover([], [], gap)
  {
  }

  lemma SameCoverTrans(ms: seq<Range>, rs: seq<Range>, ss: seq<Range>, gap: nat)
    requires SameCover(ms, rs, gap) && SameCover(ss, rs, gap)
    ensures SameCover(ms, ss, gap)
  {
  }

  lemma PushSeparated(ms: seq<Range>, m: Range, gap: nat)
    requires AllWellFormed(ms) && Separated(ms, gap) && m.WellFormed()
    requires ms != [] ==> ms[|ms| - 1].end + gap < m.start
    ensures AllWellFormed(ms + [m]) && Separated(ms + [m], gap)
  {
    forall j | 0 <= j < |ms|
      ensures ms[j].end + gap < m.start
    {
      assert ms[|ms| - 1].WellFormed();
    }
  }

  // ----- what canonical means -----

  /** Half-bytes just outside a separated range are not covered. */
  lemma EdgesUncovered(ms: seq<Range>, gap: nat, k: nat)
    requires AllWellFormed(ms) && Separated(ms, gap) && k < |ms|
    ensures !Covered(ms, gap, 2 * ms[k].start - 1)
    ensures !Covered(ms, gap, 2 * (ms[k].end + gap) + 1)
  {
    forall j | 0 <= j < |ms|
      ensures !Reaches(ms[j], gap, 2 * ms[k].start - 1)
      ensures !Reaches(ms[j], gap, 2 * (ms[k].end + gap) + 1)
    {
      assert ms[j].WellFormed() && ms[k].WellFormed();
    }
  }

  /** Every input range lies inside one merged range. */
  lemma Contained(ms: seq<Range>, rs: seq<Range>, gap: nat, i: nat) returns (k: nat)
    requires Canonical(ms, rs, gap) && AllWellFormed(rs) && i < |rs|
    ensures k < |ms| && ms[k].start <= rs[i].start && rs[i].end <= ms[k].end
  {
    var r := rs[i];
    assert r.WellFormed() && Reaches(r, gap, 2 * r.start);
    assert Covered(ms, gap, 2 * r.start);
    k :| 0 <= k < |ms| && Reaches(ms[k], gap, 2 * r.start);
    EdgesUncovered(ms, gap, k);
    if r.end > ms[k].end {
      assert Reaches(r, gap, 2 * (ms[k].end + gap) + 1);
      assert false;
    }
  }

  /** The bounds of a merged range are the start of one input range and the end of another, both inside it. */
  lemma Tight(ms: seq<Range>, rs: seq<Range>, gap: nat, k: nat)
    requires Canonical(ms, rs, gap) && AllWellFormed(rs) && k < |ms|
    ensures exists i :: 0 <= i < |rs| && rs[i].start == ms[k].start && rs[i].end <= ms[k].end
    ensures exists i :: 0 <= i < |rs| && rs[i].end == ms[k].end && rs[i].start >= ms[k].start
  {
    var m := ms[k];
    EdgesUncovered(ms, gap, k);
    assert m.WellFormed() && Reaches(m, gap, 2 * m.start) && Reaches(m, gap, 2 * (m.end + gap));
    assert Covered(rs, gap, 2 * m.start) && Covered(rs, gap, 2 * (m.end + gap));
    var i :| 0 <= i < |rs| && Reaches(rs[i], gap, 2 * m.start);
    var j :| 0 <= j < |rs| && Reaches(rs[j], gap, 2 * (m.end + gap));
    assert rs[i].WellFormed() && rs[j].WellFormed();
    assert !Reaches(rs[i], gap, 2 * m.start - 1) && !Reaches(rs[j], gap, 2 * (m.end + gap) + 1);
    assert !Reaches(rs[i], gap, 2 * (m.end + gap) + 1) && !Reaches(rs[j], gap, 2 * m.start - 1);
  }

  /** A separated list is determined by what it covers. */
  lemma {:induction false} CanonicalUnique(ms: seq<Range>, ns: seq<Range>, gap: nat)
    requires AllWellFormed(ms) && Separated(ms, gap) && AllWellFormed(ns) && Separated(ns, gap)
    requires SameCover(ms, ns, gap)
    ensures ms == ns
  {
    if |ms| > 0 {
      SameAt(ms, ns, gap, 0);
    }
    if |ns| > 0 {
      SameAt(ns, ms, gap, 0);
    }
    if |ms| > 0 && |ns| > 0 {
      FirstIsLeast(ms, ns, gap);
      FirstIsLeast(ns, ms, gap);
      var rest, others := ms[1..], ns[1..];
      assert SameCover(rest, others, gap) by {
        forall x
          ensures Covered(rest, gap, x) <==> Covered(others, gap, x)
        {
          CoveredTail(ms, gap, x);
          CoveredTail(ns, gap, x);
        }
      }
      CanonicalUnique(rest, others, gap);
      assert ms == [ms[0]] + rest && ns == [ns[0]] + others;
    }
  }

  /** Each range of one list is a range of the other. */
  lemma SameAt(ms: seq<Range>, ns: seq<Range>, gap: nat, k: nat)
    requires AllWellFormed(ms) && Separated(ms, gap) && AllWellFormed(ns) && Separated(ns, gap)
    requires SameCover(ms, ns, gap)
    requires k < |ms|
    ensures ms[k] in ns
  {
    var j := Contained(ns, ms, gap, k);
    EdgesUncovered(ms, gap, k);
    assert ns[j].WellFormed() && ms[k].WellFormed();
    assert !Covered(ns, gap, 2 * ms[k].start - 1) && !Covered(ns, gap, 2 * (ms[k].end + gap) + 1);
    assert !Reaches(ns[j], gap, 2 * ms[k].start - 1) && !Reaches(ns[j], gap, 2 * (ms[k].end + gap) + 1);
    assert ns[j] == ms[k];
  }

  lemma FirstIsLeast(ms: seq<Range>, ns: seq<Range>, gap: nat)
    requires AllWellFormed(ms) && Separated(ms, gap) && AllWellFormed(ns) && Separated(ns, gap)
    requires |ms| > 0 && |ns| > 0 && ms[0] in ns && ns[0] in ms
    ensures ms[0] == ns[0]
  {
    var j :| 0 <= j < |ns| && ns[j] == ms[0];
    var i :| 0 <= i < |ms| && ms[i] == ns[0];
    assert ms[0].WellFormed() && ms[i].WellFormed();
  }

  lemma CoveredTail(ms: seq<Range>, gap: nat, x: int)
    requires AllWellFormed(ms) && Separated(ms, gap) && |ms| > 0
    ensures Covered(ms[1..], gap, x) <==> Covered(ms, gap, x) && !Reaches(ms[0], gap, x)
  {
    if Covered(ms[1..], gap, x) {
      var i :| 0 <= i < |ms[1..]| && Reaches(ms[1..][i], gap, x);
      assert ms[i + 1] == ms[1..][i];
    }
    if Covered(ms, gap, x) && !Reaches(ms[0], gap, x) {
      var i :| 0 <= i < |ms| && Reaches(ms[i], gap, x);
      assert ms[1..][i - 1] == ms[i];
    }
  }

  /** The outcome does not depend on the order, or the repetition, of the input ranges. */
  lemma OrderIndependent(rs: seq<Range>, ss: seq<Range>, ms: seq<Range>, ns: seq<Range>, gap: nat)
    requires forall r :: r in rs <==> r in ss
    requires Canonical(ms, rs, gap) && Canonical(ns, ss, gap)
    ensures ms == ns
  {
    SameMembers(rs, ss, gap);
    CanonicalUnique(ms, ns, gap);
  }

  /** Merging an already merged list changes nothing. */
  lemma Idempotent(rs: seq<Range>, ms: seq<Range>, ns: seq<Range>, gap: nat)
    requires Canonical(ms, rs, gap) && Canonical(ns, ms, gap)
    ensures ns == ms
  {
    CanonicalUnique(ns, ms, gap);
  }

  // ----- connected components -----

  /** A chain of input ranges, each near the next. */
  ghost predicate Chain(rs: seq<Range>, gap: nat, p: seq<nat>) {
    && p != []
    && (forall i :: 0 <= i < |p| ==> p[i] < |rs|)
    && forall i :: 0 <= i < |p| - 1 ==> Near(rs[p[i]], rs[p[i + 1]], gap)
  }

  ghost predicate Linked(rs: seq<Range>, gap: nat, i: nat, j: nat) {
    exists p :: Chain(rs, gap, p) && p[0] == i && p[|p| - 1] == j
  }

  /** Chains do not leave a merged range. */
  lemma {:induction false} ChainStays(ms: seq<Range>, rs: seq<Range>, gap: nat, p: seq<nat>, k: nat)
    requires Canonical(ms, rs, gap) && AllWellFormed(rs) && Chain(rs, gap, p) && k < |ms|
    requires ms[k].start <= rs[p[0]].start && rs[p[0]].end <= ms[k].end
    ensures ms[k].start <= rs[p[|p| - 1]].start && rs[p[|p| - 1]].end <= ms[k].end
  {
    if |p| > 1 {
      var l := Contained(ms, rs, gap, p[1]);
      assert Near(rs[p[0]], rs[p[0 + 1]], gap);
      assert ms[l].WellFormed() && ms[k].WellFormed();
      assert rs[p[0]].WellFormed() && rs[p[1]].WellFormed();
      assert l == k;
      var tail := p[1..];
      forall i | 0 <= i < |tail| - 1
        ensures Near(rs[tail[i]], rs[tail[i + 1]], gap)
      {
        assert tail[i] == p[i + 1] && tail[i + 1] == p[(i + 1) + 1];
      }
      ChainStays(ms, rs, gap, tail, k);
    }
  }

  /** From any input range a chain leads to one that ends where the merged range ends. */
  lemma {:induction false} ChainToEnd(ms: seq<Range>, rs: seq<Range>, gap: nat, i: nat, k: nat) returns (p: seq<nat>)
    requires Canonical(ms, rs, gap) && AllWellFormed(rs) && i < |rs| && k < |ms|
    requires ms[k].start <= rs[i].start && rs[i].end <= ms[k].end
    ensures Chain(rs, gap, p) && p[0] == i && rs[p[|p| - 1]].end == ms[k].end
    decreases ms[k].end - rs[i].end
  {
    var r, m := rs[i], ms[k];
    if r.end == m.end {
      p := [i];
    } else {
      var x := 2 * (r.end + gap) + 1;
      assert r.WellFormed() && Reaches(m, gap, x);
      assert Covered(ms, gap, x);
      var j :| 0 <= j < |rs| && Reaches(rs[j], gap, x);
      assert rs[j].WellFormed() && Near(r, rs[j], gap);
      assert Chain(rs, gap, [i, j]);
      ChainStays(ms, rs, gap, [i, j], k);
      var rest := ChainToEnd(ms, rs, gap, j, k);
      p := [i] + rest;
      ChainConcat(rs, gap, [i], rest);
    }
  }

  lemma ChainConcat(rs: seq<Range>, gap: nat, p: seq<nat>, q: seq<nat>)
    requires Chain(rs, gap, p) && Chain(rs, gap, q) && Near(rs[p[|p| - 1]], rs[q[0]], gap)
    ensures Chain(rs, gap, p + q)
  {
    var c := p + q;
    forall i | 0 <= i < |c| - 1
      ensures Near(rs[c[i]], rs[c[i + 1]], gap)
    {
      if i + 1 < |p| {
        assert c[i] == p[i] && c[i + 1] == p[i + 1];
      } else if i + 1 == |p| {
        assert c[i] == p[|p| - 1] && c[i + 1] == q[0];
      } else {
        var j := i - |p|;
        assert c[i] == q[j] && c[i + 1] == q[j + 1];
      }
    }
  }

  function Reverse(p: seq<nat>): seq<nat> {
    seq(|p|, i requires 0 <= i < |p| => p[|p| - 1 - i])
  }

  lemma ChainReverse(rs: seq<Range>, gap: nat, p: seq<nat>)
    requires Chain(rs, gap, p)
    ensures Chain(rs, gap, Reverse(p))
  {
    var c := Reverse(p);
    forall i | 0 <= i < |c| - 1
      ensures Near(rs[c[i]], rs[c[i + 1]], gap)
    {
      var j := |p| - 2 - i;
      assert c[i + 1] == p[j] && c[i] == p[j + 1];
    }
  }

  /** Two input ranges end up in the same merged range exactly when they belong to one connected component of the
      relation "the gap is at most `gap`". */
  lemma MergedAreComponents(ms: seq<Range>, rs: seq<Range>, gap: nat, i: nat, j: nat)
    requires Canonical(ms, rs, gap) && AllWellFormed(rs) && i < |rs| && j < |rs|
    ensures Linked(rs, gap, i, j) <==> exists k :: 0 <= k < |ms| && Inside(ms[k], rs[i]) && Inside(ms[k], rs[j])
  {
    if Linked(rs, gap, i, j) {
      var p :| Chain(rs, gap, p) && p[0] == i && p[|p| - 1] == j;
      var k := Contained(ms, rs, gap, i);
      ChainStays(ms, rs, gap, p, k);
      assert Inside(ms[k], rs[i]) && Inside(ms[k], rs[j]);
    }
    if k :| 0 <= k < |ms| && Inside(ms[k], rs[i]) && Inside(ms[k], rs[j]) {
      var p := ChainToEnd(ms, rs, gap, i, k);
      var q := ChainToEnd(ms, rs, gap, j, k);
      ChainReverse(rs, gap, q);
      assert rs[p[|p| - 1]].WellFormed() && rs[q[|q| - 1]].WellFormed();
      ChainConcat(rs, gap, p, Reverse(q));
      var c := p + Reverse(q);
      assert c[0] == i && c[|c| - 1] == j;
    }
  }

  ghost predicate Inside(m: Range, r: Range) {
    m.start <= r.start && r.end <= m.end
  }
}
